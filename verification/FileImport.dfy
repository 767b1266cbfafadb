/** src/cloudpilot/emulator/EmFileImport.cpp: validation of a database image and the homebrew
    installation, entry by entry, through the data manager of the device. */
module FileImport {
  import opened Bytes
  import opened PalmDatabase
  import opened DataManager
  import opened Wrappers

  datatype ImportError =
    | FileTooSmall | NameNotNullTerminated | NameNotPrintable | NextRecordListNonZero
    | DuplicateResource | ResourceTooSmall | RecordTooSmall | ResourceOutOfRange | RecordOutOfRange
    | ResourceMemError | RecordMemError | Palm(err: PalmErr)

  // ---- validation ---------------------------------------------------------------------------------

  /** PrvValidateDatabaseHeader, after the check that there is a header. */
  function HeaderFault(data: seq<byte>): (e: Option<ImportError>)
    ensures e == None ==> |data| >= TABLE_START && TableEnd(data) <= |data|
  {
    if |data| < TABLE_START then Some(FileTooSmall)
    else
      var name := Terminated(ReadHeader(data).name);
      if |name| == NAME_LENGTH then Some(NameNotNullTerminated)
      else if exists i :: 0 <= i < |name| && !(0x20 <= name[i] <= 0x7e) then Some(NameNotPrintable)
      else if TableEnd(data) > |data| then Some(FileTooSmall)
      else None
  }

  predicate Whole(data: seq<byte>) {
    |data| >= TABLE_START && TableEnd(data) <= |data|
  }

  function EntryPlace(data: seq<byte>, i: nat): (at: nat)
    requires Whole(data) && i < RecordCount(data)
    ensures at + EntrySize(OfResources(data)) <= |data|
  {
    TABLE_START + TableSize(OfResources(data), i)
  }

  /** Where the chunk of entry i starts; the file ends where one more would start. */
  function Local(data: seq<byte>, i: nat): (n: nat)
    requires Whole(data) && i <= RecordCount(data)
  {
    if i == RecordCount(data) then |data| else LocalAt(data, OfResources(data), EntryPlace(data, i))
  }

  /** The type and id of a resource entry. */
  function Pair(data: seq<byte>, i: nat): (seq<byte>, int)
    requires Whole(data) && i < RecordCount(data)
  {
    var at := EntryPlace(data, i);
    (data[at..at + 4], Get16(data, at + 4))
  }

  predicate Seen(data: seq<byte>, i: nat, pair: (seq<byte>, int))
    requires Whole(data) && i <= RecordCount(data)
  {
    exists j :: 0 <= j < i && Pair(data, j) == pair
  }

  predicate Repeats(data: seq<byte>, i: nat)
    requires Whole(data) && i < RecordCount(data)
  {
    OfResources(data) && Seen(data, i, Pair(data, i))
  }

  /** The size as it lands in a long of 64 bits (wide) or 32 bits. Only the size of the last chunk is
      computed on 32 bits in any case. */
  function ItsSize(data: seq<byte>, i: nat, wide: bool): int
    requires Whole(data) && i < RecordCount(data)
  {
    var size := Local(data, i + 1) - Local(data, i);
    if !wide then Signed32(size)
    else if i + 1 == RecordCount(data) then size % MAX32
    else size
  }

  function ItsEnd(data: seq<byte>, i: nat, wide: bool): int
    requires Whole(data) && i < RecordCount(data)
  {
    var end := Local(data, i) + ItsSize(data, i, wide);
    if wide then end else end % MAX32
  }

  function EntryFault(data: seq<byte>, i: nat, wide: bool): Option<ImportError>
    requires Whole(data) && i < RecordCount(data)
  {
    var resource, size := OfResources(data), ItsSize(data, i, wide);
    if Repeats(data, i) then Some(DuplicateResource)
    else if resource && size <= 0 then Some(ResourceTooSmall)
    else if !resource && size < 0 then Some(RecordTooSmall)
    else if Local(data, i) < TableEnd(data) || ItsEnd(data, i, wide) > |data| then
      Some(if resource then ResourceOutOfRange else RecordOutOfRange)
    else None
  }

  /** What is wrong with the entries from i on. */
  function EntriesFault(data: seq<byte>, i: nat, wide: bool): Option<ImportError>
    requires Whole(data) && i <= RecordCount(data)
    decreases RecordCount(data) - i
  {
    if i == RecordCount(data) then None
    else if EntryFault(data, i, wide) != None then EntryFault(data, i, wide)
    else EntriesFault(data, i + 1, wide)
  }

  function Fault(data: seq<byte>, wide: bool): (e: Option<ImportError>)
    ensures e == None ==> Whole(data)
  {
    if HeaderFault(data) != None then HeaderFault(data)
    else if Get32(data, 72) != 0 then Some(NextRecordListNonZero)
    else EntriesFault(data, 0, wide)
  }

  /** Chunk i starts behind the entry table, does not end before it starts, and ends inside the file;
      a resource is not empty. */
  predicate Orderly(data: seq<byte>, i: nat)
    requires Whole(data) && i < RecordCount(data)
  {
    && TableEnd(data) <= Local(data, i) <= Local(data, i + 1) <= |data|
    && (OfResources(data) ==> Local(data, i) < Local(data, i + 1))
  }

  predicate Tiles(data: seq<byte>)
    requires Whole(data)
  {
    forall i :: 0 <= i < RecordCount(data) ==> Orderly(data, i)
  }

  predicate Distinct(data: seq<byte>)
    requires Whole(data)
  {
    forall i :: 0 <= i < RecordCount(data) ==> !Repeats(data, i)
  }

  /** The first chunk claims to start more than 2 GB behind its end. */
  predicate WrapsAround(data: seq<byte>)
    requires Whole(data) && RecordCount(data) > 0
  {
    Local(data, 1) <= |data| && Local(data, 0) > Local(data, 1) + MAX32 / 2
  }

  lemma {:induction false} NoFaultFrom(data: seq<byte>, i: nat, wide: bool)
    requires Whole(data) && i <= RecordCount(data)
    ensures EntriesFault(data, i, wide) == None
      <==> forall k :: i <= k < RecordCount(data) ==> EntryFault(data, k, wide) == None
    decreases RecordCount(data) - i
  {
    hide EntryFault, RecordCount, TableEnd;
    if i < RecordCount(data) {
      NoFaultFrom(data, i + 1, wide);
    }
  }

  lemma WideEntry(data: seq<byte>, i: nat)
    requires Whole(data) && i < RecordCount(data) && |data| < MAX32
    ensures EntryFault(data, i, true) == None
      <==> Orderly(data, i) && !Repeats(data, i)
  {
    hide LocalAt, OfResources, RecordCount, TableEnd, Repeats;
  }

  /** With a 64-bit long the validator accepts exactly the images whose chunks follow each other
      without gap up to the end of the file. */
  lemma AcceptsExactlyTilings(data: seq<byte>)
    requires |data| < MAX32
    ensures Fault(data, true) == None
      <==> HeaderFault(data) == None && Get32(data, 72) == 0 && Tiles(data) && Distinct(data)
  {
    hide EntryFault, HeaderFault, Orderly, Repeats, OfResources, RecordCount, TableEnd;
    if HeaderFault(data) == None {
      NoFaultFrom(data, 0, true);
      forall i | 0 <= i < RecordCount(data)
        ensures EntryFault(data, i, true) == None
          <==> Orderly(data, i) && !Repeats(data, i)
      {
        WideEntry(data, i);
      }
    }
  }

  lemma NarrowEntry(data: seq<byte>, i: nat)
    requires Whole(data) && i < RecordCount(data) && |data| < MAX32 / 2
    ensures EntryFault(data, i, false) == None
      <==> && (Orderly(data, i) || (Local(data, i + 1) <= |data| && Local(data, i) > Local(data, i + 1) + MAX32 / 2))
           && !Repeats(data, i)
  {
    hide LocalAt, OfResources, RecordCount, Repeats;
  }

  /** With a 32-bit long an image whose first chunk wraps around is accepted as well, and nothing else. */
  lemma NarrowAcceptsAlsoWrapping(data: seq<byte>)
    requires |data| < MAX32 / 2
    ensures Fault(data, false) == None
      <==> && HeaderFault(data) == None && Get32(data, 72) == 0 && Distinct(data)
           && (RecordCount(data) > 0 ==> Orderly(data, 0) || WrapsAround(data))
           && forall i :: 1 <= i < RecordCount(data) ==> Orderly(data, i)
  {
    hide EntryFault, HeaderFault, Repeats, OfResources, RecordCount, TableEnd, LocalAt, Get32;
    if HeaderFault(data) == None {
      NoFaultFrom(data, 0, false);
      if && Distinct(data)
         && forall i :: 0 <= i < RecordCount(data) ==> Orderly(data, i) || (i == 0 && WrapsAround(data))
      {
        forall i | 0 <= i < RecordCount(data)
          ensures EntryFault(data, i, false) == None
        {
          NarrowEntry(data, i);
          assert !Repeats(data, i);
        }
      }
      if forall k :: 0 <= k < RecordCount(data) ==> EntryFault(data, k, false) == None {
        forall i | 0 <= i < RecordCount(data)
          ensures !Repeats(data, i) && (Orderly(data, i) || (i == 0 && WrapsAround(data)))
        {
          if i > 0 { NarrowEntry(data, i - 1); }
          NarrowEntry(data, i);
          assert i > 0 ==> EntryFault(data, i - 1, false) == None;
          assert EntryFault(data, i, false) == None;
        }
      }
    }
  }

  /** A record database of 86 bytes that is accepted with a 32-bit long, though its only chunk starts
      16 bytes below 4 GB. */
  lemma WrappingExample() returns (data: seq<byte>)
    ensures |data| == 86 && Fault(data, false) == None && RecordCount(data) == 1 && WrapsAround(data)
    ensures Fault(data, true) != None
  {
    hide Put32, Get32, ReadHeader;
    var rest := Put32(0xfffffff0) + Zeros(4);
    data := Unnamed(1, rest);
    UnnamedHead(1, rest);
    assert rest[0..4] == Put32(0xfffffff0);
    UnnamedWord(1, rest, 0, 0xfffffff0);
    assert HeaderFault(data) == None && Local(data, 0) == 0xfffffff0 && Local(data, 1) == 86;
    NarrowAcceptsAlsoWrapping(data);
    AcceptsExactlyTilings(data);
    assert !Orderly(data, 0);
  }

  // ---- what an accepted image holds ------------------------------------------------------------------

  function Items(data: seq<byte>): (items: seq<Item>)
    requires Whole(data)
    ensures |items| == RecordCount(data)
  {
    ReadItems(data, OfResources(data), TABLE_START, RecordCount(data))
  }

  lemma ItemAt(data: seq<byte>, i: nat)
    requires Whole(data) && i < RecordCount(data)
    ensures Items(data)[i] == ReadItem(data, OfResources(data), EntryPlace(data, i), Local(data, i + 1))
  {
    hide ReadItem, LocalAt, OfResources, RecordCount;
    ReadItemsAt(data, OfResources(data), TABLE_START, RecordCount(data), i);
  }

  function ItemsFrom(data: seq<byte>, i: nat): seq<Item>
    requires Whole(data) && i <= RecordCount(data)
  {
    var n, resource := RecordCount(data), OfResources(data);
    assert TABLE_START + TableSize(resource, i) + TableSize(resource, n - i) == TableEnd(data);
    ReadItems(data, resource, TABLE_START + TableSize(resource, i), n - i)
  }

  lemma ItemsStep(data: seq<byte>, i: nat)
    requires Whole(data) && i < RecordCount(data)
    ensures ItemsFrom(data, i)
         == [ReadItem(data, OfResources(data), EntryPlace(data, i), Local(data, i + 1))] + ItemsFrom(data, i + 1)
  {
    hide LocalAt, OfResources, RecordCount, ReadItem;
    assert TABLE_START + TableSize(OfResources(data), i) + EntrySize(OfResources(data))
        == TABLE_START + TableSize(OfResources(data), i + 1);
  }

  lemma ContentsCons(item: Item, rest: seq<Item>)
    ensures Contents([item] + rest) == item.data + Contents(rest)
  {
    assert ([item] + rest)[1..] == rest;
  }

  /** Put together, the chunks of a tiling are the file from the first chunk to its end. */
  lemma {:induction false} TilingFrom(data: seq<byte>, i: nat)
    requires Whole(data) && Tiles(data) && i <= RecordCount(data)
    ensures Local(data, i) <= |data| && Contents(ItemsFrom(data, i)) == data[Local(data, i)..]
    decreases RecordCount(data) - i
  {
    hide LocalAt, OfResources, RecordCount, ItemsFrom, Contents, TableEnd;
    if i < RecordCount(data) {
      TilingFrom(data, i + 1);
      ItemsStep(data, i);
      assert Orderly(data, i);
      var item := ReadItem(data, OfResources(data), EntryPlace(data, i), Local(data, i + 1));
      ContentsCons(item, ItemsFrom(data, i + 1));
      assert item.data == data[Local(data, i)..Local(data, i + 1)];
    } else {
      assert ItemsFrom(data, i) == [] && Contents([]) == [] by { NoItemsLeft(data); }
    }
  }

  lemma NoItemsLeft(data: seq<byte>)
    requires Whole(data)
    ensures ItemsFrom(data, RecordCount(data)) == [] && Contents([]) == []
  {
  }

  lemma TilesTheFile(data: seq<byte>)
    requires Whole(data) && Tiles(data)
    ensures Local(data, 0) <= |data| && Contents(Items(data)) == data[Local(data, 0)..]
  {
    hide ReadItems, Contents, LocalAt;
    TilingFrom(data, 0);
  }

  /** Empty records are not installed. */
  function Kept(items: seq<Item>): (kept: seq<Item>) {
    if items == [] then []
    else
      var last := items[|items| - 1];
      Kept(items[..|items| - 1]) + (if last.Record? && last.data == [] then [] else [last])
  }

  /** prctool parses an image the importer accepts exactly if the info blocks stand in order between the
      entry table and the first chunk; then it sees the same items. */
  lemma ParserAgrees(data: seq<byte>)
    requires |data| < MAX32 && Fault(data, true) == None
    ensures Whole(data) && AsciiBytes(Terminated(ReadHeader(data).name)) && ReadDb(data).items == Items(data)
    ensures Parsed(data) == Ok(ReadDb(data))
      <==> InfoOrdered(data) && (RecordCount(data) > 0 ==> Watermark(data) <= Local(data, 0))
  {
    hide EntriesFault, LocalAt, CheckItems, ReadItems, ReadHeader, Terminated, TableEnd, RecordCount, OfResources,
         Get32;
    hide ReadDb, EntryPlace, TableSize;
    AcceptsExactlyTilings(data);
    var n, resource := RecordCount(data), OfResources(data);
    PrintableIsAscii(data);
    ReadDbItems(data);
    if n > 0 {
      CheckItemsExact(data, resource, TABLE_START, n, Watermark(data));
      FirstPlace(data);
      forall i | 1 <= i < n
        ensures TABLE_START + TableSize(resource, i) + EntrySize(resource) <= |data|
        ensures LocalAt(data, resource, TABLE_START + TableSize(resource, i)) <= |data|
      {
        assert Orderly(data, i) && Local(data, i) == LocalAt(data, resource, EntryPlace(data, i));
        PlaceOf(data, i);
      }
    } else {
      NothingToCheck(data);
    }
  }

  lemma PlaceOf(data: seq<byte>, i: nat)
    requires Whole(data) && i < RecordCount(data)
    ensures EntryPlace(data, i) == TABLE_START + TableSize(OfResources(data), i)
    ensures TABLE_START + TableSize(OfResources(data), i) + EntrySize(OfResources(data)) <= |data|
  {
  }

  lemma FirstPlace(data: seq<byte>)
    requires Whole(data) && RecordCount(data) > 0
    ensures EntryPlace(data, 0) == TABLE_START && TABLE_START + EntrySize(OfResources(data)) <= |data|
    ensures TABLE_START + TableSize(OfResources(data), RecordCount(data)) <= |data|
  {
  }

  lemma NothingToCheck(data: seq<byte>)
    requires Whole(data) && RecordCount(data) == 0
    ensures CheckItems(data, OfResources(data), TABLE_START, 0, Watermark(data)) == None
  {
  }

  lemma ReadDbItems(data: seq<byte>)
    requires Whole(data) && AsciiBytes(Terminated(ReadHeader(data).name))
    ensures ReadDb(data).items == Items(data)
  {
  }

  lemma PrintableIsAscii(data: seq<byte>)
    requires HeaderFault(data) == None
    ensures AsciiBytes(Terminated(ReadHeader(data).name))
  {
    hide Terminated, ReadHeader;
  }

  // ---- the validator ------------------------------------------------------------------------------------

  method ValidateHeader(data: seq<byte>) returns (e: Option<ImportError>)
    requires |data| >= TABLE_START
    ensures e == HeaderFault(data)
  {
    hide Terminated, ReadHeader, TableEnd;
    var name := Terminated(ReadHeader(data).name);
    var len := |name|;
    if len >= NAME_LENGTH { return Some(NameNotNullTerminated); }
    for i := 0 to len
      invariant forall k :: 0 <= k < i ==> 0x20 <= name[k] <= 0x7e
    {
      if name[i] < 0x20 || name[i] > 0x7e { return Some(NameNotPrintable); }
    }
    if TableEnd(data) > |data| { return Some(FileTooSmall); }
    return None;
  }

  method ValidateEntries(data: seq<byte>, wide: bool) returns (e: Option<ImportError>)
    requires Whole(data)
    ensures e == if Get32(data, 72) != 0 then Some(NextRecordListNonZero) else EntriesFault(data, 0, wide)
  {
    hide LocalAt, OfResources, RecordCount, TableEnd, Pair, Get32;
    var upperRange, lowerRange, resource, numRecords := |data|, TableEnd(data), OfResources(data), RecordCount(data);
    var resPairs: seq<(seq<byte>, int)> := [];
    if Get32(data, 72) != 0 { return Some(NextRecordListNonZero); }
    for i := 0 to numRecords
      invariant EntriesFault(data, 0, wide) == EntriesFault(data, i, wide)
      invariant resource ==> |resPairs| == i && forall k :: 0 <= k < i ==> resPairs[k] == Pair(data, k)
    {
      var itsSize := ItsSize(data, i, wide);
      if resource {
        var thisPair := Pair(data, i);
        if thisPair in resPairs {
          ghost var k :| 0 <= k < i && resPairs[k] == thisPair;
          assert Pair(data, k) == Pair(data, i);
          return Some(DuplicateResource);
        }
        assert !Seen(data, i, thisPair) by { NotSeen(data, i, resPairs); }
        resPairs := resPairs + [thisPair];
        if itsSize <= 0 { return Some(ResourceTooSmall); }
      } else if itsSize < 0 {
        return Some(RecordTooSmall);
      }
      var itsLocalID := Local(data, i);
      var end := if wide then itsLocalID + itsSize else (itsLocalID + itsSize) % MAX32;
      if itsLocalID < lowerRange || end > upperRange {
        return Some(if resource then ResourceOutOfRange else RecordOutOfRange);
      }
    }
    return None;
  }

  lemma NotSeen(data: seq<byte>, i: nat, pairs: seq<(seq<byte>, int)>)
    requires Whole(data) && i < RecordCount(data) && |pairs| == i && Pair(data, i) !in pairs
    requires forall k :: 0 <= k < i ==> pairs[k] == Pair(data, k)
    ensures !Seen(data, i, Pair(data, i))
  {
    hide Pair;
    forall j | 0 <= j < i
      ensures Pair(data, j) != Pair(data, i)
    {
      assert pairs[j] in pairs;
    }
  }

  method ValidateDatabase(data: seq<byte>, wide: bool) returns (e: Option<ImportError>)
    ensures e == Fault(data, wide)
  {
    hide EntriesFault;
    if |data| < TABLE_START { return Some(FileTooSmall); }
    e := ValidateHeader(data);
    if e == None { e := ValidateEntries(data, wide); }
  }
}
