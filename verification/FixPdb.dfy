/** fixPdb of tools/prctool.py: repairs record databases whose deleted records have offset zero. */
module FixPdb {
  import opened Bytes
  import opened PalmDatabase
  import opened Wrappers

  /** A record database with a readable header and a complete entry table. */
  predicate Fixable(data: seq<byte>) {
    && |data| >= TABLE_START && AsciiBytes(Terminated(ReadHeader(data).name))
    && !OfResources(data) && TableEnd(data) <= |data|
  }

  function EntryStart(i: nat): nat {
    TABLE_START + TableSize(false, i)
  }

  function Local(data: seq<byte>, i: nat): int
    requires Fixable(data) && i < RecordCount(data)
  {
    LocalAt(data, false, EntryStart(i))
  }

  /** The offset of the first live record from i on, or the end of the file. */
  function NextLive(data: seq<byte>, i: nat): (n: nat)
    requires Fixable(data) && i <= RecordCount(data)
    ensures |data| < MAX32 ==> Is32(n)
    decreases RecordCount(data) - i
  {
    if i == RecordCount(data) then |data|
    else if Local(data, i) != 0 then Local(data, i)
    else NextLive(data, i + 1)
  }

  /** The file with its first k entries repaired. */
  function Patched(data: seq<byte>, k: nat): (r: seq<byte>)
    requires Fixable(data) && k <= RecordCount(data) && |data| < MAX32
    ensures |r| == |data|
  {
    if k == 0 then data
    else
      var before := Patched(data, k - 1);
      if Local(data, k - 1) != 0 then before
      else PutAt(before, EntryStart(k - 1), Put32(NextLive(data, k)))
  }

  function Fixed(data: seq<byte>): (r: seq<byte>)
    requires Fixable(data) && |data| < MAX32
    ensures |r| == |data|
  {
    Patched(data, RecordCount(data))
  }

  // ---- what repairing changes -----------------------------------------------------------------------

  /** Only the offset fields of repaired entries change. */
  lemma {:induction false} PatchedKeeps(data: seq<byte>, k: nat, from: nat, to: nat)
    requires Fixable(data) && k <= RecordCount(data) && |data| < MAX32 && from <= to <= |data|
    requires forall i :: 0 <= i < k ==> to <= EntryStart(i) || EntryStart(i) + 4 <= from
    ensures Patched(data, k)[from..to] == data[from..to]
  {
    hide Fixable, NextLive, Put32, Local, PutAt;
    if k > 0 {
      PatchedKeeps(data, k - 1, from, to);
      TableHolds(data, k - 1);
      if Local(data, k - 1) == 0 {
        PutAtKeeps(Patched(data, k - 1), EntryStart(k - 1), Put32(NextLive(data, k)), from, to);
      }
    }
  }

  lemma {:induction false} PatchedLocal(data: seq<byte>, k: nat, i: nat)
    requires Fixable(data) && i < k <= RecordCount(data) && |data| < MAX32
    ensures EntryStart(i) + 4 <= |data|
    ensures Get32(Patched(data, k), EntryStart(i)) == NextLive(data, i)
    decreases k
  {
    hide Fixable, Put32, Get32, PutAt, LocalAt;
    var at := EntryStart(i);
    TableHolds(data, i);
    if k == i + 1 {
      var before := Patched(data, i);
      if Local(data, i) != 0 {
        PatchedKeeps(data, i, at, at + 4);
        SameWord(before, data, at);
        LocalIsWord(data, i);
      } else {
        var fixed := PutAt(before, at, Put32(NextLive(data, k)));
        PutAtPlaces(before, at, Put32(NextLive(data, k)));
        Read32(fixed, at, NextLive(data, k));
      }
    } else {
      PatchedLocal(data, k - 1, i);
      var before := Patched(data, k - 1);
      if Local(data, k - 1) == 0 {
        TableHolds(data, k - 1);
        PutAtKeeps(before, EntryStart(k - 1), Put32(NextLive(data, k)), at, at + 4);
        SameWord(PutAt(before, EntryStart(k - 1), Put32(NextLive(data, k))), before, at);
      }
    }
  }

  lemma TableHolds(data: seq<byte>, i: nat)
    requires Fixable(data) && i < RecordCount(data)
    ensures EntryStart(i) + 8 <= TableEnd(data) <= |data|
  {
  }

  lemma LocalIsWord(data: seq<byte>, i: nat)
    requires Fixable(data) && i < RecordCount(data)
    ensures EntryStart(i) + 4 <= |data| && Local(data, i) == Get32(data, EntryStart(i))
  {
  }

  // ---- what the repaired file says --------------------------------------------------------------------

  /** Every live record starts behind the entry table and inside the file. */
  predicate OffsetsInFile(data: seq<byte>)
    requires Fixable(data)
  {
    forall i :: 0 <= i < RecordCount(data) ==> Local(data, i) == 0 || TableEnd(data) <= Local(data, i) <= |data|
  }

  lemma {:induction false} NextLiveInFile(data: seq<byte>, i: nat)
    requires Fixable(data) && OffsetsInFile(data) && i <= RecordCount(data)
    ensures TableEnd(data) <= NextLive(data, i) <= |data|
    decreases RecordCount(data) - i
  {
    hide Local, TableEnd;
    if i < RecordCount(data) && Local(data, i) == 0 {
      NextLiveInFile(data, i + 1);
    }
  }

  lemma FixedHead(data: seq<byte>)
    requires Fixable(data) && |data| < MAX32
    ensures var f := Fixed(data);
      && Fixable(f) && ReadHeader(f) == ReadHeader(data) && Get32(f, 72) == Get32(data, 72)
      && RecordCount(f) == RecordCount(data) && TableEnd(f) == TableEnd(data) && OfResources(f) == OfResources(data)
  {
    hide ReadHeader, Terminated, AsciiBytes, Patched, RecordCount, OfResources, Get32;
    PatchedKeeps(data, RecordCount(data), 0, TABLE_START);
    SameHead(Fixed(data), data);
  }

  lemma FixedLocal(data: seq<byte>, i: nat)
    requires Fixable(data) && |data| < MAX32 && i < RecordCount(data)
    ensures EntryStart(i) + 8 <= |data| && LocalAt(Fixed(data), false, EntryStart(i)) == NextLive(data, i)
  {
    hide Fixable, Patched, NextLive, Get32, Local;
    TableHolds(data, i);
    PatchedLocal(data, RecordCount(data), i);
  }

  /** No live record after the first entry starts behind the end of the file. */
  predicate LaterInFile(data: seq<byte>)
    requires Fixable(data)
  {
    forall i :: 1 <= i < RecordCount(data) ==> NextLive(data, i) <= |data|
  }

  lemma LaterOffsets(data: seq<byte>)
    requires Fixable(data) && |data| < MAX32
    ensures TABLE_START + TableSize(false, RecordCount(data)) <= |data|
    ensures LaterInFile(data) <==>
      forall i :: 1 <= i < RecordCount(data) ==>
        LocalAt(Fixed(data), false, TABLE_START + TableSize(false, i)) <= |data|
  {
    hide LocalAt, Fixed, NextLive, Local, ReadHeader, Terminated, AsciiBytes;
    var f, n := Fixed(data), RecordCount(data);
    if LaterInFile(data) {
      forall i | 1 <= i < n
        ensures LocalAt(f, false, TABLE_START + TableSize(false, i)) <= |data|
      {
        FixedLocal(data, i);
        assert NextLive(data, i) <= |data|;
      }
    }
    if forall i :: 1 <= i < n ==> LocalAt(f, false, TABLE_START + TableSize(false, i)) <= |data| {
      forall i | 1 <= i < n
        ensures NextLive(data, i) <= |data|
      {
        FixedLocal(data, i);
        assert LocalAt(f, false, TABLE_START + TableSize(false, i)) <= |data|;
      }
    }
  }

  /** The repaired file is accepted exactly if it has one segment, its info blocks are in order, the first
      live record does not start before them, and no later one starts behind the end. */
  lemma FixedAccepted(data: seq<byte>)
    requires Fixable(data) && |data| < MAX32
    ensures Objection(Fixed(data)) == None
      <==> && Get32(data, 72) == 0 && InfoOrdered(data)
           && (RecordCount(data) > 0 ==> NextLive(data, 0) >= Watermark(data)) && LaterInFile(data)
  {
    hide ReadHeader, Terminated, AsciiBytes, LocalAt, Patched, Fixed, NextLive, CheckItems, Local;
    var f, n := Fixed(data), RecordCount(data);
    FixedHead(data);
    LaterOffsets(data);
    hide LaterInFile;
    if n > 0 {
      CheckItemsExact(f, false, TABLE_START, n, Watermark(f));
      FixedLocal(data, 0);
      assert EntryStart(0) == TABLE_START;
    } else {
      NothingToCheck(f, TABLE_START, Watermark(f));
    }
  }

  /** So it is if every live record starts behind the table and inside the file, as far as the first one
      also starts behind the info blocks. */
  lemma FixedAcceptedInFile(data: seq<byte>)
    requires Fixable(data) && OffsetsInFile(data) && |data| < MAX32
    ensures Objection(Fixed(data)) == None
      <==> && Get32(data, 72) == 0 && InfoOrdered(data)
           && (RecordCount(data) > 0 ==> NextLive(data, 0) >= Watermark(data))
  {
    hide ReadHeader, Terminated, AsciiBytes, OffsetsInFile, NextLive, Objection, Fixed, RecordCount, TableEnd;
    FixedAccepted(data);
    forall i | 1 <= i < RecordCount(data)
      ensures NextLive(data, i) <= |data|
    {
      NextLiveInFile(data, i);
    }
  }

  lemma NothingToCheck(data: seq<byte>, at: nat, watermark: int)
    ensures CheckItems(data, false, at, 0, watermark) == None
  {
  }

  /** A live record keeps its attributes, its id and the bytes up to the next live record; a deleted
      one is empty. */
  lemma FixedRecord(data: seq<byte>, i: nat)
    requires Fixable(data) && OffsetsInFile(data) && |data| < MAX32 && i < RecordCount(data)
    ensures TableEnd(Fixed(data)) <= |data| && EntryStart(i) + 8 <= |data|
    ensures ReadItems(Fixed(data), false, TABLE_START, RecordCount(data))[i]
         == Record(data[EntryStart(i) + 4], Get24(data, EntryStart(i) + 5),
                   if Local(data, i) == 0 then [] else Slice(data, Local(data, i), NextLive(data, i + 1)))
  {
    hide ReadHeader, Terminated, AsciiBytes, LocalAt, Patched, NextLive, Local, Get24, Slice, ReadItems, EndAt;
    var f, n, p := Fixed(data), RecordCount(data), EntryStart(i);
    FixedHead(data);
    TableHolds(data, i);
    ReadItemsAt(f, false, TABLE_START, n, i);
    FixedLocal(data, i);
    PatchedKeeps(data, n, p + 4, p + 8);
    SameEntryTail(f, data, p + 4);
    FixedEnd(data, i);
    NextLiveStep(data, i);
    NextLiveInFile(data, i);
    SliceKept(data, NextLive(data, i), NextLive(data, i + 1));
  }

  lemma NextLiveStep(data: seq<byte>, i: nat)
    requires Fixable(data) && i < RecordCount(data)
    ensures NextLive(data, i) == if Local(data, i) != 0 then Local(data, i) else NextLive(data, i + 1)
  {
  }

  lemma FixedEnd(data: seq<byte>, i: nat)
    requires Fixable(data) && |data| < MAX32 && i < RecordCount(data)
    ensures TableEnd(Fixed(data)) <= |data|
    ensures EntryStart(i) + TableSize(false, RecordCount(data) - i) <= |data|
    ensures EndAt(Fixed(data), false, EntryStart(i), RecordCount(data) - i) == NextLive(data, i + 1)
  {
    hide ReadHeader, Terminated, AsciiBytes, LocalAt, Patched, Local, Fixed;
    FixedHead(data);
    if i + 1 < RecordCount(data) {
      FixedLocal(data, i + 1);
    }
  }

  lemma SameEntryTail(a: seq<byte>, b: seq<byte>, at: nat)
    requires at + 4 <= |a| == |b| && a[at..at + 4] == b[at..at + 4]
    ensures a[at] == b[at] && Get24(a, at + 1) == Get24(b, at + 1)
  {
    var x, y := a[at..at + 4], b[at..at + 4];
    assert a[at] == x[0] == y[0] == b[at] && a[at + 1] == x[1] == y[1] == b[at + 1];
    assert a[at + 2] == x[2] == y[2] == b[at + 2] && a[at + 3] == x[3] == y[3] == b[at + 3];
  }

  lemma SliceKept(data: seq<byte>, a: nat, b: nat)
    requires Fixable(data) && |data| < MAX32 && TableEnd(data) <= a
    ensures Slice(Fixed(data), a, b) == Slice(data, a, b)
    ensures a == b ==> Slice(data, a, b) == []
  {
    hide ReadHeader, Terminated, AsciiBytes, LocalAt, Patched, Local, OfResources, RecordCount;
    var e := if b <= |data| then b else |data|;
    if a <= e {
      PatchedKeeps(data, RecordCount(data), a, e);
    }
  }

  // ---- the program --------------------------------------------------------------------------------------

  datatype FixResult = Written(file: seq<byte>) | NotRecordDb | Failed

  method FixPdb(source: seq<byte>) returns (r: FixResult)
    ensures r.NotRecordDb? <==>
      && |source| >= HEADER_SIZE && AsciiBytes(Terminated(ReadHeader(source).name))
      && IsResourceDb(ReadHeader(source).attributes)
    ensures r.Written? ==> Fixable(source) && (|source| < MAX32 ==> r.file == Fixed(source))
    ensures Fixable(source) && |source| < MAX32 ==> r.Written?
  {
    hide ReadHeader, Terminated, AsciiBytes, LocalAt, Patched, Local, NextLive, PutAt, Put32;
    if |source| < HEADER_SIZE { return Failed; }
    var header := ReadHeader(source);
    if !AsciiBytes(Terminated(header.name)) { return Failed; }
    if IsResourceDb(header.attributes) { return NotRecordDb; }
    if |source| < TABLE_START { return Failed; }
    var numRecords := RecordCount(source);
    if TABLE_START + TableSize(false, numRecords) > |source| { return Failed; }
    assert Fixable(source);
    var out := new byte[|source|](i requires 0 <= i < |source| => source[i]);
    assert out[..] == source;
    if |source| < MAX32 { PatchedNothing(source); }
    for i := 0 to numRecords
      invariant |source| < MAX32 ==> out[..] == Patched(source, i)
      invariant fresh(out) && out.Length == |source|
    {
      if |source| < MAX32 { PatchedStep(source, i); }
      TableHolds(source, i);
      if Local(source, i) == 0 {
        var next := FindNext(source, i + 1);
        if !Is32(next) { return Failed; }
        PackInto(out, EntryStart(i), next);
      }
    }
    return Written(out[..]);
  }

  lemma PatchedNothing(data: seq<byte>)
    requires Fixable(data) && |data| < MAX32
    ensures Patched(data, 0) == data
  {
  }

  lemma PatchedStep(data: seq<byte>, i: nat)
    requires Fixable(data) && i < RecordCount(data) && |data| < MAX32
    ensures EntryStart(i) + 4 <= |data|
    ensures Patched(data, i + 1)
         == if Local(data, i) != 0 then Patched(data, i)
            else PutAt(Patched(data, i), EntryStart(i), Put32(NextLive(data, i + 1)))
  {
  }

  /** The inner loop: looks for the next live record. */
  method FindNext(source: seq<byte>, start: nat) returns (next: nat)
    requires Fixable(source) && start <= RecordCount(source)
    ensures next == NextLive(source, start)
  {
    hide Local;
    next := |source|;
    for i := start to RecordCount(source)
      invariant NextLive(source, start) == NextLive(source, i) && next == |source|
    {
      if Local(source, i) != 0 { return Local(source, i); }
    }
  }
}
