/** The Palm database container (.prc/.pdb) as tools/prctool.py reads and writes it. */
module PalmDatabase {
  import opened Bytes
  import opened Wrappers

  datatype Result<+T> = Ok(value: T) | Err(error: ParseError)

  datatype ParseError = Short | NotAscii | Multisegment | BadAppInfo | BadSortInfo | BadEntry | OutOfRange

  const HEADER_SIZE := 72
  const RECORD_LIST_SIZE := 6
  const TABLE_START := HEADER_SIZE + RECORD_LIST_SIZE
  const RESOURCE_ENTRY_SIZE := 10
  const RECORD_ENTRY_SIZE := 8
  const NAME_LENGTH := 32

  datatype Item =
    | Resource(kind: seq<byte>, id: int, data: seq<byte>)
    | Record(attributes: int, id: int, data: seq<byte>)

  datatype Database = Database(
    name: string, attributes: int, version: int,
    creationDate: int, modificationDate: int, lastBackupDate: int, modificationNumber: int,
    kind: seq<byte>, creator: seq<byte>, uniqueIdSeed: int,
    gapSize: int, appInfo: Option<seq<byte>>, sortInfo: Option<seq<byte>>, items: seq<Item>)

  /** dmHdrAttrResDB, the lowest attribute bit. */
  predicate IsResourceDb(attributes: int) {
    attributes % 2 == 1
  }

  function EntrySize(resource: bool): (n: nat)
    ensures n == 8 || n == 10
  {
    if resource then RESOURCE_ENTRY_SIZE else RECORD_ENTRY_SIZE
  }

  /** The length of n entries. */
  function TableSize(resource: bool, n: nat): nat {
    if resource then RESOURCE_ENTRY_SIZE * n else RECORD_ENTRY_SIZE * n
  }

  // ---- the header -------------------------------------------------------------------------------

  datatype Header = Header(
    name: seq<byte>, attributes: int, version: int,
    creationDate: int, modificationDate: int, lastBackupDate: int, modificationNumber: int,
    appInfoId: int, sortInfoId: int, kind: seq<byte>, creator: seq<byte>, uniqueIdSeed: int)
  {
    predicate InRange() {
      && |name| == NAME_LENGTH && |kind| == 4 && |creator| == 4
      && Is16(attributes) && Is16(version)
      && Is32(creationDate) && Is32(modificationDate) && Is32(lastBackupDate) && Is32(modificationNumber)
      && Is32(appInfoId) && Is32(sortInfoId) && Is32(uniqueIdSeed)
    }
  }

  function HeaderBytes(h: Header): (r: seq<byte>)
    requires h.InRange()
    ensures |r| == HEADER_SIZE
  {
    h.name + Put16(h.attributes) + Put16(h.version)
    + Put32(h.creationDate) + Put32(h.modificationDate) + Put32(h.lastBackupDate) + Put32(h.modificationNumber)
    + Put32(h.appInfoId) + Put32(h.sortInfoId)
    + h.kind + h.creator + Put32(h.uniqueIdSeed)
  }

  function ReadHeader(data: seq<byte>): (h: Header)
    requires |data| >= HEADER_SIZE
    ensures h.InRange()
  {
    Header(data[..32], Get16(data, 32), Get16(data, 34),
           Get32(data, 36), Get32(data, 40), Get32(data, 44), Get32(data, 48),
           Get32(data, 52), Get32(data, 56), data[60..64], data[64..68], Get32(data, 68))
  }

  /** A header reads back as it was written. */
  lemma HeaderRoundTrip(h: Header, rest: seq<byte>)
    requires h.InRange()
    ensures ReadHeader(HeaderBytes(h) + rest) == h
  {
    hide Put16, Put32, Get16, Get32;
    var data := HeaderBytes(h) + rest;
    assert data[..32] == h.name;
    assert data[32..34] == Put16(h.attributes);
    assert data[34..36] == Put16(h.version);
    assert data[36..40] == Put32(h.creationDate);
    assert data[40..44] == Put32(h.modificationDate);
    assert data[44..48] == Put32(h.lastBackupDate);
    assert data[48..52] == Put32(h.modificationNumber);
    assert data[52..56] == Put32(h.appInfoId);
    assert data[56..60] == Put32(h.sortInfoId);
    assert data[60..64] == h.kind;
    assert data[64..68] == h.creator;
    assert data[68..72] == Put32(h.uniqueIdSeed);
    Read16(data, 32, h.attributes);
    Read16(data, 34, h.version);
    Read32(data, 36, h.creationDate);
    Read32(data, 40, h.modificationDate);
    Read32(data, 44, h.lastBackupDate);
    Read32(data, 48, h.modificationNumber);
    Read32(data, 52, h.appInfoId);
    Read32(data, 56, h.sortInfoId);
    Read32(data, 68, h.uniqueIdSeed);
  }

  // ---- names ------------------------------------------------------------------------------------

  predicate IsAscii(name: string) {
    forall i :: 0 <= i < |name| ==> name[i] < 128 as char
  }

  function EncodeAscii(name: string): (r: seq<byte>)
    requires IsAscii(name)
    ensures |r| == |name| && forall i :: 0 <= i < |name| ==> r[i] == name[i] as int
  {
    seq(|name|, i requires 0 <= i < |name| => name[i] as int)
  }

  /** The bytes before the first zero. */
  function Terminated(field: seq<byte>): (r: seq<byte>)
    ensures |r| <= |field| && r == field[..|r|] && 0 !in r && (|r| < |field| ==> field[|r|] == 0)
  {
    if field == [] || field[0] == 0 then [] else [field[0]] + Terminated(field[1..])
  }

  predicate AsciiBytes(b: seq<byte>) {
    forall i :: 0 <= i < |b| ==> b[i] < 128
  }

  function DecodeAscii(b: seq<byte>): (r: string)
    requires AsciiBytes(b)
    ensures |r| == |b| && IsAscii(r) && forall i :: 0 <= i < |b| ==> r[i] == b[i] as char
  {
    seq(|b|, i requires 0 <= i < |b| => b[i] as char)
  }

  /** Only the part of the name that is stored has to be ASCII. */
  predicate Encodable(name: string) {
    IsAscii(Cut(name, NAME_LENGTH - 1))
  }

  /** The name as it is stored: at most 31 characters, a zero, zeros up to 32 bytes. */
  function NameField(name: string): (r: seq<byte>)
    requires Encodable(name)
    ensures |r| == NAME_LENGTH
  {
    var cut := Cut(name, NAME_LENGTH - 1);
    EncodeAscii(cut) + Zeros(NAME_LENGTH - |cut|)
  }

  function Cut<T>(s: seq<T>, n: nat): (r: seq<T>)
    ensures |r| <= n && r <= s
  {
    if |s| <= n then s else s[..n]
  }

  /** The name that comes back: cut to 31 characters and at the first zero. */
  function StoredName(name: string): (r: string)
    ensures |r| < NAME_LENGTH && r <= name
  {
    UntilZero(Cut(name, NAME_LENGTH - 1))
  }

  function UntilZero(s: string): (r: string)
    ensures r <= s && 0 as char !in r && (|r| < |s| ==> s[|r|] == 0 as char)
  {
    if s == [] || s[0] == 0 as char then [] else [s[0]] + UntilZero(s[1..])
  }

  lemma {:induction false} PaddedName(cut: string, padding: nat)
    requires IsAscii(cut) && padding > 0
    ensures var b := Terminated(EncodeAscii(cut) + Zeros(padding));
      AsciiBytes(b) && DecodeAscii(b) == UntilZero(cut)
  {
    hide EncodeAscii, Zeros, DecodeAscii, AsciiBytes;
    var field := EncodeAscii(cut) + Zeros(padding);
    if cut != [] && cut[0] != 0 as char {
      PaddedName(cut[1..], padding);
      assert field[1..] == EncodeAscii(cut[1..]) + Zeros(padding);
      assert field[0] == cut[0] as int != 0;
      DecodeCons(cut[0] as int, Terminated(field[1..]));
    } else {
      assert field[0] == 0;
      NothingDecoded();
    }
  }

  lemma DecodeCons(b: byte, rest: seq<byte>)
    requires AsciiBytes(rest) && b < 128
    ensures AsciiBytes([b] + rest) && DecodeAscii([b] + rest) == [b as char] + DecodeAscii(rest)
  {
  }

  lemma NothingDecoded()
    ensures AsciiBytes([]) && DecodeAscii([]) == []
  {
  }

  lemma NameRoundTrip(name: string)
    requires Encodable(name)
    ensures var b := Terminated(NameField(name)); AsciiBytes(b) && DecodeAscii(b) == StoredName(name)
  {
    var cut := Cut(name, NAME_LENGTH - 1);
    PaddedName(cut, NAME_LENGTH - |cut|);
  }

  // ---- entries and items ------------------------------------------------------------------------

  predicate EntryInRange(item: Item, resource: bool) {
    match item
    case Resource(kind, id, _) => resource && |kind| == 4 && Is16(id)
    case Record(attributes, id, _) => !resource && 0 <= attributes < 0x100 && 0 <= id < 0x100_0000
  }

  predicate ItemsInRange(items: seq<Item>, resource: bool) {
    forall i :: 0 <= i < |items| ==> EntryInRange(items[i], resource)
  }

  function EntryBytes(item: Item, resource: bool, local: int): (r: seq<byte>)
    requires EntryInRange(item, resource) && Is32(local)
    ensures |r| == EntrySize(resource)
  {
    match item
    case Resource(kind, id, _) => kind + Put16(id) + Put32(local)
    case Record(attributes, id, _) => Put32(local) + [attributes] + Put24(id)
  }

  function LocalAt(data: seq<byte>, resource: bool, at: nat): (n: int)
    requires at + EntrySize(resource) <= |data|
    ensures Is32(n)
  {
    Get32(data, if resource then at + 6 else at)
  }

  /** data[a:b] in Python. */
  function Slice(data: seq<byte>, a: nat, b: nat): (r: seq<byte>) {
    var e := if b <= |data| then b else |data|;
    if a <= e then data[a..e] else []
  }

  function ReadItem(data: seq<byte>, resource: bool, at: nat, end: nat): (item: Item)
    requires at + EntrySize(resource) <= |data|
    ensures EntryInRange(item, resource)
  {
    var content := Slice(data, LocalAt(data, resource, at), end);
    if resource then Resource(data[at..at + 4], Get16(data, at + 4), content)
    else Record(data[at + 4], Get24(data, at + 5), content)
  }

  /** Where the block of the entry at a place ends: where the next one starts, or at the end. */
  function EndAt(data: seq<byte>, resource: bool, at: nat, left: nat): (n: nat)
    requires left > 0 && at + TableSize(resource, left) <= |data|
  {
    if left == 1 then |data| else LocalAt(data, resource, at + EntrySize(resource))
  }

  function ReadItems(data: seq<byte>, resource: bool, at: nat, left: nat): (items: seq<Item>)
    requires at + TableSize(resource, left) <= |data|
    ensures |items| == left
    decreases left
  {
    if left == 0 then []
    else [ReadItem(data, resource, at, EndAt(data, resource, at, left))]
         + ReadItems(data, resource, at + EntrySize(resource), left - 1)
  }

  /** What the parser objects to in the entries. */
  function CheckItems(data: seq<byte>, resource: bool, at: nat, left: nat, watermark: int): (e: Option<ParseError>)
    ensures e == None && left > 0 ==> at + TableSize(resource, left) <= |data|
    decreases left
  {
    var size := EntrySize(resource);
    if left == 0 then None
    else if at + size > |data| || (left > 1 && at + 2 * size > |data|) then Some(Short)
    else
      var end := if left == 1 then |data| else LocalAt(data, resource, at + size);
      if end > |data| || LocalAt(data, resource, at) < watermark then Some(BadEntry)
      else CheckItems(data, resource, at + size, left - 1, end)
  }

  /** Every block starts where 32 bits can say it, if the first one starts at an offset. */
  predicate StartsFit(items: seq<Item>, offset: int) {
    items == [] || (Is32(offset) && StartsFit(items[1..], offset + |items[0].data|))
  }

  lemma {:induction false} SmallFits(items: seq<Item>, offset: nat)
    requires offset + |Contents(items)| < MAX32
    ensures StartsFit(items, offset)
  {
    if items != [] { SmallFits(items[1..], offset + |items[0].data|); }
  }

  function EntryTable(items: seq<Item>, resource: bool, offset: int): (r: seq<byte>)
    requires ItemsInRange(items, resource) && StartsFit(items, offset)
    ensures |r| == TableSize(resource, |items|)
  {
    if items == [] then []
    else
      var rest := EntryTable(items[1..], resource, offset + |items[0].data|);
      assert |rest| == TableSize(resource, |items| - 1);
      EntryBytes(items[0], resource, offset) + rest
  }

  /** The blocks of all items, one after the other. */
  function Contents(items: seq<Item>): seq<byte> {
    if items == [] then [] else items[0].data + Contents(items[1..])
  }

  lemma EntryFields(item: Item, resource: bool, local: int)
    requires EntryInRange(item, resource) && Is32(local)
    ensures var e := EntryBytes(item, resource, local);
      if resource then e[..4] == item.kind && e[4..6] == Put16(item.id) && e[6..10] == Put32(local)
      else e[..4] == Put32(local) && e[4] == item.attributes && e[5..8] == Put24(item.id)
  {
    hide Put16, Put24, Put32;
  }

  lemma EntryRoundTrip(data: seq<byte>, at: nat, item: Item, resource: bool, local: int, end: nat)
    requires EntryInRange(item, resource) && Is32(local) && at + EntrySize(resource) <= |data|
    requires data[at..at + EntrySize(resource)] == EntryBytes(item, resource, local)
    requires local + |item.data| == end <= |data| && data[local..end] == item.data
    ensures LocalAt(data, resource, at) == local && ReadItem(data, resource, at, end) == item
  {
    hide Put16, Put24, Put32, Get16, Get24, Get32, EntryBytes;
    EntryFields(item, resource, local);
    var e := data[at..at + EntrySize(resource)];
    if resource {
      SliceOfSlice(data, at, 10, 0, 4);
      SliceOfSlice(data, at, 10, 4, 6);
      SliceOfSlice(data, at, 10, 6, 10);
      assert e[0..4] == e[..4];
      Read16(data, at + 4, item.id);
      Read32(data, at + 6, local);
    } else {
      SliceOfSlice(data, at, 8, 0, 4);
      SliceOfSlice(data, at, 8, 5, 8);
      assert e[0..4] == e[..4] && data[at + 4] == e[4];
      Read32(data, at, local);
      Read24(data, at + 5, item.id);
    }
  }

  // ---- reading ----------------------------------------------------------------------------------

  function RecordCount(data: seq<byte>): (n: nat)
    requires |data| >= TABLE_START
    ensures n < MAX16
  {
    Get16(data, 76)
  }

  predicate OfResources(data: seq<byte>)
    requires |data| >= TABLE_START
  {
    IsResourceDb(ReadHeader(data).attributes)
  }

  function TableEnd(data: seq<byte>): (n: nat)
    requires |data| >= TABLE_START
    ensures n == TABLE_START + TableSize(OfResources(data), RecordCount(data))
  {
    TABLE_START + TableSize(OfResources(data), RecordCount(data))
  }

  /** Where the first record block starts, or the end of the data if there is none. */
  function FirstBlock(data: seq<byte>): (n: nat)
    requires |data| >= TABLE_START && TableEnd(data) <= |data|
  {
    if RecordCount(data) == 0 then |data| else LocalAt(data, OfResources(data), TABLE_START)
  }

  lemma {:induction false} ReadItemsAt(data: seq<byte>, resource: bool, at: nat, left: nat, i: nat)
    requires at + TableSize(resource, left) <= |data| && i < left
    ensures var p := at + TableSize(resource, i);
      && p + TableSize(resource, left - i) <= |data|
      && ReadItems(data, resource, at, left)[i] == ReadItem(data, resource, p, EndAt(data, resource, p, left - i))
    decreases i
  {
    hide ReadItem, LocalAt;
    if i > 0 {
      ReadItemsAt(data, resource, at + EntrySize(resource), left - 1, i - 1);
    }
  }

  /** The first 78 bytes decide the header, the record list and the size of the table. */
  lemma SameHead(a: seq<byte>, b: seq<byte>)
    requires |a| >= TABLE_START && |b| >= TABLE_START && a[..TABLE_START] == b[..TABLE_START]
    ensures ReadHeader(a) == ReadHeader(b) && Get32(a, 72) == Get32(b, 72)
    ensures RecordCount(a) == RecordCount(b) && OfResources(a) == OfResources(b) && TableEnd(a) == TableEnd(b)
  {
    var t := a[..TABLE_START];
    assert forall i :: 0 <= i < TABLE_START ==> t[i] == a[i] && t[i] == b[i];
    assert a[..32] == t[..32] == b[..32];
    assert a[60..64] == t[60..64] == b[60..64];
    assert a[64..68] == t[64..68] == b[64..68];
  }

  /** The blocks before the records are read from the back. */
  function Before(id: int, first: int): int {
    if id > 0 then id else first
  }

  function InfoBlock(data: seq<byte>, id: nat, end: nat): Option<seq<byte>> {
    if id > 0 then Some(Slice(data, id, end)) else None
  }

  /** What the fields of an image say, taken at face value. */
  function ReadDb(data: seq<byte>): (db: Database)
    requires |data| >= TABLE_START && TableEnd(data) <= |data|
    requires AsciiBytes(Terminated(ReadHeader(data).name))
  {
    var h := ReadHeader(data);
    var first := FirstBlock(data);
    var second := Before(h.sortInfoId, first);
    Database(DecodeAscii(Terminated(h.name)), h.attributes, h.version,
             h.creationDate, h.modificationDate, h.lastBackupDate, h.modificationNumber,
             h.kind, h.creator, h.uniqueIdSeed,
             Before(h.appInfoId, second) - TableEnd(data),
             InfoBlock(data, h.appInfoId, second), InfoBlock(data, h.sortInfoId, first),
             ReadItems(data, OfResources(data), TABLE_START, RecordCount(data)))
  }

  /** What parseDb objects to, in the order in which it looks. */
  function Objection(data: seq<byte>): (e: Option<ParseError>)
    ensures e == None ==>
      |data| >= TABLE_START && TableEnd(data) <= |data| && AsciiBytes(Terminated(ReadHeader(data).name))
  {
    if |data| < HEADER_SIZE then Some(Short)
    else
      var h := ReadHeader(data);
      if !AsciiBytes(Terminated(h.name)) then Some(NotAscii)
      else if |data| < TABLE_START then Some(Short)
      else if Get32(data, 72) != 0 then Some(Multisegment)
      else
        if h.appInfoId > 0 && h.appInfoId < TableEnd(data) then Some(BadAppInfo)
        else if h.sortInfoId > 0 && h.sortInfoId < Before(h.appInfoId, TableEnd(data)) then Some(BadSortInfo)
        else CheckItems(data, OfResources(data), TABLE_START, RecordCount(data), Watermark(data))
  }

  /** The first record must not start before the last info block, or before the end of the table. */
  function Watermark(data: seq<byte>): nat
    requires |data| >= TABLE_START
  {
    var h := ReadHeader(data);
    Before(h.sortInfoId, Before(h.appInfoId, TableEnd(data)))
  }

  /** The info blocks stand behind the table, in order. */
  predicate InfoOrdered(data: seq<byte>)
    requires |data| >= TABLE_START
  {
    var h := ReadHeader(data);
    && (h.appInfoId > 0 ==> h.appInfoId >= TableEnd(data))
    && (h.sortInfoId > 0 ==> h.sortInfoId >= Before(h.appInfoId, TableEnd(data)))
  }

  function Parsed(data: seq<byte>): Result<Database> {
    match Objection(data)
    case Some(e) => Err(e)
    case None => Ok(ReadDb(data))
  }

  /** The entries pass exactly if the first block does not start too early and no later one starts
      behind the end. The order of the blocks is not checked: after the first entry the parser
      compares every offset with itself. */
  lemma {:induction false} CheckItemsExact(data: seq<byte>, resource: bool, at: nat, left: nat, watermark: int)
    requires left > 0
    ensures CheckItems(data, resource, at, left, watermark) == None
      <==> && at + TableSize(resource, left) <= |data|
           && LocalAt(data, resource, at) >= watermark
           && forall i :: 1 <= i < left ==> LocalAt(data, resource, at + TableSize(resource, i)) <= |data|
    decreases left
  {
    hide LocalAt;
    var size := EntrySize(resource);
    if left > 1 && at + 2 * size <= |data| {
      var end := LocalAt(data, resource, at + size);
      CheckItemsExact(data, resource, at + size, left - 1, end);
      forall i | 1 <= i < left - 1 && at + TableSize(resource, left) <= |data|
        ensures at + size + TableSize(resource, i) == at + TableSize(resource, i + 1)
      {
      }
      if at + TableSize(resource, left) <= |data| {
        ShiftedEntries(data, resource, at, left);
      }
    }
  }

  lemma ShiftedEntries(data: seq<byte>, resource: bool, at: nat, left: nat)
    requires left > 1 && at + TableSize(resource, left) <= |data|
    ensures (forall i :: 1 <= i < left ==> LocalAt(data, resource, at + TableSize(resource, i)) <= |data|)
      <==> && LocalAt(data, resource, at + EntrySize(resource)) <= |data|
           && forall i :: 1 <= i < left - 1 ==>
                LocalAt(data, resource, at + EntrySize(resource) + TableSize(resource, i)) <= |data|
  {
    hide LocalAt;
    var size := EntrySize(resource);
    if && LocalAt(data, resource, at + size) <= |data|
       && forall i :: 1 <= i < left - 1 ==> LocalAt(data, resource, at + size + TableSize(resource, i)) <= |data| {
      forall i | 1 <= i < left
        ensures LocalAt(data, resource, at + TableSize(resource, i)) <= |data|
      {
        if i > 1 { assert at + size + TableSize(resource, i - 1) == at + TableSize(resource, i); }
      }
    }
    if forall i :: 1 <= i < left ==> LocalAt(data, resource, at + TableSize(resource, i)) <= |data| {
      assert at + TableSize(resource, 1) == at + size;
      forall i | 1 <= i < left - 1
        ensures LocalAt(data, resource, at + size + TableSize(resource, i)) <= |data|
      {
        assert at + size + TableSize(resource, i) == at + TableSize(resource, i + 1);
      }
    }
  }

  /** The record loop: items have been read, the entries from offset on are still to come. */
  ghost predicate Reading(data: seq<byte>, resource: bool, n: nat, start: int,
                          items: seq<Item>, offset: nat, left: nat, watermark: int)
    requires |data| >= TABLE_START
  {
    var e := CheckItems(data, resource, TABLE_START, n, start);
    && e == CheckItems(data, resource, offset, left, watermark)
    && (e == None ==>
          && TABLE_START + TableSize(resource, n) <= |data| && offset + TableSize(resource, left) <= |data|
          && ReadItems(data, resource, TABLE_START, n) == items + ReadItems(data, resource, offset, left))
  }

  lemma ReadingStep(data: seq<byte>, resource: bool, n: nat, start: int,
                    items: seq<Item>, offset: nat, left: nat, watermark: int)
    requires |data| >= TABLE_START && left > 0 && Reading(data, resource, n, start, items, offset, left, watermark)
    ensures var size := EntrySize(resource);
      if offset + size > |data| || (left > 1 && offset + 2 * size > |data|) then
        CheckItems(data, resource, TABLE_START, n, start) == Some(Short)
      else
        var end := if left == 1 then |data| else LocalAt(data, resource, offset + size);
        if end > |data| || LocalAt(data, resource, offset) < watermark then
          CheckItems(data, resource, TABLE_START, n, start) == Some(BadEntry)
        else
          Reading(data, resource, n, start, items + [ReadItem(data, resource, offset, end)], offset + size,
                  left - 1, end)
  {
    hide LocalAt, ReadItem, CheckItems, ReadItems;
    var size := EntrySize(resource);
    CheckStep(data, resource, offset, left, watermark);
    if CheckItems(data, resource, TABLE_START, n, start) == None {
      ReadStep(data, resource, offset, left);
      var x := ReadItem(data, resource, offset, EndAt(data, resource, offset, left));
      assert items + ([x] + ReadItems(data, resource, offset + size, left - 1))
          == items + [x] + ReadItems(data, resource, offset + size, left - 1);
    }
  }

  lemma CheckStep(data: seq<byte>, resource: bool, at: nat, left: nat, watermark: int)
    requires left > 0
    ensures var size := EntrySize(resource);
      CheckItems(data, resource, at, left, watermark)
      == if at + size > |data| || (left > 1 && at + 2 * size > |data|) then Some(Short)
         else
           var end := if left == 1 then |data| else LocalAt(data, resource, at + size);
           if end > |data| || LocalAt(data, resource, at) < watermark then Some(BadEntry)
           else CheckItems(data, resource, at + size, left - 1, end)
  {
    hide LocalAt;
  }

  lemma ReadStep(data: seq<byte>, resource: bool, at: nat, left: nat)
    requires left > 0 && at + TableSize(resource, left) <= |data|
    ensures ReadItems(data, resource, at, left)
         == [ReadItem(data, resource, at, EndAt(data, resource, at, left))]
            + ReadItems(data, resource, at + EntrySize(resource), left - 1)
  {
    hide ReadItem, EndAt;
  }

  /** The record loop of parseDb. */
  method AppendRecords(data: seq<byte>, resource: bool, numRecords: nat, start: int)
    returns (r: Result<(seq<Item>, nat, nat)>)
    requires |data| >= TABLE_START
    ensures match CheckItems(data, resource, TABLE_START, numRecords, start)
      case Some(e) => r == Err(e)
      case None => r == Ok((ReadItems(data, resource, TABLE_START, numRecords),
                            TABLE_START + TableSize(resource, numRecords),
                            if numRecords == 0 then |data| else LocalAt(data, resource, TABLE_START)))
  {
    hide LocalAt, ReadItem, ReadItems, CheckItems, Reading;
    var size := EntrySize(resource);
    var firstBlockStart := |data|;
    var offset, watermark := TABLE_START, start;
    var items: seq<Item> := [];
    ReadingStart(data, resource, numRecords, start);
    for i := 0 to numRecords
      invariant offset == TABLE_START + TableSize(resource, i)
      invariant Reading(data, resource, numRecords, start, items, offset, numRecords - i, watermark)
      invariant if i == 0 then firstBlockStart == |data|
                else TABLE_START + size <= |data| && firstBlockStart == LocalAt(data, resource, TABLE_START)
    {
      ReadingStep(data, resource, numRecords, start, items, offset, numRecords - i, watermark);
      if offset + size > |data| { return Err(Short); }
      var at := offset;
      var localChunkId := LocalAt(data, resource, at);
      offset := offset + size;
      if i == 0 { firstBlockStart := localChunkId; }
      var recordEnd := |data|;
      if i < numRecords - 1 {
        if offset + size > |data| { return Err(Short); }
        recordEnd := LocalAt(data, resource, offset);
      }
      if recordEnd > |data| || localChunkId < watermark { return Err(BadEntry); }
      watermark := recordEnd;
      items := items + [ReadItem(data, resource, at, recordEnd)];
    }
    ReadingEnd(data, resource, numRecords, start, items, offset, watermark);
    return Ok((items, offset, firstBlockStart));
  }

  lemma ReadingStart(data: seq<byte>, resource: bool, n: nat, start: int)
    requires |data| >= TABLE_START
    ensures Reading(data, resource, n, start, [], TABLE_START, n, start)
  {
    hide CheckItems, ReadItems;
    CheckCovers(data, resource, TABLE_START, n, start);
    if CheckItems(data, resource, TABLE_START, n, start) == None {
      assert [] + ReadItems(data, resource, TABLE_START, n) == ReadItems(data, resource, TABLE_START, n);
    }
  }

  lemma CheckCovers(data: seq<byte>, resource: bool, at: nat, left: nat, watermark: int)
    requires at <= |data|
    ensures CheckItems(data, resource, at, left, watermark) == None ==> at + TableSize(resource, left) <= |data|
  {
  }

  lemma ReadingEnd(data: seq<byte>, resource: bool, n: nat, start: int, items: seq<Item>, offset: nat, watermark: int)
    requires |data| >= TABLE_START && Reading(data, resource, n, start, items, offset, 0, watermark)
    ensures CheckItems(data, resource, TABLE_START, n, start) == None
    ensures TABLE_START + TableSize(resource, n) <= |data| && ReadItems(data, resource, TABLE_START, n) == items
  {
  }

  method ParseDb(data: seq<byte>) returns (r: Result<Database>)
    ensures r == Parsed(data)
  {
    hide Slice, LocalAt, CheckItems, ReadItems, Terminated, DecodeAscii, ReadHeader, Get32, Get16, AsciiBytes;
    if |data| < HEADER_SIZE { return Err(Short); }
    var header := ReadHeader(data);
    if !AsciiBytes(Terminated(header.name)) { return Err(NotAscii); }
    if |data| < TABLE_START { return Err(Short); }
    if Get32(data, 72) != 0 { return Err(Multisegment); }
    var numRecords := Get16(data, 76);
    var resource := IsResourceDb(header.attributes);
    var watermark := TABLE_START + TableSize(resource, numRecords);
    if header.appInfoId > 0 {
      if header.appInfoId < watermark { return Err(BadAppInfo); }
      watermark := header.appInfoId;
    }
    if header.sortInfoId > 0 {
      if header.sortInfoId < watermark { return Err(BadSortInfo); }
      watermark := header.sortInfoId;
    }
    var read := AppendRecords(data, resource, numRecords, watermark);
    if read.Err? { return Err(read.error); }
    var (items, offset, firstBlockStart) := read.value;
    var appInfo, sortInfo: Option<seq<byte>> := None, None;
    if header.sortInfoId > 0 {
      sortInfo := Some(Slice(data, header.sortInfoId, firstBlockStart));
      firstBlockStart := header.sortInfoId;
    }
    if header.appInfoId > 0 {
      appInfo := Some(Slice(data, header.appInfoId, firstBlockStart));
      firstBlockStart := header.appInfoId;
    }
    return Ok(Database(DecodeAscii(Terminated(header.name)), header.attributes, header.version,
                       header.creationDate, header.modificationDate, header.lastBackupDate,
                       header.modificationNumber, header.kind, header.creator, header.uniqueIdSeed,
                       firstBlockStart - offset, appInfo, sortInfo, items));
  }

  // ---- writing ----------------------------------------------------------------------------------

  function OptionBytes(b: Option<seq<byte>>): seq<byte> {
    match b case None => [] case Some(v) => v
  }

  /** Where things go in a file with n entries. */
  datatype Layout = Layout(appInfoId: int, sortInfoId: int, first: int)

  function LayoutOf(resource: bool, n: nat, gap: int, app: Option<seq<byte>>, sort: Option<seq<byte>>): (r: Layout)
    ensures gap >= 0 ==> r.appInfoId >= 0 && r.sortInfoId >= 0 && r.first >= TABLE_START + TableSize(resource, n)
  {
    var start := TABLE_START + TableSize(resource, n) + gap;
    var next := start + |OptionBytes(app)|;
    Layout(if app.Some? then start else 0, if sort.Some? then next else 0, next + |OptionBytes(sort)|)
  }

  /** The parts of an image fit into its fields. */
  predicate Fits(h: Header, gap: nat, app: Option<seq<byte>>, sort: Option<seq<byte>>, items: seq<Item>) {
    var resource := IsResourceDb(h.attributes);
    var layout := LayoutOf(resource, |items|, gap, app, sort);
    && h.InRange() && ItemsInRange(items, resource) && |items| < MAX16
    && h.appInfoId == layout.appInfoId && h.sortInfoId == layout.sortInfoId
    && StartsFit(items, layout.first)
  }

  /** A whole file: header, record list, entries, gap, info blocks, records. */
  function Image(h: Header, gap: nat, app: Option<seq<byte>>, sort: Option<seq<byte>>, items: seq<Item>): (r: seq<byte>)
    requires Fits(h, gap, app, sort, items)
    ensures |r| == LayoutOf(IsResourceDb(h.attributes), |items|, gap, app, sort).first + |Contents(items)|
  {
    var resource := IsResourceDb(h.attributes);
    HeaderBytes(h) + (Put32(0) + Put16(|items|))
    + EntryTable(items, resource, LayoutOf(resource, |items|, gap, app, sort).first)
    + Zeros(gap) + OptionBytes(app) + OptionBytes(sort) + Contents(items)
  }

  /** The first entry and what follows it. */
  lemma TableCut(data: seq<byte>, resource: bool, items: seq<Item>, at: nat, offset: nat)
    requires items != [] && ItemsInRange(items, resource) && StartsFit(items, offset)
    requires at + TableSize(resource, |items|) <= |data|
    requires data[at..at + TableSize(resource, |items|)] == EntryTable(items, resource, offset)
    ensures var size, x, rest := EntrySize(resource), items[0], items[1..];
      var end := offset + |x.data|;
      && EntryInRange(x, resource) && ItemsInRange(rest, resource) && StartsFit(rest, end)
      && data[at..at + size] == EntryBytes(x, resource, offset)
      && data[at + size..at + size + TableSize(resource, |rest|)] == EntryTable(rest, resource, end)
  {
    hide EntryBytes, EntryInRange;
    var x, rest := items[0], items[1..];
    InRangeTail(items, resource);
    Halves(data, at, EntryBytes(x, resource, offset), EntryTable(rest, resource, offset + |x.data|));
  }

  /** The first block and what follows it. */
  lemma BlocksCut(data: seq<byte>, items: seq<Item>, offset: nat)
    requires items != [] && offset <= |data| && data[offset..] == Contents(items)
    ensures var x, rest := items[0], items[1..];
      var end := offset + |x.data|;
      && end <= |data| && data[offset..end] == x.data && data[end..] == Contents(rest)
  {
    hide Contents;
    var x, rest := items[0], items[1..];
    ContentsSplit(items);
    assert data[offset..][..|x.data|] == x.data && data[offset..][|x.data|..] == Contents(rest);
  }

  lemma ContentsSplit(items: seq<Item>)
    requires items != []
    ensures Contents(items) == items[0].data + Contents(items[1..])
  {
  }

  /** The entry table reads back as the items, if their blocks stand where the entries say. */
  lemma {:induction false} ItemsRoundTrip(data: seq<byte>, resource: bool, items: seq<Item>, at: nat, offset: nat,
                                          watermark: int)
    requires ItemsInRange(items, resource) && offset + |Contents(items)| == |data| && StartsFit(items, offset)
    requires at + TableSize(resource, |items|) <= offset && watermark <= offset
    requires data[at..at + TableSize(resource, |items|)] == EntryTable(items, resource, offset)
    requires data[offset..] == Contents(items)
    ensures CheckItems(data, resource, at, |items|, watermark) == None
    ensures ReadItems(data, resource, at, |items|) == items
    ensures items != [] ==> LocalAt(data, resource, at) == offset
    decreases |items|
  {
    hide EntryBytes, LocalAt, ReadItem, EntryInRange;
    if items != [] {
      var size, x, rest := EntrySize(resource), items[0], items[1..];
      var end := offset + |x.data|;
      TableCut(data, resource, items, at, offset);
      BlocksCut(data, items, offset);
      EntryRoundTrip(data, at, x, resource, offset, end);
      ItemsRoundTrip(data, resource, rest, at + size, end, end);
      assert rest == [] ==> |items| == 1 && Contents(rest) == [];
    } else {
      assert Contents(items) == [];
    }
  }

  lemma HeadPieces(s: seq<byte>, h: seq<byte>, m: seq<byte>, n: seq<byte>, b: seq<byte>, c: seq<byte>, d: seq<byte>,
                   e: seq<byte>, f: seq<byte>)
    requires s == h + (m + n) + b + c + d + e + f
    ensures |h| + |m| + |n| <= |s| && s == h + s[|h|..]
    ensures s[|h|..|h| + |m|] == m && s[|h| + |m|..|h| + |m| + |n|] == n
  {
    var tail := b + c + d + e + f;
    HeadAndTail(h, m + n, b, c, d, e, f);
    assert s == h + (m + n + tail);
    assert s[|h|..] == m + n + tail;
    assert s[|h|..|h| + |m| + |n|] == m + n;
    Halves(s, |h|, m, n);
  }

  lemma HeadAndTail(h: seq<byte>, a: seq<byte>, b: seq<byte>, c: seq<byte>, d: seq<byte>, e: seq<byte>, f: seq<byte>)
    ensures h + a + b + c + d + e + f == h + (a + (b + c + d + e + f))
  {
    assert b + c + d + e + f == b + (c + d + e + f);
    assert c + d + e + f == c + (d + e + f);
    assert h + a + b + c + d + e + f == h + a + b + (c + d + e + f);
  }

  lemma ImageHead(h: Header, gap: nat, app: Option<seq<byte>>, sort: Option<seq<byte>>, items: seq<Item>)
    requires Fits(h, gap, app, sort, items)
    ensures var img := Image(h, gap, app, sort, items);
      && |img| >= TABLE_START && ReadHeader(img) == h && Get32(img, 72) == 0 && RecordCount(img) == |items|
      && OfResources(img) == IsResourceDb(h.attributes)
  {
    hide HeaderBytes, EntryTable, Contents, ReadHeader, Put32, Put16, Get16, Get32, Header.InRange, ItemsInRange;
    hide OptionBytes;
    var img, resource := Image(h, gap, app, sort, items), IsResourceDb(h.attributes);
    HeadPieces(img, HeaderBytes(h), Put32(0), Put16(|items|),
               EntryTable(items, resource, LayoutOf(resource, |items|, gap, app, sort).first),
               Zeros(gap), OptionBytes(app), OptionBytes(sort), Contents(items));
    HeaderRoundTrip(h, img[HEADER_SIZE..]);
    Read32(img, 72, 0);
    Read16(img, 76, |items|);
  }

  lemma Pieces(s: seq<byte>, a: seq<byte>, b: seq<byte>, c: seq<byte>, d: seq<byte>, e: seq<byte>, f: seq<byte>)
    requires s == a + b + c + d + e + f
    ensures var table := |a| + |b|;
      var app := table + |c|;
      var sort := app + |d|;
      var first := sort + |e|;
      && first <= |s| && s[|a|..table] == b
      && s[app..sort] == d && s[sort..first] == e && s[first..] == f
  {
    var table := |a| + |b|;
    var app := table + |c|;
    assert s == (a + b) + (c + d + e + f);
    assert s[..table] == a + b;
    assert s == (a + b + c) + (d + (e + f));
    assert s[app..] == d + (e + f);
  }

  lemma ImageBody(h: Header, gap: nat, app: Option<seq<byte>>, sort: Option<seq<byte>>, items: seq<Item>)
    requires Fits(h, gap, app, sort, items)
    ensures var img, resource := Image(h, gap, app, sort, items), IsResourceDb(h.attributes);
      var layout := LayoutOf(resource, |items|, gap, app, sort);
      var table := TABLE_START + TableSize(resource, |items|);
      && table <= layout.first <= |img|
      && img[TABLE_START..table] == EntryTable(items, resource, layout.first)
      && img[layout.first..] == Contents(items)
      && (sort.Some? ==> Slice(img, layout.sortInfoId, layout.first) == sort.value)
      && (app.Some? ==> Slice(img, layout.appInfoId, Before(layout.sortInfoId, layout.first)) == app.value)
  {
    hide HeaderBytes, EntryTable, Contents, ReadHeader, Put32, Put16, Get16, Get32, Header.InRange, ItemsInRange;
    hide StartsFit;
    var img, resource := Image(h, gap, app, sort, items), IsResourceDb(h.attributes);
    var layout := LayoutOf(resource, |items|, gap, app, sort);
    var table := TABLE_START + TableSize(resource, |items|);
    Pieces(img, HeaderBytes(h) + (Put32(0) + Put16(|items|)), EntryTable(items, resource, layout.first),
           Zeros(gap), OptionBytes(app), OptionBytes(sort), Contents(items));
  }

  /** The database an image describes, with a name as the header field gives it. */
  function DatabaseOf(h: Header, name: string, gap: nat, app: Option<seq<byte>>, sort: Option<seq<byte>>,
                      items: seq<Item>): Database {
    Database(name, h.attributes, h.version, h.creationDate, h.modificationDate, h.lastBackupDate,
             h.modificationNumber, h.kind, h.creator, h.uniqueIdSeed, gap, app, sort, items)
  }

  /** Every well laid out image is accepted and read back part by part. */
  lemma ImageRoundTrip(h: Header, gap: nat, app: Option<seq<byte>>, sort: Option<seq<byte>>, items: seq<Item>)
    requires Fits(h, gap, app, sort, items) && AsciiBytes(Terminated(h.name))
    ensures Parsed(Image(h, gap, app, sort, items))
         == Ok(DatabaseOf(h, DecodeAscii(Terminated(h.name)), gap, app, sort, items))
  {
    hide HeaderBytes, EntryTable, Contents, ReadHeader, Image, CheckItems, ReadItems, LocalAt, Slice;
    hide Header.InRange, ItemsInRange, Terminated, AsciiBytes, DecodeAscii, Get16, Get32;
    var img, resource := Image(h, gap, app, sort, items), IsResourceDb(h.attributes);
    var layout := LayoutOf(resource, |items|, gap, app, sort);
    ImageHead(h, gap, app, sort, items);
    ImageBody(h, gap, app, sort, items);
    var table := TABLE_START + TableSize(resource, |items|);
    var watermark := if sort.Some? then layout.sortInfoId else if app.Some? then layout.appInfoId else table;
    ItemsRoundTrip(img, resource, items, TABLE_START, layout.first, watermark);
    NoContents(items);
  }

  lemma NoContents(items: seq<Item>)
    ensures items == [] ==> Contents(items) == []
  {
  }

  // ---- Database.serialize ---------------------------------------------------------------------------

  /** pack("4s", b). */
  function Fit4(b: seq<byte>): (r: seq<byte>)
    ensures |r| == 4 && (|b| == 4 ==> r == b)
  {
    var cut := Cut(b, 4);
    cut + Zeros(4 - |cut|)
  }

  /** An item as its entry stores it: a four byte type, or the low 24 bits of the id. */
  function StoredItem(item: Item): Item {
    match item
    case Resource(kind, id, data) => Resource(Fit4(kind), id, data)
    case Record(attributes, id, data) => Record(attributes, id % 0x100_0000, data)
  }

  function StoredItems(items: seq<Item>): (r: seq<Item>)
    ensures |r| == |items| && forall i :: 0 <= i < |items| ==> r[i] == StoredItem(items[i])
    ensures Contents(r) == Contents(items)
  {
    if items == [] then []
    else
      var rest := StoredItems(items[1..]);
      assert ([StoredItem(items[0])] + rest)[1..] == rest;
      [StoredItem(items[0])] + rest
  }

  function FileLayout(db: Database): Layout {
    LayoutOf(IsResourceDb(db.attributes), |db.items|, db.gapSize, db.appInfo, db.sortInfo)
  }

  function HeaderOf(db: Database): (h: Header)
    requires Encodable(db.name)
    ensures h.attributes == db.attributes
  {
    Header(NameField(db.name), db.attributes, db.version, db.creationDate, db.modificationDate, db.lastBackupDate,
           db.modificationNumber, FileLayout(db).appInfoId, FileLayout(db).sortInfoId, Fit4(db.kind), Fit4(db.creator),
           db.uniqueIdSeed)
  }

  /** What pack accepts of the entries, each in the layout of its own kind. */
  predicate EntriesFit(items: seq<Item>, offset: int) {
    items == []
    || (EntryInRange(items[0], items[0].Resource?) && Is32(offset) && EntriesFit(items[1..], offset + |items[0].data|))
  }

  function Entries(items: seq<Item>, offset: int): seq<byte>
    requires EntriesFit(items, offset)
  {
    if items == [] then []
    else EntryBytes(items[0], items[0].Resource?, offset) + Entries(items[1..], offset + |items[0].data|)
  }

  /** What pack accepts: a name that is ASCII as far as it is stored, and numbers that fit their fields. */
  predicate Packable(db: Database) {
    && Encodable(db.name) && HeaderOf(db).InRange() && |db.items| < MAX16
    && EntriesFit(StoredItems(db.items), FileLayout(db).first)
  }

  /** A gap below zero is written as none, although the offsets count it. */
  function GapBytes(gap: int): seq<byte> {
    if gap > 0 then Zeros(gap) else []
  }

  function Serialized(db: Database): seq<byte>
    requires Packable(db)
  {
    var items := StoredItems(db.items);
    HeaderBytes(HeaderOf(db)) + (Put32(0) + Put16(|items|)) + Entries(items, FileLayout(db).first)
    + GapBytes(db.gapSize) + OptionBytes(db.appInfo) + OptionBytes(db.sortInfo) + Contents(items)
  }

  /** The items are of the kind that the attributes say, and the gap is not negative. */
  predicate Regular(db: Database) {
    db.gapSize >= 0 && forall i :: 0 <= i < |db.items| ==> db.items[i].Resource? == IsResourceDb(db.attributes)
  }

  lemma {:induction false} RegularEntries(items: seq<Item>, resource: bool, offset: int)
    requires forall i :: 0 <= i < |items| ==> items[i].Resource? == resource
    ensures EntriesFit(items, offset) <==> ItemsInRange(items, resource) && StartsFit(items, offset)
    ensures EntriesFit(items, offset) ==> Entries(items, offset) == EntryTable(items, resource, offset)
  {
    hide EntryInRange, EntryBytes;
    if items != [] { RegularEntries(items[1..], resource, offset + |items[0].data|); }
  }

  /** For a regular database that is an image. */
  lemma SerializedIsImage(db: Database)
    requires Regular(db)
    ensures Packable(db) <==>
      Encodable(db.name) && Fits(HeaderOf(db), db.gapSize, db.appInfo, db.sortInfo, StoredItems(db.items))
    ensures Packable(db) ==>
      Serialized(db) == Image(HeaderOf(db), db.gapSize, db.appInfo, db.sortInfo, StoredItems(db.items))
  {
    hide Header.InRange, ItemsInRange, StartsFit, EntriesFit, Entries, EntryTable, HeaderBytes, Put32, Put16;
    RegularEntries(StoredItems(db.items), IsResourceDb(db.attributes), FileLayout(db).first);
    if Packable(db) {
      assert db.gapSize == 0 ==> Zeros(0) == [];
    }
  }

  /** The database that a file keeps. */
  function Stored(db: Database): Database {
    db.(name := StoredName(db.name), kind := Fit4(db.kind), creator := Fit4(db.creator), items := StoredItems(db.items))
  }

  /** The database is regular, and nothing of it is cut, padded or masked when it is written. */
  predicate Tight(db: Database) {
    && Regular(db)
    && |db.name| < NAME_LENGTH && 0 as char !in db.name && |db.kind| == 4 && |db.creator| == 4
    && forall i :: 0 <= i < |db.items| ==>
         match db.items[i]
         case Resource(kind, _, _) => |kind| == 4
         case Record(_, id, _) => 0 <= id < 0x100_0000
  }

  /** Parsing what was serialized gives the stored database, for everything regular that can be packed. */
  lemma ParseOfSerialized(db: Database)
    requires Packable(db) && Regular(db)
    ensures Parsed(Serialized(db)) == Ok(Stored(db))
  {
    hide Fits, Image, Objection, ReadDb, Packable, Serialized;
    SerializedIsImage(db);
    NameRoundTrip(db.name);
    ImageRoundTrip(HeaderOf(db), db.gapSize, db.appInfo, db.sortInfo, StoredItems(db.items));
  }

  /** A parsed database is regular, whatever the file. */
  lemma ParsedIsRegular(data: seq<byte>)
    ensures Parsed(data).Ok? ==> Regular(Parsed(data).value)
  {
    hide LocalAt, ReadHeader, Terminated, AsciiBytes, DecodeAscii, CheckItems, Get32, InfoBlock;
    if Objection(data) == None {
      var n, resource := RecordCount(data), OfResources(data);
      if n > 0 { CheckItemsExact(data, resource, TABLE_START, n, Watermark(data)); }
      forall i | 0 <= i < n
        ensures ReadItems(data, resource, TABLE_START, n)[i].Resource? == resource
      {
        ReadItemsAt(data, resource, TABLE_START, n, i);
      }
    }
  }

  lemma {:induction false} UntilZeroWhole(s: string)
    ensures UntilZero(s) == s <==> 0 as char !in s
  {
    if UntilZero(s) == s {
      assert 0 as char !in s;
    } else {
      assert |UntilZero(s)| < |s|;
    }
  }

  lemma StoredExactly(db: Database)
    requires Regular(db)
    ensures Stored(db) == db <==> Tight(db)
  {
    hide UntilZero, Fit4, StoredItems;
    UntilZeroWhole(Cut(db.name, NAME_LENGTH - 1));
    NameKept(db.name);
    FourKept(db.kind);
    FourKept(db.creator);
    if Stored(db) == db {
      forall i | 0 <= i < |db.items|
        ensures match db.items[i]
          case Resource(kind, _, _) => |kind| == 4
          case Record(_, id, _) => 0 <= id < 0x100_0000
      {
        assert db.items[i] == StoredItem(db.items[i]);
        ItemKept(db.items[i]);
      }
    }
    if Tight(db) {
      forall i | 0 <= i < |db.items|
        ensures StoredItems(db.items)[i] == db.items[i]
      {
        ItemKept(db.items[i]);
      }
      assert StoredItems(db.items) == db.items;
    }
  }

  lemma NameKept(name: string)
    ensures StoredName(name) == name <==> |name| < NAME_LENGTH && 0 as char !in name
  {
    UntilZeroWhole(name);
  }

  lemma FourKept(b: seq<byte>)
    ensures Fit4(b) == b <==> |b| == 4
  {
  }

  lemma ItemKept(item: Item)
    ensures StoredItem(item) == item <==>
      match item
      case Resource(kind, _, _) => |kind| == 4
      case Record(_, id, _) => 0 <= id < 0x100_0000
  {
  }

  /** The round trip gives back the database itself exactly if it is regular and nothing had to be cut or
      padded. */
  lemma RoundTripExact(db: Database)
    requires Packable(db)
    ensures Parsed(Serialized(db)) == Ok(db) <==> Tight(db)
  {
    hide Packable, Serialized, Parsed, Stored, Regular;
    ParsedIsRegular(Serialized(db));
    if Regular(db) {
      ParseOfSerialized(db);
      StoredExactly(db);
    }
  }

  /** After its first zero the part of the name that is stored holds only zeros. */
  predicate PlainName(name: string) {
    var cut := Cut(name, NAME_LENGTH - 1);
    forall i :: |UntilZero(cut)| <= i < |cut| ==> cut[i] == 0 as char
  }

  lemma SameNameField(name: string)
    requires Encodable(name)
    ensures Encodable(StoredName(name)) && (NameField(StoredName(name)) == NameField(name) <==> PlainName(name))
  {
    var cut, kept := Cut(name, NAME_LENGTH - 1), StoredName(name);
    var f, g := NameField(name), NameField(kept);
    assert forall i :: 0 <= i < NAME_LENGTH ==> f[i] == if i < |cut| then cut[i] as int else 0;
    assert forall i :: 0 <= i < NAME_LENGTH ==> g[i] == if i < |kept| then cut[i] as int else 0;
    if f == g {
      forall i | |kept| <= i < |cut|
        ensures cut[i] == 0 as char
      {
        assert f[i] == g[i];
      }
    }
  }

  lemma StoredTwice(db: Database)
    requires Packable(db)
    ensures Encodable(StoredName(db.name)) && StoredItems(StoredItems(db.items)) == StoredItems(db.items)
    ensures HeaderOf(Stored(db)) == HeaderOf(db).(name := NameField(StoredName(db.name)))
  {
    var once := StoredItems(db.items);
    assert forall i :: 0 <= i < |once| ==> StoredItem(once[i]) == once[i];
    assert StoredItems(once) == once;
  }

  /** Writing the parsed database again reproduces the file exactly if the name is plain. */
  lemma ReserializedExact(db: Database)
    requires Packable(db) && Regular(db)
    ensures Packable(Stored(db)) && (Serialized(Stored(db)) == Serialized(db) <==> PlainName(db.name))
  {
    hide Contents, ItemsInRange, StoredItems, NameField, EntryTable, PlainName, Fit4, StoredName, Image;
    hide Packable, Serialized, StartsFit;
    SerializedIsImage(db);
    SerializedIsImage(Stored(db));
    SameNameField(db.name);
    StoredTwice(db);
    var h, g := HeaderOf(db), HeaderOf(Stored(db));
    ImageHead(h, db.gapSize, db.appInfo, db.sortInfo, StoredItems(db.items));
    ImageHead(g, db.gapSize, db.appInfo, db.sortInfo, StoredItems(db.items));
  }

  lemma InRangeTail(items: seq<Item>, resource: bool)
    requires ItemsInRange(items, resource) && items != []
    ensures ItemsInRange(items[1..], resource)
  {
  }

  lemma EntriesStep(items: seq<Item>, i: nat, offset: int, done: seq<byte>)
    requires i < |items|
    ensures EntriesFit(items[i..], offset) <==>
      && EntryInRange(items[i], items[i].Resource?) && Is32(offset)
      && EntriesFit(items[i + 1..], offset + |items[i].data|)
    ensures EntriesFit(items[i..], offset) ==>
      done + Entries(items[i..], offset)
      == (done + EntryBytes(items[i], items[i].Resource?, offset))
         + Entries(items[i + 1..], offset + |items[i].data|)
  {
    hide EntryBytes, EntryInRange;
    assert items[i..][0] == items[i] && items[i..][1..] == items[i + 1..];
  }

  lemma ContentsStep(items: seq<Item>, i: nat, done: seq<byte>)
    requires i < |items|
    ensures done + Contents(items[i..]) == (done + items[i].data) + Contents(items[i + 1..])
  {
    assert items[i..][0] == items[i] && items[i..][1..] == items[i + 1..];
  }

  /** Database.serialize; pack refuses what does not fit its field. */
  method Serialize(db: Database) returns (r: Result<seq<byte>>)
    ensures r == if Packable(db) then Ok(Serialized(db)) else Err(OutOfRange)
  {
    hide Contents, StoredItems, NameField, Fit4, StoredName, HeaderBytes, EntryInRange, EntryBytes, Encodable;
    hide EntriesFit, Entries, Header.InRange, HeaderOf, Put16, Put32, IsResourceDb, OptionBytes, GapBytes, LayoutOf;
    var items := StoredItems(db.items);
    var offset := FileLayout(db).first;
    ghost var first := offset;
    if !Encodable(db.name) || !HeaderOf(db).InRange() || |items| >= MAX16 { return Err(OutOfRange); }
    var serialized := HeaderBytes(HeaderOf(db)) + (Put32(0) + Put16(|items|));
    ghost var head := serialized;
    assert items[0..] == items;
    for i := 0 to |items|
      invariant EntriesFit(items, first) <==> EntriesFit(items[i..], offset)
      invariant EntriesFit(items, first) ==>
        head + Entries(items, first) == serialized + Entries(items[i..], offset)
    {
      EntriesStep(items, i, offset, serialized);
      var item := items[i];
      if !EntryInRange(item, item.Resource?) || !Is32(offset) { return Err(OutOfRange); }
      serialized := serialized + EntryBytes(item, item.Resource?, offset);
      offset := offset + |item.data|;
    }
    NoRest(items, serialized);
    serialized := serialized + GapBytes(db.gapSize) + OptionBytes(db.appInfo) + OptionBytes(db.sortInfo);
    ghost var front := serialized;
    for i := 0 to |items|
      invariant front + Contents(items) == serialized + Contents(items[i..])
    {
      ContentsStep(items, i, serialized);
      serialized := serialized + items[i].data;
    }
    NoRest(items, serialized);
    return Ok(serialized);
  }

  lemma NoRest(items: seq<Item>, done: seq<byte>)
    ensures items[|items|..] == [] && done + Contents([]) == done
    ensures forall offset :: EntriesFit([], offset) && done + Entries([], offset) == done
  {
  }

  // ---- examples -----------------------------------------------------------------------------------------

  /** A record database without a name, with n records; what follows the record list is given. */
  function Unnamed(n: Word, rest: seq<byte>): seq<byte> {
    Zeros(76) + Put16(n) + rest
  }

  lemma UnnamedHead(n: Word, rest: seq<byte>)
    ensures var data := Unnamed(n, rest);
      && |data| == TABLE_START + |rest| && data[TABLE_START..] == rest
      && ReadHeader(data).appInfoId == 0 && ReadHeader(data).sortInfoId == 0
      && |ReadHeader(data).name| == NAME_LENGTH && Terminated(ReadHeader(data).name) == []
      && Get32(data, 72) == 0 && RecordCount(data) == n && !OfResources(data)
      && TableEnd(data) == TABLE_START + TableSize(false, n)
  {
    hide Put16;
    var data := Unnamed(n, rest);
    assert forall i :: 0 <= i < 76 ==> data[i] == 0;
    assert data[..32][0] == 0;
    assert data[76..78] == Put16(n);
    Read16(data, 76, n);
  }

  lemma UnnamedWord(n: Word, rest: seq<byte>, at: nat, word: Long)
    requires at + 4 <= |rest| && rest[at..at + 4] == Put32(word)
    ensures Get32(Unnamed(n, rest), TABLE_START + at) == word
  {
    hide Put32, Get32;
    UnnamedHead(n, rest);
    var data := Unnamed(n, rest);
    assert data[TABLE_START + at..TABLE_START + at + 4] == data[TABLE_START..][at..at + 4];
    Read32(data, TABLE_START + at, word);
  }

  /** A file of 96 bytes that is accepted although its second block starts before the first. */
  lemma OutOfOrderExample() returns (data: seq<byte>)
    ensures Objection(data) == None && RecordCount(data) == 2
    ensures LocalAt(data, false, TABLE_START) == 95 && LocalAt(data, false, TABLE_START + 8) == 94
  {
    hide Put32, Get32, ReadHeader;
    var rest := Put32(95) + Zeros(4) + Put32(94) + Zeros(4) + [1, 2];
    data := Unnamed(2, rest);
    UnnamedHead(2, rest);
    assert rest[0..4] == Put32(95) && rest[8..12] == Put32(94);
    UnnamedWord(2, rest, 0, 95);
    UnnamedWord(2, rest, 8, 94);
    CheckItemsExact(data, false, TABLE_START, 2, Watermark(data));
  }

  function EmptyDatabase(name: string): Database {
    Database(name, 0, 0, 0, 0, 0, 0, Zeros(4), Zeros(4), 0, 0, None, None, [])
  }

  /** A name of 32 characters is cut, and text behind a zero does not survive. */
  lemma CutNameExample()
    ensures var long, zero := EmptyDatabase(seq(32, _ => 'a')), EmptyDatabase(['a', 0 as char, 'b']);
      && Packable(long) && Parsed(Serialized(long)) != Ok(long)
      && Packable(zero) && Packable(Stored(zero)) && Serialized(Stored(zero)) != Serialized(zero)
  {
    hide Parsed, Serialized, NameField;
    var long, zero := EmptyDatabase(seq(32, _ => 'a')), EmptyDatabase(['a', 0 as char, 'b']);
    assert Packable(long) && Packable(zero);
    RoundTripExact(long);
    ReserializedExact(zero);
    var cut := Cut(zero.name, NAME_LENGTH - 1);
    assert cut == zero.name && cut[1] == 0 as char && cut[2] != 0 as char;
    assert |UntilZero(cut)| <= 1;
  }
}
