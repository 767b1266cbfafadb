/** src/cloudpilot/emulator/DbInstaller.cpp: inspection of a database image and its relocation to a
    gap of two bytes. */
module DbInstaller {
  import opened Bytes
  import opened PalmDatabase

  datatype Inspection = Rejected | Accepted(resource: bool, gap: int, empty: bool)

  /** The name is terminated and printable. */
  predicate NameOk(field: seq<byte>) {
    var name := Terminated(field);
    |name| < |field| && forall i :: 0 <= i < |name| ==> 0x20 <= name[i] <= 0x7e
  }

  /** ValidateEntries: entries inside the file, block offsets that never decrease. */
  predicate EntriesValid(data: seq<byte>, resource: bool, at: nat, left: nat, watermark: int)
    ensures EntriesValid(data, resource, at, left, watermark) && left > 0 ==> at + TableSize(resource, left) <= |data|
    decreases left
  {
    left == 0 ||
    (&& at + EntrySize(resource) <= |data|
     && LocalAt(data, resource, at) >= watermark
     && EntriesValid(data, resource, at + EntrySize(resource), left - 1, LocalAt(data, resource, at)))
  }

  /** The info blocks stand behind the header and inside the file, in order. */
  predicate InfoValid(data: seq<byte>)
    requires |data| >= TABLE_START
  {
    var h := ReadHeader(data);
    && (h.appInfoId > 0 ==> TABLE_START <= h.appInfoId < |data|)
    && (h.sortInfoId > 0 ==> Before(h.appInfoId, TABLE_START) <= h.sortInfoId < |data|)
  }

  /** Where the first block of any kind starts. */
  function FirstOfAll(data: seq<byte>): int
    requires |data| >= TABLE_START && TableEnd(data) <= |data|
  {
    var h := ReadHeader(data);
    Before(h.appInfoId, Before(h.sortInfoId, FirstBlock(data)))
  }

  function Inspected(data: seq<byte>): (r: Inspection)
    ensures r.Accepted? ==> |data| >= TABLE_START && TableEnd(data) <= |data|
  {
    if |data| < TABLE_START || !NameOk(ReadHeader(data).name) || !InfoValid(data) then Rejected
    else
      var h := ReadHeader(data);
      var watermark := Before(h.sortInfoId, Before(h.appInfoId, TABLE_START));
      if !EntriesValid(data, OfResources(data), TABLE_START, RecordCount(data), watermark) then Rejected
      else
        Accepted(OfResources(data), Wrap32(FirstOfAll(data) - TableEnd(data)), RecordCount(data) == 0)
  }

  /** The distance of the first block from the end of the table, negative if it starts inside the table. */
  function SignedGap(data: seq<byte>): int
    requires |data| >= TABLE_START && TableEnd(data) <= |data|
  {
    FirstOfAll(data) - TableEnd(data)
  }

  /** What follows a gap of that size is part of the file. */
  predicate GapFits(data: seq<byte>, gap: int)
    requires |data| >= TABLE_START
  {
    TableEnd(data) <= |data| && 0 <= TableEnd(data) + gap <= |data|
  }

  /** The blocks of an accepted image start inside the file. */
  predicate BlocksInFile(data: seq<byte>)
    requires |data| >= TABLE_START && TableEnd(data) <= |data|
  {
    forall i :: 0 <= i < RecordCount(data) ==>
         LocalAt(data, OfResources(data), TABLE_START + TableSize(OfResources(data), i)) <= |data|
  }

  /** Where the copy behind the gap starts and how long it is, counted in a size_t. */
  function CopyStart(data: seq<byte>, wide: bool): nat
    requires Inspected(data).Accepted?
  {
    AsSize(TableEnd(data) + Inspected(data).gap, wide)
  }

  function CopyCount(data: seq<byte>, wide: bool): nat
    requires Inspected(data).Accepted?
  {
    AsSize(|data| - TableEnd(data) - Inspected(data).gap, wide)
  }

  /** The copy behind the gap stays inside the old buffer. */
  predicate CopyInside(data: seq<byte>, wide: bool)
    requires Inspected(data).Accepted?
  {
    CopyStart(data, wide) + CopyCount(data, wide) <= |data|
  }

  /** What moving an accepted image asks for: the copy inside the old buffer, a gap that a signed integer
      of 32 bits takes, and room for old and new image together. */
  predicate Relocatable(data: seq<byte>, wide: bool)
    requires Inspected(data).Accepted?
  {
    var size := |data| + 2 - SignedGap(data);
    && CopyInside(data, wide) && SignedGap(data) <= MAX32 / 2 + 2
    && |data| < MAX32 && size < MAX32 && |data| + size < Sizes(wide)
  }

  // ---- relocation ---------------------------------------------------------------------------------

  function ShiftAt(data: seq<byte>, at: nat, delta: int): (r: seq<byte>)
    requires at + 4 <= |data|
    ensures |r| == |data|
  {
    PutAt(data, at, Put32(Wrap32(Get32(data, at) + delta)))
  }

  function LocalPlace(resource: bool, i: nat): nat {
    TABLE_START + TableSize(resource, i) + (if resource then 6 else 0)
  }

  /** The offsets of the first k entries moved by delta. */
  function ShiftEntries(data: seq<byte>, resource: bool, k: nat, delta: int): (r: seq<byte>)
    requires TABLE_START + TableSize(resource, k) <= |data|
    ensures |r| == |data|
  {
    if k == 0 then data
    else ShiftAt(ShiftEntries(data, resource, k - 1, delta), LocalPlace(resource, k - 1), delta)
  }

  function ShiftInfo(data: seq<byte>, delta: int): (r: seq<byte>)
    requires |data| >= TABLE_START
    ensures |r| == |data|
  {
    var h := ReadHeader(data);
    var first := if h.appInfoId > 0 then ShiftAt(data, 52, delta) else data;
    if h.sortInfoId > 0 then ShiftAt(first, 56, delta) else first
  }

  /** The image with a gap of two: the same header and entries with moved offsets, two zeros, and
      everything behind the old gap. */
  function Relocated(data: seq<byte>, gap: int): (r: seq<byte>)
    requires |data| >= TABLE_START && GapFits(data, gap)
    ensures |r| == |data| + 2 - gap
  {
    var head := ShiftInfo(data[..TableEnd(data)], 2 - gap);
    ShiftEntries(head, OfResources(data), RecordCount(data), 2 - gap) + [0, 0] + data[TableEnd(data) + gap..]
  }

  // ---- which bytes relocation changes -----------------------------------------------------------------

  lemma {:induction false} ShiftEntriesKeeps(data: seq<byte>, resource: bool, k: nat, delta: int, from: nat, to: nat)
    requires TABLE_START + TableSize(resource, k) <= |data| && from <= to <= |data|
    requires forall i :: 0 <= i < k ==> to <= LocalPlace(resource, i) || LocalPlace(resource, i) + 4 <= from
    ensures ShiftEntries(data, resource, k, delta)[from..to] == data[from..to]
  {
    hide Put32, Get32, PutAt;
    if k > 0 {
      ShiftEntriesKeeps(data, resource, k - 1, delta, from, to);
      var before := ShiftEntries(data, resource, k - 1, delta);
      var place := LocalPlace(resource, k - 1);
      PutAtKeeps(before, place, Put32(Wrap32(Get32(before, place) + delta)), from, to);
    }
  }

  lemma {:induction false} ShiftEntriesWord(data: seq<byte>, resource: bool, k: nat, delta: int, i: nat)
    requires TABLE_START + TableSize(resource, k) <= |data| && i < k
    ensures LocalPlace(resource, i) + 4 <= |data|
    ensures Get32(ShiftEntries(data, resource, k, delta), LocalPlace(resource, i))
         == Wrap32(Get32(data, LocalPlace(resource, i)) + delta)
    decreases k
  {
    hide Put32, Get32, PutAt;
    var at := LocalPlace(resource, i);
    var before := ShiftEntries(data, resource, k - 1, delta);
    var place := LocalPlace(resource, k - 1);
    var word := Put32(Wrap32(Get32(before, place) + delta));
    if k == i + 1 {
      ShiftEntriesKeeps(data, resource, i, delta, at, at + 4);
      SameWord(before, data, at);
      PutAtPlaces(before, at, word);
      Read32(PutAt(before, at, word), at, Wrap32(Get32(before, place) + delta));
    } else {
      ShiftEntriesWord(data, resource, k - 1, delta, i);
      PutAtKeeps(before, place, word, at, at + 4);
      SameWord(PutAt(before, place, word), before, at);
    }
  }

  lemma ShiftAtWord(data: seq<byte>, at: nat, delta: int)
    requires at + 4 <= |data|
    ensures Get32(ShiftAt(data, at, delta), at) == Wrap32(Get32(data, at) + delta)
  {
    hide Put32, Get32, PutAt;
    var word := Put32(Wrap32(Get32(data, at) + delta));
    PutAtPlaces(data, at, word);
    Read32(PutAt(data, at, word), at, Wrap32(Get32(data, at) + delta));
  }

  lemma ShiftAtKeeps(data: seq<byte>, at: nat, delta: int, from: nat, to: nat)
    requires at + 4 <= |data| && from <= to <= |data| && (to <= at || at + 4 <= from)
    ensures ShiftAt(data, at, delta)[from..to] == data[from..to]
  {
    hide Put32, Get32, PutAt;
    PutAtKeeps(data, at, Put32(Wrap32(Get32(data, at) + delta)), from, to);
  }

  /** An offset that is set moves, one that is not stays zero. */
  function Moved(id: int, delta: int): int {
    if id > 0 then Wrap32(id + delta) else id
  }

  /** Moving one offset, if it is set. */
  lemma ShiftIfSet(data: seq<byte>, at: nat, delta: int)
    requires at + 4 <= |data|
    ensures var g := if Get32(data, at) > 0 then ShiftAt(data, at, delta) else data;
      && |g| == |data| && g[..at] == data[..at] && g[at + 4..] == data[at + 4..]
      && Get32(g, at) == Moved(Get32(data, at), delta)
  {
    hide Put32, PutAt, ShiftAt, Wrap32, Get32;
    ShiftAtWord(data, at, delta);
    ShiftAtKeeps(data, at, delta, 0, at);
    ShiftAtKeeps(data, at, delta, at + 4, |data|);
    var g := ShiftAt(data, at, delta);
    assert g[at + 4..|data|] == g[at + 4..] && data[at + 4..|data|] == data[at + 4..];
  }

  lemma HeadOfHead(a: seq<byte>, b: seq<byte>, to: nat, n: nat)
    requires n <= to <= |a| == |b| && a[..to] == b[..to]
    ensures a[..n] == b[..n]
  {
    assert a[..n] == a[..to][..n] && b[..n] == b[..to][..n];
  }

  lemma TailOfTail(a: seq<byte>, b: seq<byte>, from: nat, n: nat)
    requires from <= n <= |a| == |b| && a[from..] == b[from..]
    ensures a[n..] == b[n..]
  {
    assert a[n..] == a[from..][n - from..] && b[n..] == b[from..][n - from..];
  }

  lemma ShiftInfoHeader(data: seq<byte>, delta: int)
    requires |data| >= TABLE_START
    ensures var h, g := ReadHeader(data), ShiftInfo(data, delta);
      && ReadHeader(g) == h.(appInfoId := Moved(h.appInfoId, delta), sortInfoId := Moved(h.sortInfoId, delta))
      && g[60..] == data[60..]
  {
    hide Put32, PutAt, ShiftAt, Wrap32, Get32, Get16;
    var a := if Get32(data, 52) > 0 then ShiftAt(data, 52, delta) else data;
    ShiftIfSet(data, 52, delta);
    SameWordTail(a, data, 56, 56);
    var g := ShiftInfo(data, delta);
    assert g == if Get32(a, 56) > 0 then ShiftAt(a, 56, delta) else a;
    ShiftIfSet(a, 56, delta);
    SameWordHead(g, a, 52, 56);
    HeadOfHead(g, a, 56, 52);
    TailOfTail(a, data, 56, 60);
    HeaderFields(g, data);
  }

  lemma SameWordTail(a: seq<byte>, b: seq<byte>, from: nat, at: nat)
    requires |a| == |b| && from <= at && at + 4 <= |a| && a[from..] == b[from..]
    ensures Get32(a, at) == Get32(b, at)
  {
    assert a[at..at + 4] == a[from..][at - from..at - from + 4];
    assert b[at..at + 4] == b[from..][at - from..at - from + 4];
    SameWord(a, b, at);
  }

  lemma SameWordHead(a: seq<byte>, b: seq<byte>, at: nat, to: nat)
    requires |a| == |b| && at + 4 <= to <= |a| && a[..to] == b[..to]
    ensures Get32(a, at) == Get32(b, at)
  {
    assert a[at..at + 4] == a[..to][at..at + 4];
    assert b[at..at + 4] == b[..to][at..at + 4];
    SameWord(a, b, at);
  }

  /** All header fields but the two block offsets stand outside bytes 52 to 59. */
  lemma HeaderFields(a: seq<byte>, b: seq<byte>)
    requires |a| == |b| >= HEADER_SIZE && a[..52] == b[..52] && a[60..] == b[60..]
    ensures ReadHeader(a)
         == ReadHeader(b).(appInfoId := ReadHeader(a).appInfoId, sortInfoId := ReadHeader(a).sortInfoId)
  {
    var s, t := a[..52], a[60..];
    assert forall i :: 0 <= i < 52 ==> a[i] == s[i] && b[i] == s[i];
    assert forall i :: 0 <= i < 12 ==> a[60 + i] == t[i] && b[60 + i] == t[i];
    assert a[..32] == s[..32] == b[..32];
    assert a[60..64] == t[..4] == b[60..64];
    assert a[64..68] == t[4..8] == b[64..68];
    assert a[68] == t[8] == b[68] && a[69] == t[9] == b[69] && a[70] == t[10] == b[70] && a[71] == t[11] == b[71];
  }

  lemma RelocatedParts(data: seq<byte>, gap: int)
    requires |data| >= TABLE_START && GapFits(data, gap)
    ensures var moved, end := Relocated(data, gap), TableEnd(data);
      var table := ShiftEntries(ShiftInfo(data[..end], 2 - gap), OfResources(data), RecordCount(data), 2 - gap);
      && |table| == end && moved[..end] == table && moved[end + 2..] == data[end + gap..]
  {
    hide ShiftEntries, ShiftInfo, RecordCount, OfResources;
    var end := TableEnd(data);
    var table := ShiftEntries(ShiftInfo(data[..end], 2 - gap), OfResources(data), RecordCount(data), 2 - gap);
    assert Relocated(data, gap) == table + ([0, 0] + data[end + gap..]);
  }

  /** The header of the moved image is the old one with moved block offsets. */
  lemma RelocatedHead(data: seq<byte>, gap: int)
    requires |data| >= TABLE_START && GapFits(data, gap)
    ensures var moved, h, delta := Relocated(data, gap), ReadHeader(data), 2 - gap;
      && |moved| >= TABLE_START
      && ReadHeader(moved) == h.(appInfoId := Moved(h.appInfoId, delta), sortInfoId := Moved(h.sortInfoId, delta))
      && Get32(moved, 72) == Get32(data, 72) && RecordCount(moved) == RecordCount(data)
      && OfResources(moved) == OfResources(data) && TableEnd(moved) == TableEnd(data)
  {
    hide ShiftEntries, ShiftInfo, ReadHeader, Relocated, Get32, Get16;
    var moved, delta, end := Relocated(data, gap), 2 - gap, TableEnd(data);
    var head := data[..end];
    var info := ShiftInfo(head, delta);
    RelocatedParts(data, gap);
    ShiftEntriesKeeps(info, OfResources(data), RecordCount(data), delta, 0, TABLE_START);
    assert moved[..TABLE_START] == moved[..end][..TABLE_START] == info[..TABLE_START];
    assert head[..TABLE_START] == data[..TABLE_START];
    SameHead(head, data);
    ShiftInfoHeader(head, delta);
    SameHead(moved, info);
    SameWordTail(info, head, 60, 72);
    SameCount(info, head);
  }

  lemma SameCount(a: seq<byte>, b: seq<byte>)
    requires |a| == |b| >= TABLE_START && a[60..] == b[60..]
    ensures Get16(a, 76) == Get16(b, 76)
  {
    assert a[76] == a[60..][16] == b[60..][16] == b[76];
    assert a[77] == a[60..][17] == b[60..][17] == b[77];
  }

  /** Every entry keeps its bytes but for the offset, which moves. */
  lemma RelocatedEntry(data: seq<byte>, gap: int, i: nat)
    requires |data| >= TABLE_START && GapFits(data, gap) && i < RecordCount(data)
    ensures var moved, resource := Relocated(data, gap), OfResources(data);
      var at := TABLE_START + TableSize(resource, i);
      && at + EntrySize(resource) <= TableEnd(data) <= |moved|
      && LocalAt(moved, resource, at) == Wrap32(LocalAt(data, resource, at) + 2 - gap)
      && (if resource then moved[at..at + 6] == data[at..at + 6] else moved[at + 4..at + 8] == data[at + 4..at + 8])
  {
    hide ShiftEntries, ShiftInfo, ReadHeader, Relocated, Get32, OfResources, Wrap32, RecordCount;
    var moved, resource, delta, end := Relocated(data, gap), OfResources(data), 2 - gap, TableEnd(data);
    var n := RecordCount(data);
    var at := TABLE_START + TableSize(resource, i);
    var head := data[..end];
    var info := ShiftInfo(head, delta);
    var table := ShiftEntries(info, resource, n, delta);
    RelocatedParts(data, gap);
    ShiftInfoHeader(head, delta);
    var place := LocalPlace(resource, i);
    ShiftEntriesWord(info, resource, n, delta, i);
    SameWordTail(info, head, 60, place);
    WordInPrefix(data, end, place);
    WordInPrefix(moved, end, place);
    var from, to := if resource then at else at + 4, if resource then at + 6 else at + 8;
    ShiftEntriesKeeps(info, resource, n, delta, from, to);
    SliceOfPrefix(moved, end, from, to);
    SliceOfPrefix(data, end, from, to);
    SliceOfSuffix(info, 60, from, to);
    SliceOfSuffix(head, 60, from, to);
  }

  lemma WordInPrefix(data: seq<byte>, end: nat, at: nat)
    requires at + 4 <= end <= |data|
    ensures Get32(data[..end], at) == Get32(data, at)
  {
  }

  /** Blocks behind the gap move as they are. */
  lemma RelocatedSlice(data: seq<byte>, gap: int, a: nat, b: nat)
    requires |data| >= TABLE_START && GapFits(data, gap)
    requires TableEnd(data) + gap <= a && TableEnd(data) + gap <= b
    ensures Slice(Relocated(data, gap), a + 2 - gap, b + 2 - gap) == Slice(data, a, b)
  {
    hide Relocated, RecordCount, OfResources, Slice, TableEnd;
    RelocatedParts(data, gap);
    var start := TableEnd(data) + gap;
    SameTail(Relocated(data, gap), TableEnd(data) + 2, data, start, a - start, b - start);
  }

  lemma SameTail(s: seq<byte>, i: nat, t: seq<byte>, j: nat, x: nat, y: nat)
    requires i <= |s| && j <= |t| && s[i..] == t[j..]
    ensures Slice(s, i + x, i + y) == Slice(t, j + x, j + y)
  {
    var e := if y <= |s| - i then y else |s| - i;
    assert |s| - i == |t| - j;
    if x <= e {
      SliceOfSuffix(s, i, i + x, i + e);
      SliceOfSuffix(t, j, j + x, j + e);
    }
  }

  // ---- what relocation means ----------------------------------------------------------------------------

  /** The offsets of valid entries never decrease and never fall below the watermark. */
  lemma {:induction false} EntriesAbove(data: seq<byte>, resource: bool, at: nat, left: nat, watermark: int, i: nat)
    requires EntriesValid(data, resource, at, left, watermark) && i < left
    ensures at + TableSize(resource, left) <= |data|
      && LocalAt(data, resource, at + TableSize(resource, i)) >= watermark
    decreases left
  {
    hide LocalAt;
    if i > 0 {
      EntriesAbove(data, resource, at + EntrySize(resource), left - 1, LocalAt(data, resource, at), i - 1);
    }
  }

  /** An accepted image with its blocks inside the file and 32-bit offsets to spare. */
  predicate Movable(data: seq<byte>) {
    Inspected(data).Accepted? && BlocksInFile(data) && |data| + 2 - SignedGap(data) < MAX32 && |data| + 2 < MAX32
  }

  lemma MovableGap(data: seq<byte>)
    requires Movable(data)
    ensures Inspected(data).Accepted? && |data| >= TABLE_START && GapFits(data, SignedGap(data))
    ensures Inspected(data).gap == Wrap32(SignedGap(data)) && |data| + 2 - SignedGap(data) < MAX32
    ensures Inspected(data).gap == 2 <==> SignedGap(data) == 2
  {
    hide LocalAt, ReadHeader, NameOk;
    if RecordCount(data) > 0 { assert TABLE_START + TableSize(OfResources(data), 0) == TABLE_START; }
  }

  /** The gap of an accepted image is the signed one on 32 bits. */
  lemma AcceptedGap(data: seq<byte>)
    requires Inspected(data).Accepted?
    ensures TABLE_START <= TableEnd(data) <= |data| && TableEnd(data) < MAX32 / 2
    ensures |data| < MAX32 ==> 0 <= FirstOfAll(data) < MAX32
    ensures var gap := SignedGap(data);
      |data| < MAX32 ==> Inspected(data).gap == if gap < 0 then gap + MAX32 else gap
  {
    hide LocalAt, ReadHeader, NameOk, EntriesValid;
  }

  /** The copy behind the gap stays inside the old buffer exactly if the first block does not start
      behind the end of the file and, with sizes of 64 bits, not inside the entry table either; with
      sizes of 32 bits such a copy wraps around twice and starts at the block. */
  lemma GapInBounds(data: seq<byte>, wide: bool)
    requires Inspected(data).Accepted? && |data| < MAX32
    ensures CopyInside(data, wide) <==> FirstOfAll(data) <= |data| && (wide ==> TableEnd(data) <= FirstOfAll(data))
    ensures CopyInside(data, wide) ==>
      && GapFits(data, SignedGap(data))
      && CopyStart(data, wide) == FirstOfAll(data) && CopyCount(data, wide) == |data| - FirstOfAll(data)
  {
    hide Inspected, FirstOfAll, TableEnd;
    AcceptedGap(data);
    SizeWraps(TableEnd(data) + Inspected(data).gap, wide);
    SizeWraps(|data| - TableEnd(data) - Inspected(data).gap, wide);
  }

  /** An accepted file of 86 bytes whose only block starts inside the entry table. */
  lemma BlockInTableExample() returns (data: seq<byte>)
    ensures |data| == 86 && Inspected(data).Accepted? && !CopyInside(data, true) && CopyInside(data, false)
    ensures Movable(data) && SignedGap(data) < 0
  {
    hide Put32, Get32, ReadHeader;
    var rest := Put32(78) + Zeros(4);
    data := Unnamed(1, rest);
    UnnamedHead(1, rest);
    assert rest[0..4] == Put32(78);
    UnnamedWord(1, rest, 0, 78);
    assert EntriesValid(data, false, TABLE_START, 1, TABLE_START);
    GapInBounds(data, true);
    GapInBounds(data, false);
  }

  lemma MovableOffsets(data: seq<byte>)
    requires Movable(data)
    ensures var h, first := ReadHeader(data), FirstOfAll(data);
      && (h.appInfoId > 0 ==> first <= h.appInfoId < |data|)
      && (h.sortInfoId > 0 ==> first <= h.sortInfoId < |data|)
      && first <= FirstBlock(data) <= |data|
      && forall i :: 0 <= i < RecordCount(data) ==>
           first <= LocalAt(data, OfResources(data), TABLE_START + TableSize(OfResources(data), i)) <= |data|
  {
    hide LocalAt, ReadHeader, NameOk;
    var h, n, resource := ReadHeader(data), RecordCount(data), OfResources(data);
    var watermark := Before(h.sortInfoId, Before(h.appInfoId, TABLE_START));
    if n > 0 {
      assert TABLE_START + TableSize(resource, 0) == TABLE_START;
      EntriesAbove(data, resource, TABLE_START, n, watermark, 0);
      assert EntriesValid(data, resource, TABLE_START + EntrySize(resource), n - 1,
                          LocalAt(data, resource, TABLE_START));
      forall i | 0 <= i < n
        ensures LocalAt(data, resource, TABLE_START + TableSize(resource, i)) >= LocalAt(data, resource, TABLE_START)
      {
        if i > 0 {
          EntriesAbove(data, resource, TABLE_START + EntrySize(resource), n - 1,
                       LocalAt(data, resource, TABLE_START), i - 1);
        }
      }
    }
  }

  /** In a movable image every offset moves without wrapping around. */
  lemma MovesFreely(data: seq<byte>, o: int)
    requires Movable(data) && FirstOfAll(data) <= o <= |data|
    ensures Wrap32(o + 2 - SignedGap(data)) == o + 2 - SignedGap(data) > 0
    ensures TableEnd(data) + SignedGap(data) <= o
  {
    hide Inspected, FirstOfAll, TableEnd, BlocksInFile;
    MovableGap(data);
    TableBehindHeader(data);
  }

  lemma TableBehindHeader(data: seq<byte>)
    requires |data| >= TABLE_START
    ensures TableEnd(data) >= TABLE_START
  {
  }

  lemma RelocatedItem(data: seq<byte>, i: nat)
    requires Movable(data) && i < RecordCount(data)
    ensures |data| >= TABLE_START && GapFits(data, SignedGap(data))
    ensures var moved, resource, n := Relocated(data, SignedGap(data)), OfResources(data), RecordCount(data);
      && TABLE_START + TableSize(resource, n) <= |moved| && TABLE_START + TableSize(resource, n) <= |data|
      && ReadItems(moved, resource, TABLE_START, n)[i] == ReadItems(data, resource, TABLE_START, n)[i]
  {
    hide Inspected, Relocated, LocalAt, ReadHeader, NameOk, OfResources, RecordCount, BlocksInFile, Slice, ReadItems;
    hide Get16, Get24, Wrap32, Movable, FirstOfAll;
    MovableGap(data);
    var gap, resource, n := SignedGap(data), OfResources(data), RecordCount(data);
    var moved, at := Relocated(data, gap), TABLE_START + TableSize(resource, i);
    RelocatedEntry(data, gap, i);
    MovableOffsets(data);
    ReadItemsAt(data, resource, TABLE_START, n, i);
    ReadItemsAt(moved, resource, TABLE_START, n, i);
    var local := LocalAt(data, resource, at);
    var end := EndAt(data, resource, at, n - i);
    MovesFreely(data, local);
    if i + 1 < n {
      RelocatedEntry(data, gap, i + 1);
      assert at + EntrySize(resource) == TABLE_START + TableSize(resource, i + 1);
    }
    MovesFreely(data, end);
    RelocatedSlice(data, gap, local, end);
    SameEntryFields(moved, data, resource, at);
  }

  lemma SameEntryFields(a: seq<byte>, b: seq<byte>, resource: bool, at: nat)
    requires at + EntrySize(resource) <= |a| && at + EntrySize(resource) <= |b|
    requires if resource then a[at..at + 6] == b[at..at + 6] else a[at + 4..at + 8] == b[at + 4..at + 8]
    ensures if resource then a[at..at + 4] == b[at..at + 4] && Get16(a, at + 4) == Get16(b, at + 4)
            else a[at + 4] == b[at + 4] && Get24(a, at + 5) == Get24(b, at + 5)
  {
    if resource {
      var x, y := a[at..at + 6], b[at..at + 6];
      assert a[at..at + 4] == x[..4] == y[..4] == b[at..at + 4];
      assert a[at + 4] == x[4] == y[4] == b[at + 4] && a[at + 5] == x[5] == y[5] == b[at + 5];
    } else {
      var x, y := a[at + 4..at + 8], b[at + 4..at + 8];
      assert a[at + 4] == x[0] == y[0] == b[at + 4] && a[at + 5] == x[1] == y[1] == b[at + 5];
      assert a[at + 6] == x[2] == y[2] == b[at + 6] && a[at + 7] == x[3] == y[3] == b[at + 7];
    }
  }

  lemma RelocatedFirst(data: seq<byte>)
    requires Movable(data)
    ensures |data| >= TABLE_START && GapFits(data, SignedGap(data))
    ensures var moved := Relocated(data, SignedGap(data));
      && |moved| >= TABLE_START && TableEnd(moved) <= |moved|
      && FirstBlock(moved) == FirstBlock(data) + 2 - SignedGap(data)
  {
    hide Inspected, Relocated, LocalAt, ReadHeader, NameOk, OfResources, RecordCount, BlocksInFile, Wrap32, Movable;
    hide FirstOfAll;
    MovableGap(data);
    RelocatedHead(data, SignedGap(data));
    MovableOffsets(data);
    MovesFreely(data, FirstBlock(data));
    if RecordCount(data) > 0 {
      RelocatedEntry(data, SignedGap(data), 0);
    }
  }

  lemma ReadableName(data: seq<byte>)
    requires Inspected(data).Accepted?
    ensures AsciiBytes(Terminated(ReadHeader(data).name)) && NameOk(ReadHeader(data).name)
  {
  }

  /** Relocation keeps everything a reader of the image sees, except that the gap is now two:
      header fields, app info, sort info and every record or resource with its own bytes. */
  lemma RelocationKeepsMeaning(data: seq<byte>)
    requires Movable(data)
    ensures |data| >= TABLE_START && GapFits(data, SignedGap(data))
    ensures var moved := Relocated(data, SignedGap(data));
      && |moved| == |data| + 2 - SignedGap(data)
      && |moved| >= TABLE_START && TableEnd(moved) <= |moved|
      && AsciiBytes(Terminated(ReadHeader(moved).name)) && AsciiBytes(Terminated(ReadHeader(data).name))
      && ReadDb(data).gapSize == SignedGap(data)
      && ReadDb(moved) == ReadDb(data).(gapSize := 2)
  {
    hide Inspected, Relocated, LocalAt, ReadHeader, NameOk, OfResources, RecordCount, BlocksInFile, Slice, ReadItems;
    hide Wrap32, Movable, FirstBlock, Terminated, AsciiBytes, DecodeAscii, TableEnd;
    MovableGap(data);
    ReadableName(data);
    var gap := SignedGap(data);
    var moved, h := Relocated(data, gap), ReadHeader(data);
    RelocatedHead(data, gap);
    RelocatedFirst(data);
    MovableOffsets(data);
    if h.appInfoId > 0 { MovesFreely(data, h.appInfoId); }
    if h.sortInfoId > 0 { MovesFreely(data, h.sortInfoId); }
    MovesFreely(data, FirstBlock(data));
    var first := FirstBlock(data);
    var second := Before(h.sortInfoId, first);
    if h.sortInfoId > 0 { RelocatedSlice(data, gap, h.sortInfoId, first); }
    if h.appInfoId > 0 { RelocatedSlice(data, gap, h.appInfoId, second); }
    SameItems(data);
  }

  lemma SameItems(data: seq<byte>)
    requires Movable(data)
    ensures |data| >= TABLE_START && GapFits(data, SignedGap(data))
    ensures var moved, resource, n := Relocated(data, SignedGap(data)), OfResources(data), RecordCount(data);
      && TABLE_START + TableSize(resource, n) <= |moved| && TABLE_START + TableSize(resource, n) <= |data|
      && ReadItems(moved, resource, TABLE_START, n) == ReadItems(data, resource, TABLE_START, n)
  {
    hide Inspected, Relocated, LocalAt, ReadHeader, OfResources, RecordCount, ReadItems, Movable;
    MovableGap(data);
    var moved, resource, n := Relocated(data, SignedGap(data)), OfResources(data), RecordCount(data);
    forall i | 0 <= i < n
      ensures ReadItems(moved, resource, TABLE_START, n)[i] == ReadItems(data, resource, TABLE_START, n)[i]
    {
      RelocatedItem(data, i);
    }
  }

  /** Entries that are valid stay valid when all their offsets move alike. */
  lemma {:induction false} EntriesMove(data: seq<byte>, moved: seq<byte>, resource: bool, at: nat, left: nat,
                                       watermark: int, floor: int, delta: int)
    requires EntriesValid(data, resource, at, left, watermark) && floor <= watermark + delta
    requires at + TableSize(resource, left) <= |moved|
    requires forall i :: 0 <= i < left ==>
      && at + TableSize(resource, i) + EntrySize(resource) <= |data|
      && LocalAt(moved, resource, at + TableSize(resource, i))
         == LocalAt(data, resource, at + TableSize(resource, i)) + delta
    ensures EntriesValid(moved, resource, at, left, floor)
    decreases left
  {
    hide LocalAt;
    if left > 0 {
      assert at + TableSize(resource, 0) == at;
      forall i | 0 <= i < left - 1
        ensures at + EntrySize(resource) + TableSize(resource, i) + EntrySize(resource) <= |data|
        ensures LocalAt(moved, resource, at + EntrySize(resource) + TableSize(resource, i))
             == LocalAt(data, resource, at + EntrySize(resource) + TableSize(resource, i)) + delta
      {
        assert at + EntrySize(resource) + TableSize(resource, i) == at + TableSize(resource, i + 1);
      }
      EntriesMove(data, moved, resource, at + EntrySize(resource), left - 1, LocalAt(data, resource, at),
                  LocalAt(moved, resource, at), delta);
    }
  }

  /** The relocated image is accepted again, with a gap of two. */
  lemma RelocatedIsAccepted(data: seq<byte>)
    requires Movable(data)
    ensures |data| >= TABLE_START && GapFits(data, SignedGap(data))
    ensures Inspected(Relocated(data, SignedGap(data))) == Inspected(data).(gap := 2)
  {
    hide Relocated, LocalAt, ReadHeader, NameOk, OfResources, RecordCount, BlocksInFile, EntriesValid, FirstBlock,
         TableEnd;
    MovableGap(data);
    ReadableName(data);
    TableBehindHeader(data);
    var gap, n, resource := SignedGap(data), RecordCount(data), OfResources(data);
    var moved, h := Relocated(data, gap), ReadHeader(data);
    RelocatedHead(data, gap);
    RelocatedFirst(data);
    MovableOffsets(data);
    if h.appInfoId > 0 { MovesFreely(data, h.appInfoId); }
    if h.sortInfoId > 0 { MovesFreely(data, h.sortInfoId); }
    MovesFreely(data, FirstBlock(data));
    MovedEntriesValid(data);
  }

  lemma MovedEntriesValid(data: seq<byte>)
    requires Movable(data)
    ensures |data| >= TABLE_START && GapFits(data, SignedGap(data))
    ensures var moved := Relocated(data, SignedGap(data));
      && |moved| >= TABLE_START
      && EntriesValid(moved, OfResources(moved), TABLE_START, RecordCount(moved),
                      Before(ReadHeader(moved).sortInfoId, Before(ReadHeader(moved).appInfoId, TABLE_START)))
  {
    hide Relocated, LocalAt, ReadHeader, NameOk, OfResources, RecordCount, BlocksInFile, EntriesValid, FirstBlock,
         Wrap32;
    MovableGap(data);
    TableBehindHeader(data);
    var gap, n, resource := SignedGap(data), RecordCount(data), OfResources(data);
    var moved, h := Relocated(data, gap), ReadHeader(data);
    RelocatedHead(data, gap);
    MovableOffsets(data);
    if h.appInfoId > 0 { MovesFreely(data, h.appInfoId); }
    if h.sortInfoId > 0 { MovesFreely(data, h.sortInfoId); }
    var watermark := Before(h.sortInfoId, Before(h.appInfoId, TABLE_START));
    forall i | 0 <= i < n
      ensures TABLE_START + TableSize(resource, i) + EntrySize(resource) <= |data|
      ensures LocalAt(moved, resource, TABLE_START + TableSize(resource, i))
           == LocalAt(data, resource, TABLE_START + TableSize(resource, i)) + 2 - gap
    {
      RelocatedEntry(data, gap, i);
      MovesFreely(data, LocalAt(data, resource, TABLE_START + TableSize(resource, i)));
    }
    if h.appInfoId > 0 || h.sortInfoId > 0 {
      EntriesMove(data, moved, resource, TABLE_START, n, watermark, watermark + 2 - gap, 2 - gap);
    } else {
      assert n > 0 ==> TABLE_START + TableSize(resource, 0) == TABLE_START;
      EntriesStart(data, resource, n, gap);
      EntriesMove(data, moved, resource, TABLE_START, n, TABLE_START + gap - 2, TABLE_START, 2 - gap);
    }
  }

  /** Without info blocks the first entry is what leaves the gap. */
  lemma EntriesStart(data: seq<byte>, resource: bool, n: nat, gap: int)
    requires EntriesValid(data, resource, TABLE_START, n, TABLE_START)
    requires n > 0 ==> LocalAt(data, resource, TABLE_START) >= TABLE_START + gap
    ensures EntriesValid(data, resource, TABLE_START, n, TABLE_START + gap - 2)
  {
  }

  // ---- the installer --------------------------------------------------------------------------------------

  lemma ShiftAtPrefix(data: seq<byte>, at: nat, delta: int, end: nat)
    requires at + 4 <= end <= |data|
    ensures ShiftAt(data, at, delta)[..end] == ShiftAt(data[..end], at, delta)
  {
    hide PutAt, Put32, Get32;
    WordInPrefix(data, end, at);
    PutAtPrefix(data, at, Put32(Wrap32(Get32(data, at) + delta)), end);
  }

  lemma {:induction false} ShiftEntriesPrefix(data: seq<byte>, resource: bool, k: nat, delta: int, end: nat)
    requires TABLE_START + TableSize(resource, k) <= end <= |data|
    ensures ShiftEntries(data, resource, k, delta)[..end] == ShiftEntries(data[..end], resource, k, delta)
  {
    hide ShiftAt;
    if k > 0 {
      ShiftEntriesPrefix(data, resource, k - 1, delta, end);
      ShiftAtPrefix(ShiftEntries(data, resource, k - 1, delta), LocalPlace(resource, k - 1), delta, end);
    }
  }

  /** Shifting the info offsets before or after the entries are copied in is the same. */
  lemma InfoThenEntries(blank: seq<byte>, data: seq<byte>, end: nat, delta: int)
    requires TABLE_START <= end <= |data| && end <= |blank|
    ensures var copied := PutAt(blank, 0, data[..TABLE_START]);
      && ReadHeader(copied) == ReadHeader(data)
      && PutAt(ShiftInfo(copied, delta), TABLE_START, data[TABLE_START..end])[..end] == ShiftInfo(data[..end], delta)
  {
    hide ReadHeader, ShiftAt;
    var copied, head := PutAt(blank, 0, data[..TABLE_START]), data[..end];
    assert copied[..TABLE_START] == data[..TABLE_START] == head[..TABLE_START];
    SameHead(copied, data);
    SameHead(head, data);
    var h := ReadHeader(data);
    var a, b := if h.appInfoId > 0 then ShiftAt(copied, 52, delta) else copied,
                if h.appInfoId > 0 then ShiftAt(head, 52, delta) else head;
    ShiftAtPrefix(copied, 52, delta, TABLE_START);
    ShiftAtPrefix(head, 52, delta, TABLE_START);
    ShiftAtKeeps(head, 52, delta, TABLE_START, end);
    assert a[..TABLE_START] == b[..TABLE_START] && b[TABLE_START..end] == head[TABLE_START..end];
    ShiftAtPrefix(a, 56, delta, TABLE_START);
    ShiftAtPrefix(b, 56, delta, TABLE_START);
    ShiftAtKeeps(b, 56, delta, TABLE_START, end);
    var g := ShiftInfo(head, delta);
    assert ShiftInfo(copied, delta)[..TABLE_START] == g[..TABLE_START];
    assert g[TABLE_START..end] == head[TABLE_START..end] == data[TABLE_START..end];
    assert g == g[..TABLE_START] + g[TABLE_START..end];
  }

  /** field = field + delta, on 32 bits. */
  method ShiftWord(buffer: array<byte>, at: nat, delta: int)
    requires at + 4 <= buffer.Length
    modifies buffer
    ensures buffer[..] == ShiftAt(old(buffer[..]), at, delta)
  {
    hide PutAt, Put32, Get32;
    PackInto(buffer, at, Wrap32(Get32(buffer[..], at) + delta));
  }

  /** The copied header still counts the entries after its block offsets have moved. */
  lemma SameCounts(blank: seq<byte>, data: seq<byte>, delta: int)
    requires TABLE_START <= |data| && TABLE_START <= |blank|
    ensures RecordCount(ShiftInfo(PutAt(blank, 0, data[..TABLE_START]), delta)) == RecordCount(data)
  {
    hide ReadHeader, ShiftInfo, Get16;
    var copied := PutAt(blank, 0, data[..TABLE_START]);
    assert copied[..TABLE_START] == data[..TABLE_START];
    SameHead(copied, data);
    ShiftInfoHeader(copied, delta);
    SameCount(ShiftInfo(copied, delta), copied);
  }

  /** Copies header and entries and moves the offsets of the info blocks in the copy. */
  method CopyHead(dst: array<byte>, src: array<byte>, ghost data: seq<byte>, resource: bool, delta: int)
    returns (numRecords: nat)
    requires dst != src && TABLE_START <= |data| && data <= src[..]
    requires OfResources(data) == resource && TableEnd(data) <= |data| && TableEnd(data) <= dst.Length
    modifies dst
    ensures numRecords == RecordCount(data)
    ensures dst[..][..TableEnd(data)] == ShiftInfo(data[..TableEnd(data)], delta)
  {
    hide PutAt, ShiftAt, ReadHeader, RecordCount, OfResources;
    ghost var blank := dst[..];
    ghost var end := TableEnd(data);
    assert src[..][..|data|] == data;
    CopyBytes(dst, 0, src, 0, TABLE_START);
    ghost var copied := dst[..];
    SliceOfArray(src[..], |data|, 0, TABLE_START);
    SliceOfArray(src[..], |data|, 0, end);
    InfoThenEntries(blank, data, end, delta);
    SameCounts(blank, data, delta);
    var header := ReadHeader(dst[..]);
    if header.appInfoId > 0 { ShiftWord(dst, 52, delta); }
    if header.sortInfoId > 0 { ShiftWord(dst, 56, delta); }
    assert dst[..] == ShiftInfo(copied, delta);
    numRecords := RecordCount(dst[..]);
    CopyBytes(dst, TABLE_START, src, TABLE_START, TableSize(resource, numRecords));
    SliceOfArray(src[..], |data|, TABLE_START, end);
  }

  /** The gap of two zeros, and everything behind the old gap. */
  method CopyTail(dst: array<byte>, src: array<byte>, ghost data: seq<byte>, offset: nat, from: nat, count: nat)
    requires dst != src && |data| >= TABLE_START && data <= src[..]
    requires offset == TableEnd(data) <= |data| && offset + 2 + count <= dst.Length
    requires from + count == |data|
    requires var delta := 2 + offset - from;
      dst[..][..offset] == ShiftEntries(ShiftInfo(data[..offset], delta), OfResources(data), RecordCount(data), delta)
    modifies dst
    ensures dst[..][..offset + 2 + count] == Relocated(data, from - offset)
  {
    hide PutAt, ShiftEntries, ShiftInfo, RecordCount, OfResources, TableEnd, Relocated;
    ghost var shifted := dst[..];
    dst[offset], dst[offset + 1] := 0, 0;
    assert dst[..] == shifted[offset := 0][offset + 1 := 0];
    CopyBytes(dst, offset + 2, src, from, count);
    Assembled(data, from - offset, src[..], shifted, dst[..]);
  }

  class DbInstaller {
    /** Whether a size_t has 64 bits, or 32. */
    const wide: bool
    var bufferSize: nat
    var buffer: array<byte>
    var isEmptyDb: bool
    var isResourceDb: bool
    var gap: int

    ghost predicate Valid()
      reads this, buffer
    {
      bufferSize <= buffer.Length && bufferSize < MAX32
    }

    ghost function Image(): seq<byte>
      requires Valid()
      reads this, buffer
    {
      buffer[..bufferSize]
    }

    constructor (bufferSize: nat, buffer: array<byte>, wide: bool)
      requires bufferSize <= buffer.Length && bufferSize < MAX32
      ensures Valid() && this.wide == wide && this.buffer == buffer && this.bufferSize == bufferSize && gap == 2
    {
      this.bufferSize, this.buffer, this.wide := bufferSize, buffer, wide;
      isEmptyDb, isResourceDb, gap := false, false, 2;
    }

    method ValidateEntries(resource: bool, numRecords: nat, start: int) returns (valid: bool, firstRecord: int)
      requires Valid()
      ensures valid == EntriesValid(Image(), resource, TABLE_START, numRecords, start)
      ensures valid && numRecords > 0 ==> firstRecord == LocalAt(Image(), resource, TABLE_START)
      ensures valid && numRecords == 0 ==> firstRecord == bufferSize
    {
      hide LocalAt;
      var data := buffer[..bufferSize];
      var offset, watermark := TABLE_START, start;
      firstRecord := bufferSize;
      for i := 0 to numRecords
        invariant offset == TABLE_START + TableSize(resource, i)
        invariant EntriesValid(data, resource, TABLE_START, numRecords, start)
              == EntriesValid(data, resource, offset, numRecords - i, watermark)
        invariant if i == 0 then firstRecord == bufferSize
                  else && TABLE_START + EntrySize(resource) <= |data|
                       && firstRecord == LocalAt(data, resource, TABLE_START)
      {
        if offset + EntrySize(resource) > bufferSize { return false, firstRecord; }
        var localChunkID := LocalAt(data, resource, offset);
        if localChunkID < watermark { return false, firstRecord; }
        offset := offset + EntrySize(resource);
        watermark := localChunkID;
        if i == 0 { firstRecord := localChunkID; }
      }
      return true, firstRecord;
    }

    /** Looks for the terminator and for characters that do not print. */
    method CheckName(field: seq<byte>) returns (ok: bool)
      ensures ok == NameOk(field)
    {
      var i := 0;
      while i < |field| && field[i] != 0
        invariant i <= |field| && 0 !in field[..i]
      {
        i := i + 1;
      }
      TerminatedAt(field, i);
      if i == |field| { return false; }
      for k := 0 to i
        invariant forall j :: 0 <= j < k ==> 0x20 <= field[j] <= 0x7e
      {
        if field[k] < 0x20 || field[k] > 0x7e { return false; }
      }
      return true;
    }

    method InspectDb() returns (ok: bool)
      requires Valid()
      modifies this`isEmptyDb, this`isResourceDb, this`gap
      ensures Valid() && ok == Inspected(Image()).Accepted?
      ensures ok ==> Inspected(Image()) == Accepted(isResourceDb, gap, isEmptyDb)
    {
      hide LocalAt, NameOk, EntriesValid, ReadHeader;
      var data := buffer[..bufferSize];
      if TABLE_START > bufferSize { return false; }
      var header := ReadHeader(data);
      var nameOk := CheckName(header.name);
      if !nameOk { return false; }
      isResourceDb := IsResourceDb(header.attributes);
      var watermark := TABLE_START;
      if header.appInfoId > 0 {
        if header.appInfoId < watermark || header.appInfoId >= bufferSize { return false; }
        watermark := header.appInfoId;
      }
      if header.sortInfoId > 0 {
        if header.sortInfoId < watermark || header.sortInfoId >= bufferSize { return false; }
        watermark := header.sortInfoId;
      }
      var numRecords := RecordCount(data);
      var valid, firstRecord := ValidateEntries(isResourceDb, numRecords, watermark);
      if !valid { return false; }
      if header.sortInfoId > 0 { firstRecord := header.sortInfoId; }
      if header.appInfoId > 0 { firstRecord := header.appInfoId; }
      gap := Wrap32(firstRecord - TABLE_START - TableSize(isResourceDb, numRecords));
      isEmptyDb := numRecords == 0;
      return true;
    }

    method FixupEntries(offset: nat, numRecords: nat, delta: int) returns (end: nat)
      requires offset == TABLE_START && offset + TableSize(isResourceDb, numRecords) <= buffer.Length
      modifies buffer
      ensures buffer[..] == ShiftEntries(old(buffer[..]), isResourceDb, numRecords, delta)
      ensures end == offset + TableSize(isResourceDb, numRecords)
      ensures buffer[..][..end] == ShiftEntries(old(buffer[..])[..end], isResourceDb, numRecords, delta)
    {
      hide ShiftAt;
      end := offset;
      for i := 0 to numRecords
        invariant end == offset + TableSize(isResourceDb, i)
        invariant buffer[..] == ShiftEntries(old(buffer[..]), isResourceDb, i, delta)
      {
        ShiftWord(buffer, LocalPlace(isResourceDb, i), delta);
        end := end + EntrySize(isResourceDb);
      }
      ShiftEntriesPrefix(old(buffer[..]), isResourceDb, numRecords, delta, end);
    }

    /** The head of the old buffer in the new one, all offsets moved. */
    method CopyTable(src: array<byte>, ghost data: seq<byte>, delta: int) returns (offset: nat)
      requires buffer != src && TABLE_START <= |data| && data <= src[..]
      requires OfResources(data) == isResourceDb && TableEnd(data) <= |data| && TableEnd(data) <= buffer.Length
      modifies buffer
      ensures offset == TableEnd(data)
      ensures buffer[..][..offset]
           == ShiftEntries(ShiftInfo(data[..offset], delta), OfResources(data), RecordCount(data), delta)
    {
      hide ShiftEntries, ShiftInfo, RecordCount, OfResources;
      var numRecords := CopyHead(buffer, src, data, isResourceDb, delta);
      offset := FixupEntries(TABLE_START, numRecords, delta);
    }

    /** Replaces the buffer by one with a gap of two. */
    method FixupGap()
      requires Valid() && Inspected(Image()) == Accepted(isResourceDb, gap, isEmptyDb) && Relocatable(Image(), wide)
      modifies this`buffer, this`bufferSize
      ensures Valid() && fresh(buffer) && old(GapFits(Image(), SignedGap(Image())))
      ensures Image() == Relocated(old(Image()), old(SignedGap(Image())))
    {
      hide PutAt, ShiftEntries, ShiftInfo, Inspected, Relocated, RecordCount, TableEnd, OfResources, ReadHeader, Zeros;
      hide FirstOfAll, SignedGap, Relocatable, AsSize, Signed32, GapFits;
      ghost var data := Image();
      InspectedKind(data);
      FixupGapSizes(data, wide);
      var originalBufferSize, originalBuffer := bufferSize, buffer;
      var delta := Signed32(2 - gap);
      bufferSize := AsSize(bufferSize + delta, wide);
      buffer := new byte[AsSize(originalBufferSize + bufferSize, wide)](_ => 0);
      var offset := CopyTable(originalBuffer, data, delta);
      CopyTail(buffer, originalBuffer, data, offset, AsSize(offset + gap, wide),
               AsSize(originalBufferSize - offset - gap, wide));
    }

    /** Only Palm OS 3 needs the gap of two. A movable image loses nothing, a rejected one is left alone. */
    method PreprocessDb(uiInitialized: bool, osMajorVersion: nat)
      requires Valid()
      requires uiInitialized && osMajorVersion == 3 ==>
        Inspected(Image()).Accepted? && Inspected(Image()).gap != 2 ==> Relocatable(Image(), wide)
      modifies this
      ensures Valid()
      ensures var was, moves := old(Image()), uiInitialized && osMajorVersion == 3;
        && (moves && Inspected(was).Accepted? && Inspected(was).gap != 2 ==>
              GapFits(was, SignedGap(was)) && Image() == Relocated(was, SignedGap(was)))
        && (!(moves && Inspected(was).Accepted? && Inspected(was).gap != 2) ==> Image() == was)
        && (moves && Movable(was) ==>
              && Inspected(Image()) == Inspected(was).(gap := 2)
              && Readable(Image()) && Readable(was) && ReadDb(Image()) == ReadDb(was).(gapSize := 2))
    {
      hide Inspected, Relocated, Movable, TableEnd, ReadDb, Readable, FirstOfAll, Relocatable;
      if !uiInitialized || osMajorVersion != 3 { return; }
      ghost var was := Image();
      var ok := InspectDb();
      PreprocessedMeaning(was);
      if !ok { return; }
      if gap != 2 { FixupGap(); }
    }
  }

  /** What FixupGap computes in a size_t and on 32 bits. */
  lemma FixupGapSizes(data: seq<byte>, wide: bool)
    requires Inspected(data).Accepted? && Relocatable(data, wide)
    ensures var gap, end, from := Inspected(data).gap, TableEnd(data), TableEnd(data) + SignedGap(data);
      && Signed32(2 - gap) == 2 + end - from
      && AsSize(|data| + Signed32(2 - gap), wide) == |data| + 2 + end - from < MAX32
      && AsSize(2 * |data| + Signed32(2 - gap), wide) == 2 * |data| + 2 + end - from
      && AsSize(end + gap, wide) == from && AsSize(|data| - end - gap, wide) == |data| - from
      && GapFits(data, SignedGap(data)) && 0 <= from <= |data| && TABLE_START <= end <= |data|
  {
    hide Inspected, FirstOfAll, TableEnd, CopyInside;
    AcceptedGap(data);
    GapInBounds(data, wide);
    SizeWraps(|data| + 2 - SignedGap(data), wide);
    SizeWraps(2 * |data| + 2 - SignedGap(data), wide);
  }

  /** A reader may take the fields of the image at face value. */
  predicate Readable(data: seq<byte>) {
    |data| >= TABLE_START && TableEnd(data) <= |data| && AsciiBytes(Terminated(ReadHeader(data).name))
  }

  lemma PreprocessedMeaning(data: seq<byte>)
    ensures Movable(data) ==>
      && Inspected(data).Accepted? && Readable(data)
      && |data| >= TABLE_START && GapFits(data, SignedGap(data))
      && (Inspected(data).gap == 2 ==> ReadDb(data) == ReadDb(data).(gapSize := 2))
      && var moved := Relocated(data, SignedGap(data));
      && Inspected(moved) == Inspected(data).(gap := 2)
      && Readable(moved) && ReadDb(moved) == ReadDb(data).(gapSize := 2)
  {
    hide Inspected, Relocated, Movable, ReadDb, AsciiBytes, Terminated, ReadHeader;
    if Movable(data) {
      MovableGap(data);
      RelocationKeepsMeaning(data);
      RelocatedIsAccepted(data);
    }
  }

  lemma InspectedKind(data: seq<byte>)
    requires Inspected(data).Accepted?
    ensures |data| >= TABLE_START && Inspected(data).resource == OfResources(data) && Inspected(data).gap >= 0
    ensures TableEnd(data) == TABLE_START + TableSize(Inspected(data).resource, RecordCount(data)) <= |data|
  {
    hide NameOk, InfoValid, EntriesValid, ReadHeader;
  }

  /** Header and entries in front, two zeros, and the blocks behind the old gap. */
  lemma Assembled(data: seq<byte>, gap: int, original: seq<byte>, shifted: seq<byte>, result: seq<byte>)
    requires |data| >= TABLE_START && GapFits(data, gap) && data <= original
    requires TableEnd(data) + 2 <= |shifted| && TableEnd(data) + 2 + (|data| - TableEnd(data) - gap) <= |shifted|
    requires shifted[..TableEnd(data)]
          == ShiftEntries(ShiftInfo(data[..TableEnd(data)], 2 - gap), OfResources(data), RecordCount(data), 2 - gap)
    requires result == PutAt(shifted[TableEnd(data) := 0][TableEnd(data) + 1 := 0], TableEnd(data) + 2,
                             original[TableEnd(data) + gap..|data|])
    ensures |data| + 2 - gap <= |result| && result[..|data| + 2 - gap] == Relocated(data, gap)
  {
    hide ShiftEntries, ShiftInfo, TableEnd;
    var end := TableEnd(data);
    var tail := data[end + gap..];
    assert original[end + gap..|data|] == tail;
    assert result[..end] == shifted[..end];
    assert result[end..end + 2] == [0, 0];
    assert result[end + 2..end + 2 + |tail|] == tail;
    assert result[..|data| + 2 - gap]
        == result[..end] + result[end..end + 2] + result[end + 2..end + 2 + |tail|];
  }

  lemma {:induction false} TerminatedAt(field: seq<byte>, i: nat)
    requires i <= |field| && 0 !in field[..i] && (i < |field| ==> field[i] == 0)
    ensures Terminated(field) == field[..i]
  {
    if i > 0 {
      assert field[0] == field[..i][0];
      assert field[1..][..i - 1] == field[..i][1..];
      TerminatedAt(field[1..], i - 1);
    }
  }

  lemma SliceOfArray(whole: seq<byte>, size: nat, from: nat, to: nat)
    requires from <= to <= size <= |whole|
    ensures whole[..size][from..to] == whole[from..to]
  {
  }
}
