/** src/cloudpilot/emulator/DbExporter.cpp: a database of the device is written as a file. The calls
    into the Palm OS and into the zip library may fail at any point. */
module DbExporter {
  import opened Bytes
  import opened PalmDatabase
  import opened Wrappers

  datatype Child =
    | ResourceInfo(kind: Long, resourceId: Word, lid: Long)
    | RecordInfo(attributes: Word, uniqueId: Long, lid: Long)

  /** What the data manager says about a database; the chunks are found by their local id, and
      noChunkSize is the size it reports where there is no chunk. */
  datatype DeviceDatabase = DeviceDatabase(
    name: seq<byte>, attributes: Word, version: Word,
    creationDate: Long, modificationDate: Long, lastBackupDate: Long, modificationNumber: Long,
    appInfo: Long, sortInfo: Long, kind: Long, creator: Long,
    children: seq<Child>, chunks: map<Long, seq<byte>>, noChunkSize: Long)
  {
    predicate Valid() {
      && |name| == NAME_LENGTH && |children| < MAX16 && 0 !in chunks
      && forall i :: 0 <= i < |children| ==> children[i].ResourceInfo? == IsResourceDb(attributes)
    }

    /** Every local id but zero has a chunk. */
    predicate Complete() {
      && (appInfo != 0 ==> appInfo in chunks) && (sortInfo != 0 ==> sortInfo in chunks)
      && forall c :: c in children && c.lid != 0 ==> c.lid in chunks
    }

    function Chunk(lid: Long): seq<byte> {
      if lid in chunks then chunks[lid] else []
    }

    function SizeOf(lid: Long): Long {
      if lid in chunks then Wrap32(|chunks[lid]|) else noChunkSize
    }

    function Info(lid: Long): Option<seq<byte>> {
      if lid == 0 then None else Some(Chunk(lid))
    }

    /** The entry keeps eight bits of the attributes and 24 of the id. */
    function ItemOf(c: Child): Item {
      match c
      case ResourceInfo(kind, id, lid) => Resource(Put32(kind), id, Chunk(lid))
      case RecordInfo(attributes, id, lid) => Record(attributes % 0x100, id % 0x100_0000, Chunk(lid))
    }

    function Items(): (r: seq<Item>)
      requires Valid()
      ensures |r| == |children| && ItemsInRange(r, IsResourceDb(attributes))
      ensures forall i :: 0 <= i < |r| ==> r[i] == ItemOf(children[i])
    {
      seq(|children|, i requires 0 <= i < |children| => ItemOf(children[i]))
    }

    // ---- what is announced

    function InfoStart(): nat {
      TABLE_START + TableSize(IsResourceDb(attributes), |children|) + 2
    }

    function SortStart(): int {
      if appInfo != 0 then Wrap32(InfoStart() + SizeOf(appInfo)) else InfoStart()
    }

    function FirstStart(): int {
      if sortInfo != 0 then Wrap32(SortStart() + SizeOf(sortInfo)) else SortStart()
    }

    /** dmHdrAttrOpen is cleared and the seed is not kept. */
    function FileHeader(): Header {
      Header(name, attributes % 0x8000, version, creationDate, modificationDate, lastBackupDate, modificationNumber,
             if appInfo != 0 then InfoStart() else 0, if sortInfo != 0 then SortStart() else 0,
             Put32(kind), Put32(creator), 0)
    }

    /** What a child adds to the offset of the next one. */
    function AnnouncedSize(c: Child): Long {
      if c.ResourceInfo? || c.lid != 0 then SizeOf(c.lid) else 0
    }

    /** The offset in the entry of child i. */
    function Announced(i: nat): int
      requires i <= |children|
    {
      if i == 0 then FirstStart() else Wrap32(Announced(i - 1) + AnnouncedSize(children[i - 1]))
    }

    function Entry(i: nat): (r: seq<byte>)
      requires Valid() && i < |children| && Is32(Announced(i))
      ensures |r| == EntrySize(IsResourceDb(attributes))
    {
      EntryBytes(ItemOf(children[i]), IsResourceDb(attributes), Announced(i))
    }

    /** The first k entries. */
    function Entries(k: nat): (r: seq<byte>)
      requires Valid() && k <= |children|
      ensures |r| == TableSize(IsResourceDb(attributes), k)
    {
      if k == 0 then []
      else
        AnnouncedIsLong(k - 1);
        Entries(k - 1) + Entry(k - 1)
    }

    lemma AnnouncedIsLong(i: nat)
      requires Valid() && i <= |children|
      ensures Is32(InfoStart()) && Is32(SortStart()) && Is32(FirstStart()) && Is32(Announced(i))
    {
    }

    // ---- what is written

    /** Where the chunk of child i is written. */
    function Position(i: nat): nat
      requires i <= |children|
    {
      if i == 0 then InfoStart() + |OptionBytes(Info(appInfo))| + |OptionBytes(Info(sortInfo))|
      else Position(i - 1) + |Chunk(children[i - 1].lid)|
    }

    function File(): seq<byte>
      requires Valid()
    {
      AnnouncedIsLong(0);
      HeaderBytes(FileHeader()) + (Put32(0) + Put16(|children|)) + Entries(|children|) + Put16(0)
      + OptionBytes(Info(appInfo)) + OptionBytes(Info(sortInfo)) + Contents(Items())
    }

    /** A resource without a chunk. */
    predicate IsHollow(i: nat)
      requires i < |children|
    {
      children[i].ResourceInfo? && children[i].lid == 0
    }

    /** How far the announced offset of child i has run ahead of its position. */
    function Drift(i: nat): nat
      requires i <= |children|
    {
      if i == 0 then 0 else Drift(i - 1) + if IsHollow(i - 1) then noChunkSize else 0
    }

    /** Everything but the hollow resources has a chunk, and all sizes that are announced add up to less
        than 4 GB. */
    predicate Exportable() {
      Valid() && Complete() && Position(|children|) + Drift(|children|) < MAX32
    }

    /** What the reader should make of the file. */
    function Expected(): Database
      requires Valid() && AsciiBytes(Terminated(name))
    {
      DatabaseOf(FileHeader(), DecodeAscii(Terminated(name)), 2, Info(appInfo), Info(sortInfo), Items())
    }
  }

  class ZipEntry {
    var out: seq<byte>

    /** zip_entry_write. */
    method Write(bytes: seq<byte>) returns (ok: bool)
      modifies this
      ensures ok ==> out == old(out) + bytes
    {
      ok := *;
      if ok { out := out + bytes; } else { out := *; }
    }
  }

  class DbExporter {
    const zip: ZipEntry
    var children: seq<Long>

    constructor (zip: ZipEntry)
      ensures this.zip == zip
    {
      this.zip := zip;
      children := [];
    }

    /** MemPtrSize of the locked chunk. */
    method LocalIdSize(db: DeviceDatabase, lid: Long) returns (size: Long)
      ensures size == db.SizeOf(lid)
    {
      size := db.noChunkSize;
      if lid in db.chunks { size := Wrap32(|db.chunks[lid]|); }
    }

    method WriteHeader(h: Header) returns (ok: bool)
      requires h.InRange()
      modifies zip
      ensures ok ==> zip.out == old(zip.out) + HeaderBytes(h)
    {
      hide Put16, Put32;
      ghost var was := zip.out;
      ok := zip.Write(h.name);
      if !ok { return; }
      ok := zip.Write(Put16(h.attributes));
      if !ok { return; }
      ok := zip.Write(Put16(h.version));
      if !ok { return; }
      ok := zip.Write(Put32(h.creationDate));
      if !ok { return; }
      assert zip.out == was + (h.name + Put16(h.attributes) + Put16(h.version) + Put32(h.creationDate));
      ok := zip.Write(Put32(h.modificationDate));
      if !ok { return; }
      ok := zip.Write(Put32(h.lastBackupDate));
      if !ok { return; }
      ok := zip.Write(Put32(h.modificationNumber));
      if !ok { return; }
      ok := zip.Write(Put32(h.appInfoId));
      if !ok { return; }
      assert zip.out == was + (h.name + Put16(h.attributes) + Put16(h.version) + Put32(h.creationDate)
                               + Put32(h.modificationDate) + Put32(h.lastBackupDate)
                               + Put32(h.modificationNumber) + Put32(h.appInfoId));
      ok := zip.Write(Put32(h.sortInfoId));
      if !ok { return; }
      ok := zip.Write(h.kind);
      if !ok { return; }
      ok := zip.Write(h.creator);
      if !ok { return; }
      ok := zip.Write(Put32(h.uniqueIdSeed));
    }

    method WriteChildList(numChildren: Word) returns (ok: bool)
      modifies zip
      ensures ok ==> zip.out == old(zip.out) + (Put32(0) + Put16(numChildren))
    {
      ok := zip.Write(Put32(0));
      if ok { ok := zip.Write(Put16(numChildren)); }
    }

    method WriteResourceEntry(kind: Long, id: Word, offset: Long) returns (ok: bool)
      modifies zip
      ensures ok ==> zip.out == old(zip.out) + EntryBytes(Resource(Put32(kind), id, []), true, offset)
    {
      hide Put16, Put32;
      ok := zip.Write(Put32(kind));
      if ok { ok := zip.Write(Put16(id)); }
      if ok { ok := zip.Write(Put32(offset)); }
    }

    method WriteRecordEntry(attr: Word, id: Long, offset: Long) returns (ok: bool)
      modifies zip
      ensures ok ==> zip.out == old(zip.out) + EntryBytes(Record(attr % 0x100, id % 0x100_0000, []), false, offset)
    {
      hide Put32;
      ok := zip.Write(Put32(offset));
      if ok { ok := zip.Write([attr % 0x100]); }
      if ok { ok := zip.Write([id / 0x1_0000 % 0x100]); }
      if ok { ok := zip.Write([id / 0x100 % 0x100]); }
      if ok { ok := zip.Write([id % 0x100]); }
      Low24(id);
    }

    /** Locking may fail for any local id, and does for one without a chunk. */
    method WriteChunk(db: DeviceDatabase, lid: Long) returns (ok: bool)
      modifies zip
      ensures ok ==> lid in db.chunks && zip.out == old(zip.out) + db.chunks[lid]
    {
      ok := *;
      if lid !in db.chunks || !ok { return false; }
      ok := zip.Write(db.chunks[lid]);
    }

    /** Writes one entry per child, announcing where its chunk is going to stand. */
    method WriteEntries(db: DeviceDatabase, start: Long) returns (ok: bool)
      requires db.Valid() && start == db.FirstStart()
      modifies this`children, zip
      ensures ok ==> children == Lids(db) && zip.out == old(zip.out) + db.Entries(|db.children|)
    {
      hide EntryBytes, DeviceDatabase.SizeOf, DeviceDatabase.FirstStart;
      ghost var was := zip.out;
      var resource := IsResourceDb(db.attributes);
      var currentOffset: Long := start;
      children := [];
      for i := 0 to |db.children|
        invariant currentOffset == db.Announced(i) && children == Lids(db)[..i]
        invariant zip.out == was + db.Entries(i)
      {
        ok := *;
        if !ok { return; }
        var child := db.children[i];
        children := children + [child.lid];
        if resource {
          ok := WriteResourceEntry(child.kind, child.resourceId, currentOffset);
        } else {
          ok := WriteRecordEntry(child.attributes, child.uniqueId, currentOffset);
        }
        if !ok { return; }
        EntryIgnoresData(db, i);
        assert zip.out == was + (db.Entries(i) + db.Entry(i));
        if resource || child.lid != 0 {
          var size := LocalIdSize(db, child.lid);
          currentOffset := Wrap32(currentOffset + size);
        }
        AnnouncedStep(db, i);
      }
      ok := true;
    }

    /** Writes the chunks of all children that have one. */
    method WriteChunks(db: DeviceDatabase) returns (ok: bool)
      requires db.Valid() && children == Lids(db)
      modifies zip
      ensures ok ==> zip.out == old(zip.out) + Contents(db.Items())
      ensures ok ==> forall c :: c in db.children && c.lid != 0 ==> c.lid in db.chunks
    {
      ghost var items := db.Items();
      ghost var was := zip.out;
      for i := 0 to |children|
        invariant was + Contents(items) == zip.out + Contents(items[i..])
        invariant forall k :: 0 <= k < i ==> db.children[k].lid == 0 || db.children[k].lid in db.chunks
      {
        ContentsStep(items, i, zip.out);
        if children[i] != 0 {
          ok := WriteChunk(db, children[i]);
          if !ok { return; }
        }
      }
      ok := true;
    }

    /** The header with the offsets of the info blocks, and the offset of the first child. */
    method PlanHeader(db: DeviceDatabase) returns (hdr: Header, currentOffset: Long)
      requires db.Valid()
      ensures hdr.InRange() && hdr == db.FileHeader() && currentOffset == db.FirstStart()
    {
      hide DeviceDatabase.SizeOf;
      currentOffset := TABLE_START + 2 + TableSize(IsResourceDb(db.attributes), |db.children|);
      var appInfoOfst, sortInfoOfst: Long := 0, 0;
      if db.appInfo != 0 {
        appInfoOfst := currentOffset;
        var size := LocalIdSize(db, db.appInfo);
        currentOffset := Wrap32(currentOffset + size);
      }
      if db.sortInfo != 0 {
        sortInfoOfst := currentOffset;
        var size := LocalIdSize(db, db.sortInfo);
        currentOffset := Wrap32(currentOffset + size);
      }
      hdr := Header(db.name, db.attributes % 0x8000, db.version, db.creationDate, db.modificationDate,
                    db.lastBackupDate, db.modificationNumber, appInfoOfst, sortInfoOfst,
                    Put32(db.kind), Put32(db.creator), 0);
    }

    method WriteInfo(db: DeviceDatabase, lid: Long) returns (ok: bool)
      modifies zip
      ensures ok ==> zip.out == old(zip.out) + OptionBytes(db.Info(lid)) && (lid != 0 ==> lid in db.chunks)
    {
      ok := true;
      if lid != 0 { ok := WriteChunk(db, lid); }
    }

    /** A finished export has written exactly the file of the database; FileIsImage, OffsetsAreHonest and
        ExportReadsBack say what that file is worth. */
    method Export(db: DeviceDatabase) returns (ok: bool)
      requires db.Valid()
      modifies this`children, zip
      ensures ok ==> db.Complete() && zip.out == old(zip.out) + db.File()
    {
      hide HeaderBytes, Contents, Header.InRange, DeviceDatabase.FileHeader, DeviceDatabase.Info;
      hide DeviceDatabase.Entries, DeviceDatabase.FirstStart, Put16, Put32;
      ok := *;
      if !ok { return; }
      ghost var was := zip.out;
      var hdr, offset := PlanHeader(db);
      ok := WriteHeader(hdr);
      if !ok { return; }
      ok := WriteChildList(|db.children|);
      if !ok { return; }
      ok := WriteEntries(db, offset);
      if !ok { return; }
      ok := zip.Write(Put16(0));
      if !ok { return; }
      ok := WriteInfo(db, db.appInfo);
      if !ok { return; }
      ok := WriteInfo(db, db.sortInfo);
      if !ok { return; }
      ok := WriteChunks(db);
      Joined(was, HeaderBytes(hdr), Put32(0) + Put16(|db.children|), db.Entries(|db.children|), Put16(0),
             OptionBytes(db.Info(db.appInfo)), OptionBytes(db.Info(db.sortInfo)), Contents(db.Items()));
    }
  }

  /** The entry does not depend on the data of the item. */
  lemma EntryIgnoresData(db: DeviceDatabase, i: nat)
    requires db.Valid() && i < |db.children|
    ensures Is32(db.Announced(i))
    ensures var c, resource := db.children[i], IsResourceDb(db.attributes);
      db.Entry(i) == if resource then EntryBytes(Resource(Put32(c.kind), c.resourceId, []), true, db.Announced(i))
                     else EntryBytes(Record(c.attributes % 0x100, c.uniqueId % 0x100_0000, []), false, db.Announced(i))
  {
    hide Put16, Put24, Put32;
    db.AnnouncedIsLong(i);
  }

  lemma AnnouncedStep(db: DeviceDatabase, i: nat)
    requires db.Valid() && i < |db.children|
    ensures Is32(db.Announced(i)) && Is32(db.Announced(i + 1))
    ensures var lid := db.children[i].lid;
      db.Announced(i + 1) == if IsResourceDb(db.attributes) || lid != 0 then Wrap32(db.Announced(i) + db.SizeOf(lid))
                             else db.Announced(i)
    ensures db.Entries(i + 1) == db.Entries(i) + db.Entry(i)
  {
    hide DeviceDatabase.SizeOf, EntryBytes, DeviceDatabase.FirstStart;
    db.AnnouncedIsLong(i);
    db.AnnouncedIsLong(i + 1);
  }

  lemma Joined(s: seq<byte>, a: seq<byte>, b: seq<byte>, c: seq<byte>, d: seq<byte>, e: seq<byte>, f: seq<byte>,
               g: seq<byte>)
    ensures s + a + b + c + d + e + f + g == s + (a + b + c + d + e + f + g)
  {
    assert s + a + b + c == s + (a + b + c);
    assert s + (a + b + c) + d + e == s + (a + b + c + d + e);
  }

  // ---- announced offsets and written positions ------------------------------------------------------

  /** The announced offset has run ahead by what the hollow resources before it were counted for. */
  lemma {:induction false} AnnouncedIs(db: DeviceDatabase, i: nat)
    requires db.Exportable() && i <= |db.children|
    ensures db.Announced(i) == db.Position(i) + db.Drift(i)
    ensures db.Position(i) <= db.Position(|db.children|) && db.Drift(i) <= db.Drift(|db.children|)
  {
    PositionGrows(db, i);
    if i == 0 {
      FirstIs(db);
    } else {
      AnnouncedIs(db, i - 1);
      var c := db.children[i - 1];
      assert c in db.children;
      assert db.AnnouncedSize(c) == |db.Chunk(c.lid)| + if db.IsHollow(i - 1) then db.noChunkSize else 0 by {
        ChunkSize(db, c, i);
      }
    }
  }

  lemma ChunkSize(db: DeviceDatabase, c: Child, i: nat)
    requires db.Exportable() && 0 < i <= |db.children| && c == db.children[i - 1]
    ensures |db.Chunk(c.lid)| < MAX32 && (c.lid != 0 ==> c.lid in db.chunks)
  {
    assert c in db.children;
    PositionGrows(db, i);
  }

  lemma {:induction false} PositionGrows(db: DeviceDatabase, i: nat)
    requires i <= |db.children|
    ensures db.Position(i) <= db.Position(|db.children|) && db.Drift(i) <= db.Drift(|db.children|)
    decreases |db.children| - i
  {
    if i < |db.children| { PositionGrows(db, i + 1); }
  }

  lemma FirstIs(db: DeviceDatabase)
    requires db.Exportable()
    ensures db.FirstStart() == db.Position(0) < MAX32
    ensures db.SortStart() == db.InfoStart() + |OptionBytes(db.Info(db.appInfo))|
  {
    hide Wrap32, DeviceDatabase.InfoStart, Contents;
    PositionGrows(db, 0);
    var app, sort := |db.Chunk(db.appInfo)|, |db.Chunk(db.sortInfo)|;
    if db.appInfo != 0 {
      NoWrap(app);
      NoWrap(db.InfoStart() + app);
    }
    if db.sortInfo != 0 {
      NoWrap(sort);
      NoWrap(db.SortStart() + sort);
    }
  }

  lemma NoWrap(n: nat)
    requires n < MAX32
    ensures Wrap32(n) == n
  {
  }

  lemma {:induction false} EntryStands(db: DeviceDatabase, i: nat, k: nat)
    requires db.Valid() && i < k <= |db.children|
    ensures Is32(db.Announced(i))
    ensures db.Entries(k)[TableSize(IsResourceDb(db.attributes), i)..][..EntrySize(IsResourceDb(db.attributes))]
         == db.Entry(i)
  {
    hide EntryBytes, DeviceDatabase.Announced;
    AnnouncedStep(db, k - 1);
    var r := IsResourceDb(db.attributes);
    var at, size, before := TableSize(r, i), EntrySize(r), db.Entries(k - 1);
    if i < k - 1 {
      EntryStands(db, i, k - 1);
      assert (before + db.Entry(k - 1))[at..][..size] == before[at..][..size];
    } else {
      assert (before + db.Entry(i))[at..] == db.Entry(i);
    }
  }

  lemma {:induction false} TailStands(db: DeviceDatabase, i: nat)
    requires db.Valid() && i <= |db.children|
    ensures db.Position(i) <= |db.File()| && db.File()[db.Position(i)..] == Contents(db.Items()[i..])
  {
    hide HeaderBytes, OptionBytes, DeviceDatabase.File, DeviceDatabase.Info, DeviceDatabase.Entries;
    hide DeviceDatabase.Items, DeviceDatabase.Valid, Contents;
    if i == 0 {
      FilePieces(db);
      assert db.Items()[0..] == db.Items();
    } else {
      TailStands(db, i - 1);
      FirstChunk(db, i - 1);
      TailBehind(db.File(), db.Position(i - 1), db.Chunk(db.children[i - 1].lid), Contents(db.Items()[i..]));
    }
  }

  lemma FirstChunk(db: DeviceDatabase, i: nat)
    requires db.Valid() && i < |db.children|
    ensures Contents(db.Items()[i..]) == db.Chunk(db.children[i].lid) + Contents(db.Items()[i + 1..])
  {
    assert db.Items()[i..][0] == db.Items()[i] && db.Items()[i..][1..] == db.Items()[i + 1..];
  }

  lemma TailBehind(s: seq<byte>, at: nat, a: seq<byte>, b: seq<byte>)
    requires at <= |s| && s[at..] == a + b
    ensures at + |a| <= |s| && s[at..at + |a|] == a && s[at + |a|..] == b
  {
    assert s[at..][..|a|] == a && s[at..][|a|..] == b;
  }

  lemma ChunkStands(db: DeviceDatabase, i: nat)
    requires db.Valid() && i < |db.children|
    ensures var data := db.Chunk(db.children[i].lid);
      db.Position(i) + |data| <= |db.File()| && db.File()[db.Position(i)..db.Position(i) + |data|] == data
  {
    hide DeviceDatabase.File, DeviceDatabase.Position, DeviceDatabase.Items, DeviceDatabase.Chunk, Contents;
    TailStands(db, i);
    FirstChunk(db, i);
    TailBehind(db.File(), db.Position(i), db.Chunk(db.children[i].lid), Contents(db.Items()[i + 1..]));
  }

  /** The table and the chunks of the file. */
  lemma FilePieces(db: DeviceDatabase)
    requires db.Valid()
    ensures var table := TABLE_START + TableSize(IsResourceDb(db.attributes), |db.children|);
      && table <= db.Position(0) <= |db.File()|
      && db.File()[TABLE_START..table] == db.Entries(|db.children|)
      && db.File()[db.Position(0)..] == Contents(db.Items())
  {
    hide HeaderBytes, OptionBytes, Contents, DeviceDatabase.Info, DeviceDatabase.Entries, DeviceDatabase.FileHeader;
    db.AnnouncedIsLong(0);
    HeaderFits(db);
    Pieces(db.File(), HeaderBytes(db.FileHeader()) + (Put32(0) + Put16(|db.children|)), db.Entries(|db.children|),
           Put16(0), OptionBytes(db.Info(db.appInfo)), OptionBytes(db.Info(db.sortInfo)), Contents(db.Items()));
  }

  lemma HeaderFits(db: DeviceDatabase)
    requires db.Valid()
    ensures db.FileHeader().InRange()
  {
    db.AnnouncedIsLong(0);
  }

  lemma EntrySays(item: Item, resource: bool, local: Long)
    requires EntryInRange(item, resource)
    ensures var p := if resource then 6 else 0;
      EntryBytes(item, resource, local)[p..p + 4] == Put32(local)
  {
    hide Put32, Put24, Put16;
  }

  /** The entry of child i announces its offset, and its chunk stands at its position. */
  lemma EntryAndChunk(db: DeviceDatabase, i: nat)
    requires db.Valid() && i < |db.children|
    ensures var file, resource, data := db.File(), IsResourceDb(db.attributes), db.Chunk(db.children[i].lid);
      var at := TABLE_START + TableSize(resource, i);
      && at + EntrySize(resource) <= |file| && LocalAt(file, resource, at) == db.Announced(i)
      && db.Position(i) + |data| <= |file| && file[db.Position(i)..db.Position(i) + |data|] == data
  {
    hide Contents, EntryBytes, DeviceDatabase.File, DeviceDatabase.Entries, DeviceDatabase.Announced, Get32, Put32;
    hide DeviceDatabase.Position, DeviceDatabase.Valid, DeviceDatabase.Chunk, LocalAt, DeviceDatabase.Items;
    var file, resource, n := db.File(), IsResourceDb(db.attributes), |db.children|;
    ChunkStands(db, i);
    FilePieces(db);
    EntryStands(db, i, n);
    var from, table := TableSize(resource, i), TABLE_START + TableSize(resource, n);
    SliceWithin(file, TABLE_START, table, from, EntrySize(resource));
    EntryIs(db, i);
    EntryWord(file, resource, TABLE_START + from, db.Entry(i), db.Announced(i));
  }

  lemma EntryIs(db: DeviceDatabase, i: nat)
    requires db.Valid() && i < |db.children|
    ensures Is32(db.Announced(i))
    ensures var p := if IsResourceDb(db.attributes) then 6 else 0; db.Entry(i)[p..p + 4] == Put32(db.Announced(i))
  {
    hide DeviceDatabase.Announced, Put32, EntryBytes;
    db.AnnouncedIsLong(i);
    EntrySays(db.ItemOf(db.children[i]), IsResourceDb(db.attributes), db.Announced(i));
  }

  lemma SliceWithin(s: seq<byte>, a: nat, b: nat, from: nat, n: nat)
    requires a <= b <= |s| && from + n <= b - a
    ensures s[a..b][from..][..n] == s[a + from..a + from + n]
  {
  }

  lemma EntryWord(file: seq<byte>, resource: bool, at: nat, entry: seq<byte>, local: Long)
    requires at + EntrySize(resource) <= |file| && |entry| == EntrySize(resource)
    requires file[at..at + EntrySize(resource)] == entry
    requires var p := if resource then 6 else 0; entry[p..p + 4] == Put32(local)
    ensures LocalAt(file, resource, at) == local
  {
    hide Get32, Put32;
    var p := if resource then 6 else 0;
    SliceOfSlice(file, at, EntrySize(resource), p, p + 4);
    Read32(file, at + p, local);
  }

  lemma {:induction false} NoDrift(db: DeviceDatabase, i: nat)
    requires i <= |db.children|
    ensures db.Drift(i) == 0 <==> db.noChunkSize == 0 || forall k :: 0 <= k < i ==> !db.IsHollow(k)
  {
    if i > 0 { NoDrift(db, i - 1); }
  }

  /** The offset of every child that has a chunk is the position of that chunk exactly if the size reported
      for no chunk is zero or no such child follows a hollow resource. */
  lemma OffsetsAreHonest(db: DeviceDatabase)
    requires db.Exportable()
    ensures (forall j :: 0 <= j < |db.children| && db.children[j].lid != 0 ==> db.Announced(j) == db.Position(j))
      <==> db.noChunkSize == 0
           || forall k, j :: 0 <= k < j < |db.children| && db.IsHollow(k) ==> db.children[j].lid == 0
  {
    hide DeviceDatabase.Exportable, DeviceDatabase.Announced, DeviceDatabase.Position, DeviceDatabase.Drift;
    forall j | 0 <= j < |db.children|
      ensures db.Announced(j) == db.Position(j) <==> db.noChunkSize == 0 || forall k :: 0 <= k < j ==> !db.IsHollow(k)
    {
      AnnouncedIs(db, j);
      NoDrift(db, j);
    }
  }

  // ---- reading the file back ---------------------------------------------------------------------

  /** No hollow resource has anything behind it, or it is counted for nothing. */
  predicate HollowOnlyLast(db: DeviceDatabase) {
    db.noChunkSize == 0 || forall i :: 0 <= i < |db.children| - 1 ==> !db.IsHollow(i)
  }

  lemma {:induction false} EntriesAreTable(db: DeviceDatabase, k: nat)
    requires db.Exportable() && HollowOnlyLast(db) && k <= |db.children|
    ensures StartsFit(db.Items()[k..], db.Position(k)) && StartsFit(db.Items(), db.Position(0))
    ensures db.Entries(k) + EntryTable(db.Items()[k..], IsResourceDb(db.attributes), db.Position(k))
         == EntryTable(db.Items(), IsResourceDb(db.attributes), db.Position(0))
  {
    hide DeviceDatabase.Announced, DeviceDatabase.Drift, Contents, EntryTable, ItemsInRange, DeviceDatabase.Entry;
    hide DeviceDatabase.Entries, DeviceDatabase.Position, DeviceDatabase.Chunk;
    var items, resource := db.Items(), IsResourceDb(db.attributes);
    PositionsAreLengths(db, k);
    PositionsAreLengths(db, 0);
    assert items[0..] == items;
    SmallFits(items, db.Position(0));
    SmallFits(items[k..], db.Position(k));
    InRangeFrom(items, resource, k);
    if k == 0 {
      NoEntries(db);
    } else {
      EntriesAreTable(db, k - 1);
      AnnouncedStep(db, k - 1);
      PlannedEntry(db, k - 1);
      InRangeFrom(items, resource, k - 1);
      PositionsAreLengths(db, k - 1);
      SmallFits(items[k - 1..], db.Position(k - 1));
      TableStep(items, resource, k - 1, db.Position(k - 1), db.Entries(k - 1));
    }
  }

  /** One entry more. */
  lemma TableStep(items: seq<Item>, resource: bool, i: nat, offset: nat, done: seq<byte>)
    requires i < |items| && ItemsInRange(items[i..], resource) && StartsFit(items[i..], offset)
    ensures ItemsInRange(items[i + 1..], resource) && StartsFit(items[i + 1..], offset + |items[i].data|)
    ensures EntryInRange(items[i], resource)
    ensures done + EntryTable(items[i..], resource, offset)
         == (done + EntryBytes(items[i], resource, offset))
            + EntryTable(items[i + 1..], resource, offset + |items[i].data|)
  {
    hide EntryBytes, EntryInRange;
    assert items[i..][0] == items[i] && items[i..][1..] == items[i + 1..];
    InRangeTail(items[i..], resource);
  }

  lemma NoTable(items: seq<Item>, resource: bool)
    ensures items[|items|..] == [] && ItemsInRange([], resource)
    ensures forall offset :: StartsFit([], offset) && EntryTable([], resource, offset) == []
  {
  }

  lemma NoEntries(db: DeviceDatabase)
    requires db.Valid()
    ensures db.Entries(0) == []
  {
  }

  lemma PlannedEntry(db: DeviceDatabase, i: nat)
    requires db.Exportable() && HollowOnlyLast(db) && i < |db.children|
    ensures db.Position(i) < MAX32 && db.Position(i) == db.Announced(i)
    ensures EntryInRange(db.Items()[i], IsResourceDb(db.attributes))
    ensures db.Entry(i) == EntryBytes(db.Items()[i], IsResourceDb(db.attributes), db.Position(i))
    ensures db.Position(i + 1) == db.Position(i) + |db.Items()[i].data|
  {
    hide EntryBytes, DeviceDatabase.Announced, DeviceDatabase.Drift;
    AnnouncedIs(db, i);
    NoDrift(db, i);
  }

  lemma InRangeFrom(items: seq<Item>, resource: bool, k: nat)
    requires ItemsInRange(items, resource) && k <= |items|
    ensures ItemsInRange(items[k..], resource)
  {
  }

  lemma {:induction false} PositionsAreLengths(db: DeviceDatabase, k: nat)
    requires db.Exportable() && k <= |db.children|
    ensures db.Position(k) + |Contents(db.Items()[k..])| == db.Position(|db.children|) < MAX32
    decreases |db.children| - k
  {
    hide DeviceDatabase.Items;
    if k < |db.children| {
      PositionsAreLengths(db, k + 1);
      FirstChunk(db, k);
    } else {
      assert db.Items()[k..] == [];
    }
  }

  lemma FileFits(db: DeviceDatabase)
    requires db.Exportable()
    ensures Fits(db.FileHeader(), 2, db.Info(db.appInfo), db.Info(db.sortInfo), db.Items())
    ensures LayoutOf(IsResourceDb(db.attributes), |db.children|, 2, db.Info(db.appInfo), db.Info(db.sortInfo)).first
         == db.Position(0)
  {
    hide Contents, Put32, ItemsInRange, DeviceDatabase.Drift, DeviceDatabase.Items, Header.InRange;
    FirstIs(db);
    HeaderFits(db);
    PositionsAreLengths(db, 0);
    assert db.Items()[0..] == db.Items();
    SmallFits(db.Items(), db.Position(0));
    assert IsResourceDb(db.attributes % 0x8000) == IsResourceDb(db.attributes);
  }

  /** If no child but the last is hollow, or that counts for nothing, the file is the image of the database. */
  lemma FileIsImage(db: DeviceDatabase)
    requires db.Exportable() && HollowOnlyLast(db)
    ensures Fits(db.FileHeader(), 2, db.Info(db.appInfo), db.Info(db.sortInfo), db.Items())
    ensures db.File() == Image(db.FileHeader(), 2, db.Info(db.appInfo), db.Info(db.sortInfo), db.Items())
  {
    hide Contents, EntryTable, HeaderBytes, Put32, ItemsInRange, EntryBytes, DeviceDatabase.Drift, LayoutOf;
    hide DeviceDatabase.Entries, DeviceDatabase.Position, DeviceDatabase.Items, Fits, OptionBytes;
    var items, resource, n := db.Items(), IsResourceDb(db.attributes), |db.children|;
    FileFits(db);
    EntriesAreTable(db, n);
    NoTable(items, resource);
    assert db.Entries(n) + [] == db.Entries(n);
    assert Put16(0) == Zeros(2);
    assert IsResourceDb(db.attributes % 0x8000) == resource;
  }

  lemma HeadReadsBack(db: DeviceDatabase)
    requires db.Valid()
    ensures var file := db.File();
      && |file| >= TABLE_START && ReadHeader(file) == db.FileHeader() && Get32(file, 72) == 0
      && RecordCount(file) == |db.children| && OfResources(file) == IsResourceDb(db.attributes)
  {
    hide HeaderBytes, Contents, ReadHeader, Put32, Put16, Get16, Get32, Header.InRange, OptionBytes;
    hide DeviceDatabase.Entries, DeviceDatabase.Info;
    var file := db.File();
    HeaderFits(db);
    db.AnnouncedIsLong(0);
    HeadPieces(file, HeaderBytes(db.FileHeader()), Put32(0), Put16(|db.children|), db.Entries(|db.children|),
               Put16(0), OptionBytes(db.Info(db.appInfo)), OptionBytes(db.Info(db.sortInfo)), Contents(db.Items()));
    HeaderRoundTrip(db.FileHeader(), file[HEADER_SIZE..]);
    Read32(file, 72, 0);
    Read16(file, 76, |db.children|);
    assert IsResourceDb(db.attributes % 0x8000) == IsResourceDb(db.attributes);
  }

  /** A reader that accepts the file gives a hollow resource the bytes it was counted for. */
  lemma HollowIsFilled(db: DeviceDatabase, i: nat)
    requires db.Exportable() && i < |db.children| - 1 && db.IsHollow(i) && db.noChunkSize != 0
    requires Objection(db.File()) == None
    ensures var items := ReadDb(db.File()).items; i < |items| && items[i].data != []
  {
    hide DeviceDatabase.File, DeviceDatabase.Exportable, LocalAt, CheckItems, ReadItems, ReadHeader, Get32, Terminated;
    hide AsciiBytes, DeviceDatabase.Announced, DeviceDatabase.Drift, EntrySize, DeviceDatabase.Position, TableSize;
    hide DeviceDatabase.Valid, DecodeAscii, DatabaseOf, DeviceDatabase.FileHeader, HeaderBytes;
    ExportableIsValid(db);
    var file, resource, n := db.File(), IsResourceDb(db.attributes), |db.children|;
    HeadReadsBack(db);
    EntryAndChunk(db, i);
    EntryAndChunk(db, i + 1);
    AnnouncedIs(db, i);
    AnnouncedIs(db, i + 1);
    HollowStep(db, i);
    CheckItemsExact(file, resource, TABLE_START, n, Watermark(file));
    NextEntry(resource, i);
    ReadItemsAt(file, resource, TABLE_START, n, i);
  }

  lemma ExportableIsValid(db: DeviceDatabase)
    requires db.Exportable()
    ensures db.Valid()
  {
  }

  lemma NextEntry(resource: bool, i: nat)
    ensures TableSize(resource, i) + EntrySize(resource) == TableSize(resource, i + 1)
  {
  }

  lemma HollowStep(db: DeviceDatabase, i: nat)
    requires db.Valid() && i < |db.children| && db.IsHollow(i)
    ensures db.Position(i + 1) == db.Position(i) && db.Drift(i + 1) == db.Drift(i) + db.noChunkSize
  {
  }

  /** What is written reads back (the header without its open bit and seed, a gap of two, both info blocks
      and every child at its index, those without a chunk empty) exactly if hollow resources are counted for
      nothing or no child but the last is one. A name that is not ASCII is refused by the reader. */
  lemma ExportReadsBack(db: DeviceDatabase)
    requires db.Exportable()
    ensures !AsciiBytes(Terminated(db.name)) ==> Parsed(db.File()) == Err(NotAscii)
    ensures AsciiBytes(Terminated(db.name)) ==> (Parsed(db.File()) == Ok(db.Expected()) <==> HollowOnlyLast(db))
  {
    hide Image, Fits, ReadHeader, Get32, CheckItems, ReadDb, Terminated, AsciiBytes, DecodeAscii;
    hide DeviceDatabase.File, DeviceDatabase.FileHeader, DeviceDatabase.Position, DeviceDatabase.Drift;
    HeadReadsBack(db);
    NameIs(db);
    if AsciiBytes(Terminated(db.name)) {
      if HollowOnlyLast(db) {
        FileIsImage(db);
        ImageRoundTrip(db.FileHeader(), 2, db.Info(db.appInfo), db.Info(db.sortInfo), db.Items());
      } else if Parsed(db.File()) == Ok(db.Expected()) {
        var i :| 0 <= i < |db.children| - 1 && db.IsHollow(i);
        assert db.Items()[i] == db.ItemOf(db.children[i]);
        HollowIsFilled(db, i);
      }
    }
  }

  lemma NameIs(db: DeviceDatabase)
    ensures db.FileHeader().name == db.name
  {
  }

  /** An export whose second resource is announced behind its position. */
  lemma DriftingExport() returns (db: DeviceDatabase)
    ensures db.Exportable() && |db.children| == 2 && db.children[1].lid != 0 && db.Announced(1) == db.Position(1) + 4
    ensures AsciiBytes(Terminated(db.name)) && Parsed(db.File()) != Ok(db.Expected())
  {
    hide DeviceDatabase.File, Parsed, DeviceDatabase.Expected;
    var children := [ResourceInfo(0, 1, 0), ResourceInfo(0, 2, 1)];
    db := DeviceDatabase(Zeros(32), 1, 0, 0, 0, 0, 0, 0, 0, 0, 0, children, map[1 := [7]], 4);
    assert db.IsHollow(0) && !db.IsHollow(1);
    assert db.Drift(1) == 4 && db.Drift(2) == 4 && db.Position(1) == db.Position(0)
      && db.Position(2) == db.Position(1) + 1;
    AnnouncedIs(db, 1);
    assert Terminated(db.name) == [];
    ExportReadsBack(db);
  }

  /** The children's local ids, in order. */
  function Lids(db: DeviceDatabase): (r: seq<Long>)
    ensures |r| == |db.children| && forall i :: 0 <= i < |r| ==> r[i] == db.children[i].lid
  {
    seq(|db.children|, i requires 0 <= i < |db.children| => db.children[i].lid)
  }

  lemma Low24(id: Long)
    ensures Put24(id % 0x100_0000) == [id / 0x1_0000 % 0x100, id / 0x100 % 0x100, id % 0x100]
  {
    var n, high := id % 0x100_0000, id / 0x100_0000;
    var a, b, c := n / 0x1_0000, n / 0x100 % 0x100, n % 0x100;
    ThreeDigits(n);
    Quotients(high, a, b, c);
  }

  lemma ThreeDigits(n: nat)
    requires n < 0x100_0000
    ensures n == n / 0x1_0000 * 0x1_0000 + n / 0x100 % 0x100 * 0x100 + n % 0x100 && n / 0x1_0000 < 0x100
  {
    var m := n / 0x100;
    assert n == m * 0x100 + n % 0x100;
    assert m == m / 0x100 * 0x100 + m % 0x100;
    assert m / 0x100 == n / 0x1_0000;
  }

  lemma Quotients(high: nat, a: nat, b: nat, c: nat)
    requires a < 0x100 && b < 0x100 && c < 0x100
    ensures var id := high * 0x100_0000 + a * 0x1_0000 + b * 0x100 + c;
      id / 0x1_0000 % 0x100 == a && id / 0x100 % 0x100 == b && id % 0x100 == c
  {
    var id := high * 0x100_0000 + a * 0x1_0000 + b * 0x100 + c;
    assert id / 0x1_0000 == high * 0x100 + a;
    assert id / 0x100 == high * 0x1_0000 + a * 0x100 + b;
  }
}
