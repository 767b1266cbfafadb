/** src/cloudpilot/emulator/EmFileImport.cpp: the homebrew installation as a state machine over the
    calls of the data manager. */
module HomebrewInstall {
  import opened Bytes
  import opened PalmDatabase
  import opened DataManager
  import opened FileImport
  import opened Wrappers

  datatype State = InstallStart | InstallMiddle | InstallEnd | InstallDone

  function NameOf(data: seq<byte>): seq<byte>
    requires Whole(data)
  {
    Terminated(ReadHeader(data).name)
  }

  function SettingsOf(data: seq<byte>): Settings
    requires Whole(data)
  {
    var h := ReadHeader(data);
    Settings(h.attributes, h.version, h.creationDate, h.modificationDate, h.lastBackupDate, h.kind, h.creator)
  }

  /** Where the info blocks are taken to end: at the first four bytes of the first entry, read as the
      offset of a record even if the entry is one of a resource. */
  function ChunksStart(data: seq<byte>): nat
    requires Whole(data)
  {
    if RecordCount(data) > 0 then Get32(data, TABLE_START) else |data|
  }

  function AppEnd(data: seq<byte>): nat
    requires Whole(data)
  {
    Before(ReadHeader(data).sortInfoId, ChunksStart(data))
  }

  /** The info blocks stand in order, up to the first chunk; the validator does not look at them. */
  predicate InfoPlaced(data: seq<byte>)
    requires Whole(data)
  {
    var h, first := ReadHeader(data), FirstBlock(data);
    && (h.appInfoId > 0 ==> h.appInfoId <= Before(h.sortInfoId, first) <= |data|)
    && (h.sortInfoId > 0 ==> h.sortInfoId <= first <= |data|)
  }

  /** recSize, on 32 bits. */
  function BlockSize(start: nat, end: nat): Long {
    Wrap32(end - start)
  }

  /** There is a block, and no memory for one of that size. */
  predicate TooLarge(start: nat, end: nat, heap: nat) {
    start > 0 && BlockSize(start, end) > heap
  }

  /** Copying the block stays inside the file; nothing is copied if there is no memory for it. */
  predicate BlockInside(data: seq<byte>, start: nat, end: nat, heap: nat) {
    start == 0 || TooLarge(start, end, heap) || BlockSize(start, end) == 0 || start + BlockSize(start, end) <= |data|
  }

  predicate Oversized(data: seq<byte>, heap: nat)
    requires Whole(data)
  {
    var h := ReadHeader(data);
    TooLarge(h.appInfoId, AppEnd(data), heap) || TooLarge(h.sortInfoId, ChunksStart(data), heap)
  }

  /** The installation does not read behind the end of the file. */
  predicate ReadsInside(data: seq<byte>, heap: nat)
    requires Whole(data)
  {
    var h := ReadHeader(data);
    && BlockInside(data, h.appInfoId, AppEnd(data), heap)
    && (TooLarge(h.appInfoId, AppEnd(data), heap) || BlockInside(data, h.sortInfoId, ChunksStart(data), heap))
  }

  /** The database with the items of the first k entries. */
  function DbUpTo(data: seq<byte>, k: nat, modificationNumber: int): DeviceDb
    requires Whole(data) && k <= RecordCount(data)
  {
    var h := ReadHeader(data);
    DeviceDb(NameOf(data), SettingsOf(data), modificationNumber,
             InfoBlock(data, h.appInfoId, AppEnd(data)), InfoBlock(data, h.sortInfoId, ChunksStart(data)),
             Kept(Items(data)[..k]))
  }

  lemma ChunksStartOfRecords(data: seq<byte>)
    requires Whole(data) && (!OfResources(data) || RecordCount(data) == 0)
    ensures ChunksStart(data) == FirstBlock(data)
  {
  }

  /** Well placed info blocks of a record database are read as they stand, whatever the heap. */
  lemma RecordsReadInside(data: seq<byte>, heap: nat)
    requires Whole(data) && InfoPlaced(data) && |data| < MAX32 && (!OfResources(data) || RecordCount(data) == 0)
    ensures ReadsInside(data, heap)
    ensures var h := ReadHeader(data);
      Oversized(data, heap)
      <==> (h.appInfoId > 0 && Before(h.sortInfoId, FirstBlock(data)) - h.appInfoId > heap)
           || (h.sortInfoId > 0 && FirstBlock(data) - h.sortInfoId > heap)
  {
    hide ReadHeader, OfResources, RecordCount, FirstBlock, ChunksStart;
    ChunksStartOfRecords(data);
  }

  /** A resource database with well placed info blocks and a printable type code asks for far more memory
      than there is. */
  lemma ResourcesAreOversized(data: seq<byte>, heap: nat)
    requires Whole(data) && InfoPlaced(data) && OfResources(data) && RecordCount(data) > 0
    requires ReadHeader(data).appInfoId > 0 || ReadHeader(data).sortInfoId > 0
    requires data[TABLE_START] >= 0x20 && |data| + heap < 0x2000_0000
    ensures Oversized(data, heap) && ReadsInside(data, heap)
  {
    hide ReadHeader, OfResources, RecordCount, FirstBlock, ChunksStart;
    LargeStart(data);
    HeaderLongs(data);
  }

  lemma LargeStart(data: seq<byte>)
    requires Whole(data) && RecordCount(data) > 0 && data[TABLE_START] >= 0x20
    ensures ChunksStart(data) >= 0x2000_0000
  {
    hide ReadHeader, OfResources;
    LeadingByte(data, TABLE_START);
  }

  lemma LeadingByte(data: seq<byte>, at: nat)
    requires at + 4 <= |data|
    ensures Get32(data, at) >= data[at] as int * 0x100_0000
  {
  }

  /** An info block that is installed is the slice up to where it is taken to end. */
  lemma BlockIsSlice(data: seq<byte>, start: nat, end: nat, heap: nat)
    requires |data| < MAX32 && start > 0 && end < MAX32 && start < MAX32
    requires BlockInside(data, start, end, heap) && !TooLarge(start, end, heap)
    ensures start == end || start <= end <= |data|
    ensures Slice(data, start, end)
         == if BlockSize(start, end) == 0 then [] else data[start..start + BlockSize(start, end)]
  {
  }

  /** Two slices with the same start are equal exactly if they have the same end. */
  lemma SlicesDiffer(data: seq<byte>, start: nat, a: nat, b: nat)
    requires (start == a || start <= a <= |data|) && start <= b <= |data|
    ensures Slice(data, start, a) == Slice(data, start, b) <==> a == b
  {
    if a != b { assert |Slice(data, start, a)| != |Slice(data, start, b)|; }
  }

  /** The items installed are those prctool reads without the empty records. The info blocks installed are
      the well placed ones prctool reads exactly if there are none or the first four bytes of the first
      entry say where the first chunk starts. */
  lemma InstallsWhatIsParsed(data: seq<byte>, heap: nat, m: int)
    requires Whole(data) && AsciiBytes(NameOf(data))
    ensures DbUpTo(data, RecordCount(data), m).items == Kept(ReadDb(data).items)
    ensures InfoPlaced(data) && |data| < MAX32 && ReadsInside(data, heap) && !Oversized(data, heap) ==>
      var db, parsed, h := DbUpTo(data, RecordCount(data), m), ReadDb(data), ReadHeader(data);
      (db.appInfo == parsed.appInfo && db.sortInfo == parsed.sortInfo
       <==> (h.appInfoId == 0 && h.sortInfoId == 0) || ChunksStart(data) == FirstBlock(data))
  {
    hide Terminated, ReadHeader, Slice, AsciiBytes, ReadItems, Kept, ChunksStart, FirstBlock, OfResources, RecordCount;
    hide BlockInside, TooLarge;
    assert Items(data)[..RecordCount(data)] == Items(data);
    if InfoPlaced(data) && |data| < MAX32 && ReadsInside(data, heap) && !Oversized(data, heap) {
      InfoCompared(data, heap);
    }
  }

  lemma InfoCompared(data: seq<byte>, heap: nat)
    requires Whole(data) && InfoPlaced(data) && |data| < MAX32 && ReadsInside(data, heap) && !Oversized(data, heap)
    ensures var h, first := ReadHeader(data), FirstBlock(data);
      && (h.sortInfoId > 0 ==>
            (InfoBlock(data, h.sortInfoId, ChunksStart(data)) == InfoBlock(data, h.sortInfoId, first)
             <==> ChunksStart(data) == first))
      && (h.appInfoId > 0 && h.sortInfoId == 0 ==>
            (InfoBlock(data, h.appInfoId, AppEnd(data)) == InfoBlock(data, h.appInfoId, first)
             <==> ChunksStart(data) == first))
      && (h.sortInfoId > 0 ==> AppEnd(data) == Before(h.sortInfoId, first))
  {
    hide ReadHeader, Slice, FirstBlock, ChunksStart, OfResources, RecordCount, BlockSize, TooLarge, BlockInside;
    var h, first, end := ReadHeader(data), FirstBlock(data), ChunksStart(data);
    HeaderLongs(data);
    if h.sortInfoId > 0 {
      BlockIsSlice(data, h.sortInfoId, end, heap);
      SlicesDiffer(data, h.sortInfoId, end, first);
    } else if h.appInfoId > 0 {
      BlockIsSlice(data, h.appInfoId, end, heap);
      SlicesDiffer(data, h.appInfoId, end, first);
    }
  }

  lemma HeaderLongs(data: seq<byte>)
    requires Whole(data) && |data| < MAX32
    ensures Is32(ReadHeader(data).appInfoId) && Is32(ReadHeader(data).sortInfoId) && Is32(ChunksStart(data))
  {
  }

  /** The old database of that name is gone, or there was none to delete. */
  ghost predicate Replaced(before: map<nat, DeviceDb>, others: map<nat, DeviceDb>, name: seq<byte>) {
    others == before
    || exists id: nat :: id in before && InRam(id) && before[id].name == name && others == before - {id}
  }

  /** An image that fits the 32-bit offsets; if it is accepted, copying its info blocks and its first chunk
      does not leave the file, which the validator does not ensure. */
  predicate Installable(data: seq<byte>, wide: bool, heap: nat) {
    && |data| < (if wide then MAX32 else MAX32 / 2)
    && (Fault(data, wide) == None ==>
          ReadsInside(data, heap) && (wide || RecordCount(data) == 0 || !WrapsAround(data)))
  }

  lemma InstallableTiles(data: seq<byte>, wide: bool, heap: nat)
    requires Installable(data, wide, heap) && Fault(data, wide) == None
    ensures HeaderFault(data) == None && Whole(data) && Tiles(data) && ReadsInside(data, heap) && |data| < MAX32
  {
    hide HeaderFault, EntriesFault, ReadsInside, Orderly, WrapsAround, RecordCount, Repeats;
    if wide { AcceptsExactlyTilings(data); } else { NarrowAcceptsAlsoWrapping(data); }
  }

  lemma DbAtStart(data: seq<byte>, m: int)
    requires Whole(data)
    ensures var h := ReadHeader(data);
      DbUpTo(data, 0, m) == DeviceDb(NameOf(data), SettingsOf(data), m,
        if h.appInfoId > 0 then Some(Slice(data, h.appInfoId, AppEnd(data))) else None,
        if h.sortInfoId > 0 then Some(Slice(data, h.sortInfoId, ChunksStart(data))) else None, [])
  {
    hide ReadHeader, NameOf, SettingsOf, AppEnd, ChunksStart;
    assert Kept(Items(data)[..0]) == [];
  }

  /** The chunk of an entry of a tiling, and what the entry adds to the database. */
  lemma DbStep(data: seq<byte>, k: nat, m: int)
    requires Whole(data) && Tiles(data) && k < RecordCount(data)
    ensures Local(data, k) <= Local(data, k + 1) <= |data|
    ensures Items(data)[k] == ReadItem(data, OfResources(data), EntryPlace(data, k), Local(data, k + 1))
    ensures Items(data)[k].data == data[Local(data, k)..Local(data, k + 1)]
    ensures var item, db := Items(data)[k], DbUpTo(data, k, m);
      DbUpTo(data, k + 1, m)
      == db.(items := db.items + (if item.Record? && item.data == [] then [] else [item]))
  {
    hide ReadHeader, NameOf, SettingsOf, AppEnd, ChunksStart, LocalAt, InfoBlock, RecordCount, OfResources, ReadItems;
    assert Orderly(data, k);
    ItemAt(data, k);
    KeptStep(Items(data), k);
  }

  lemma KeptStep(items: seq<Item>, k: nat)
    requires k < |items|
    ensures Kept(items[..k + 1])
         == Kept(items[..k]) + (if items[k].Record? && items[k].data == [] then [] else [items[k]])
  {
    assert items[..k + 1][..k] == items[..k] && items[..k + 1][k] == items[k];
  }

  class EmFileImport {
    const data: seq<byte>
    const wide: bool
    const dm: DataManager
    var fState: State
    var fError: Option<ImportError>
    var fDBID: nat
    var fOpenID: nat
    var fCurrentEntry: nat
    /** The databases of the device without the one being installed. */
    ghost var others: map<nat, DeviceDb>

    constructor (data: seq<byte>, wide: bool, dm: DataManager)
      ensures this.data == data && this.wide == wide && this.dm == dm
      ensures fState == InstallStart && fError == None && fDBID == 0 && fOpenID == 0 && fCurrentEntry == 0
      ensures others == dm.dbs
    {
      this.data, this.wide, this.dm := data, wide, dm;
      fState, fError, fDBID, fOpenID, fCurrentEntry := InstallStart, None, 0, 0, 0;
      others := dm.dbs;
    }

    /** The database under installation is ours alone and, apart from it, the device is as it was. */
    ghost predicate Ours()
      reads this`fDBID, this`fOpenID, this`others, dm
    {
      && dm.Valid() && fDBID != 0 && InRam(fDBID) && fDBID in dm.dbs && fDBID !in others
      && dm.dbs == others[fDBID := dm.dbs[fDBID]]
      && (fOpenID != 0 ==> fOpenID in dm.opens && dm.opens[fOpenID] == fDBID)
      && forall r :: r in dm.opens && dm.opens[r] == fDBID ==> r == fOpenID
    }

    /** DeleteCurrentDatabase restores the rest. */
    ghost predicate Removable()
      reads this`fDBID, this`fOpenID, this`others, dm
    {
      && dm.Valid() && (fOpenID != 0 ==> Ours())
      && (dm.dependable ==> Ours() || (fDBID == 0 && dm.dbs == others))
    }

    ghost predicate Installing(k: nat)
      requires Whole(data) && k <= RecordCount(data)
      reads this`fDBID, this`fOpenID, this`others, dm
    {
      && Ours() && fOpenID != 0
      && dm.dbs[fDBID] == DbUpTo(data, k, dm.dbs[fDBID].modificationNumber)
    }

    method DeleteCurrentDatabase()
      requires Removable()
      modifies this`fDBID, this`fOpenID, dm`dbs, dm`opens
      ensures dm.Valid() && fDBID == 0 && fOpenID == 0
      ensures dm.dependable ==> dm.dbs == others
    {
      if fOpenID != 0 {
        dm.DmCloseDatabase(fOpenID);
        fOpenID := 0;
      }
      if fDBID != 0 {
        var ignored := dm.DmDeleteDatabase(fDBID);
        fDBID := 0;
      }
    }

    /** Deletes a database in RAM that has the name; a failure to delete one in ROM does not matter. */
    method DeleteOld(name: seq<byte>) returns (err: Option<PalmErr>)
      requires dm.Valid()
      modifies this`others, dm`dbs
      ensures dm.Valid() && others == dm.dbs && Replaced(old(dm.dbs), others, name)
    {
      err := None;
      var tempID := dm.DmFindDatabase(name);
      if InRam(tempID) {
        err := dm.DmDeleteDatabase(tempID);
        if err == Some(RomBased) { err := None; }
      }
      others := dm.dbs;
    }

    /** Creates the database and looks up its id. */
    method Create(name: seq<byte>, creator: seq<byte>, kind: seq<byte>, resource: bool) returns (err: Option<PalmErr>)
      requires dm.Valid() && fDBID == 0 && fOpenID == 0 && others == dm.dbs
      modifies this`fDBID, dm`dbs
      ensures Removable()
      ensures err == None ==>
        && Ours() && dm.Closed(fDBID) && dm.dbs[fDBID].name == name
        && dm.dbs[fDBID].appInfo == None && dm.dbs[fDBID].sortInfo == None && dm.dbs[fDBID].items == []
    {
      ghost var id: nat;
      err, id := dm.DmCreateDatabase(name, creator, kind, resource);
      if err.Some? { return; }
      fDBID := dm.DmFindDatabase(name);
      assert Named(dm.dbs, name) by { assert dm.dbs[id].name == name; }
      if fDBID == 0 {
        var e := dm.DmGetLastErr();
        return Some(e);
      }
      assert fDBID == id;
    }

    method SetInfoAndOpen(settings: Settings, modificationNumber: int) returns (err: Option<PalmErr>)
      requires Ours() && fOpenID == 0 && dm.Closed(fDBID)
      modifies this`fOpenID, dm`dbs, dm`opens
      ensures Ours()
      ensures err == None ==>
        && fOpenID != 0
        && dm.dbs[fDBID] == old(dm.dbs[fDBID]).(settings := settings, modificationNumber := modificationNumber)
    {
      err := dm.DmSetDatabaseInfo(fDBID, Some(settings), Some(modificationNumber), 0, 0);
      if err.Some? { return; }
      fOpenID := dm.DmOpenDatabase(fDBID);
      if fOpenID == 0 {
        var e := dm.DmGetLastErr();
        return Some(e);
      }
    }

    /** Everything HomeBrewInstallStart does before the info blocks. */
    method CreateAndOpen() returns (err: Option<PalmErr>)
      requires dm.Valid() && Whole(data) && fDBID == 0 && fOpenID == 0
      modifies this`fDBID, this`fOpenID, this`others, dm`dbs, dm`opens
      ensures Replaced(old(dm.dbs), others, NameOf(data)) && Removable()
      ensures err == None ==>
        && Ours() && fOpenID != 0
        && dm.dbs[fDBID]
           == DeviceDb(NameOf(data), SettingsOf(data), ReadHeader(data).modificationNumber, None, None, [])
    {
      hide ReadHeader, Terminated, TableEnd, OfResources, Replaced, SettingsOf, NameOf, DataManager.Closed;
      var hdr := ReadHeader(data);
      err := DeleteOld(NameOf(data));
      if err == None { err := Create(NameOf(data), hdr.creator, hdr.kind, OfResources(data)); }
      if err == None { err := SetInfoAndOpen(SettingsOf(data), hdr.modificationNumber); }
    }

    /** Installs the info blocks. */
    method AddInfoBlocks() returns (err: Option<PalmErr>)
      requires Whole(data) && |data| < MAX32 && ReadsInside(data, dm.heap) && Ours() && fOpenID != 0
      requires dm.dbs[fDBID]
            == DeviceDb(NameOf(data), SettingsOf(data), ReadHeader(data).modificationNumber, None, None, [])
      modifies dm`dbs, dm`blocks
      ensures Ours() && (err == None ==> Installing(0) && !Oversized(data, dm.heap))
    {
      hide ReadHeader, Terminated, SettingsOf, NameOf, AppEnd, ChunksStart, Items, EmFileImport.Ours, Slice;
      hide BlockInside, BlockSize;
      var hdr := ReadHeader(data);
      err := None;
      OursIsRemovable();
      HeaderLongs(data);
      AppEndIsLong(data);
      if hdr.appInfoId > 0 { err := AddInfo(hdr.appInfoId, AppEnd(data), true); }
      OursIsRemovable();
      if err == None && hdr.sortInfoId > 0 { err := AddInfo(hdr.sortInfoId, ChunksStart(data), false); }
      OursIsRemovable();
      DbAtStart(data, dm.dbs[fDBID].modificationNumber);
    }

    /** Allocates a block, fills it and stores it in the header. */
    method AddInfo(start: nat, end: nat, isAppInfo: bool) returns (err: Option<PalmErr>)
      requires Ours() && 0 < start < MAX32 && end < MAX32 && |data| < MAX32 && BlockInside(data, start, end, dm.heap)
      modifies dm`dbs, dm`blocks
      ensures Ours()
      ensures err.Some? ==> dm.dbs == old(dm.dbs)
      ensures err == None ==> !TooLarge(start, end, dm.heap)
      ensures err == None && isAppInfo ==>
        dm.dbs[fDBID] == old(dm.dbs[fDBID]).(appInfo := Some(Slice(data, start, end)))
      ensures err == None && !isAppInfo ==>
        dm.dbs[fDBID] == old(dm.dbs[fDBID]).(sortInfo := Some(Slice(data, start, end)))
    {
      hide Slice, BlockSize;
      var recSize := BlockSize(start, end);
      var newRecH := dm.DmNewHandle(recSize);
      if newRecH == 0 {
        var e := dm.DmGetLastErr();
        return Some(e);
      }
      BlockIsSlice(data, start, end, dm.heap);
      dm.DmWriteBlock(newRecH, if recSize == 0 then [] else data[start..start + recSize]);
      err := StoreInfo(newRecH, isAppInfo);
    }

    method StoreInfo(block: nat, isAppInfo: bool) returns (err: Option<PalmErr>)
      requires Ours() && block in dm.blocks
      modifies dm`dbs
      ensures Ours()
      ensures err.Some? ==> dm.dbs == old(dm.dbs)
      ensures err == None && isAppInfo ==> dm.dbs[fDBID] == old(dm.dbs[fDBID]).(appInfo := Some(dm.blocks[block]))
      ensures err == None && !isAppInfo ==> dm.dbs[fDBID] == old(dm.dbs[fDBID]).(sortInfo := Some(dm.blocks[block]))
    {
      if isAppInfo {
        err := dm.DmSetDatabaseInfo(fDBID, None, None, block, 0);
      } else {
        err := dm.DmSetDatabaseInfo(fDBID, None, None, 0, block);
      }
    }

    method HomeBrewInstallStart()
      requires dm.Valid() && Installable(data, wide, dm.heap)
      requires fState == InstallStart && fDBID == 0 && fOpenID == 0 && fCurrentEntry == 0 && fError == None
      modifies this, dm
      ensures dm.Valid() && fCurrentEntry == 0
      ensures Fault(data, wide).Some? ==> fError == Fault(data, wide) && dm.dbs == old(dm.dbs)
      ensures Fault(data, wide) == None ==> HeaderFault(data) == None && Replaced(old(dm.dbs), others, NameOf(data))
      ensures Fault(data, wide) == None && fError.Some? && dm.dependable ==> dm.dbs == others
      ensures Fault(data, wide) == None && fError == None ==>
        && Installing(0) && !Oversized(data, dm.heap)
        && fState == if RecordCount(data) > 0 then InstallMiddle else InstallEnd
    {
      hide ReadHeader, Terminated, Fault, HeaderFault, TableEnd, RecordCount, Replaced, Tiles, SettingsOf, NameOf;
      hide ReadsInside, Oversized, Installable, EmFileImport.Ours, EmFileImport.Removable, EmFileImport.Installing;
      fError := ValidateDatabase(data, wide);
      if fError.Some? { return; }
      InstallableTiles(data, wide, dm.heap);
      var err := CreateAndOpen();
      if err == None {
        err := AddInfoBlocks();
        OursIsRemovable();
      }
      if err == None {
        fState := if RecordCount(data) > 0 then InstallMiddle else InstallEnd;
      } else {
        DeleteCurrentDatabase();
        fError := Some(Palm(err.value));
      }
    }

    lemma OursIsRemovable()
      ensures Ours() ==> Removable() && dm.Valid() && fDBID in dm.dbs
    {
    }

    /** Appends an item with the bytes of a chunk; for a record also its attributes and id. */
    method AddResource(kind: seq<byte>, id: int, start: nat, end: nat) returns (err: Option<PalmErr>)
      requires Ours() && fOpenID != 0 && start <= end <= |data|
      modifies dm`dbs
      ensures Ours()
      ensures err == None ==> Grown(old(dm.dbs[fDBID]), dm.dbs[fDBID], Resource(kind, id, data[start..end]))
    {
      var newResH := dm.DmNewResource(fOpenID, kind, id, end - start);
      if newResH == 0 {
        var e := dm.DmGetLastErr();
        return Some(e);
      }
      ghost var content: seq<byte>, n :| Appended(old(dm.dbs), dm.dbs, fDBID, Resource(kind, id, content), n)
        && |content| == end - start;
      LastOf(old(dm.dbs[fDBID]), dm.dbs[fDBID], Resource(kind, id, content), n, data[start..end]);
      dm.DmWriteLast(fOpenID, data[start..end]);
      return None;
    }

    method AddRecord(attributes: int, id: int, start: nat, end: nat) returns (err: Option<PalmErr>)
      requires Ours() && fOpenID != 0 && start <= end <= |data|
      modifies dm`dbs
      ensures Ours()
      ensures err == None ==> Grown(old(dm.dbs[fDBID]), dm.dbs[fDBID], Record(attributes, id, data[start..end]))
    {
      var newRecH := dm.DmNewRecord(fOpenID, end - start);
      if newRecH == 0 {
        var e := dm.DmGetLastErr();
        return Some(e);
      }
      ghost var item: Item, n :| Appended(old(dm.dbs), dm.dbs, fDBID, item, n)
        && item.Record? && |item.data| == end - start;
      LastOf(old(dm.dbs[fDBID]), dm.dbs[fDBID], item, n, data[start..end]);
      dm.DmWriteLast(fOpenID, data[start..end]);
      err := dm.DmSetRecordInfo(fOpenID, attributes, id);
    }

    /** Installs the current entry; an empty record is skipped. */
    method AddEntry() returns (err: Option<PalmErr>)
      requires Whole(data) && Tiles(data) && fCurrentEntry < RecordCount(data) && Installing(fCurrentEntry)
      modifies dm`dbs
      ensures Ours() && (err == None ==> Installing(fCurrentEntry + 1))
    {
      hide TableEnd, RecordCount, OfResources, Tiles, DbUpTo, LocalAt, EmFileImport.Ours, Items, EntryPlace, Grown;
      var resource, at := OfResources(data), EntryPlace(data, fCurrentEntry);
      var start, end := Local(data, fCurrentEntry), Local(data, fCurrentEntry + 1);
      OursIsRemovable();
      ghost var was := dm.dbs[fDBID];
      DbStep(data, fCurrentEntry, was.modificationNumber);
      if resource {
        err := AddResource(data[at..at + 4], Get16(data, at + 4), start, end);
      } else if end != start {
        err := AddRecord(data[at + 4], Get24(data, at + 5), start, end);
      } else {
        err := None;
      }
      OursIsRemovable();
      GrownIs(was, dm.dbs[fDBID], Items(data)[fCurrentEntry]);
      DbNumber(data, fCurrentEntry + 1, was.modificationNumber, dm.dbs[fDBID].modificationNumber);
    }

    method HomeBrewInstallMiddle()
      requires Whole(data) && Tiles(data) && fCurrentEntry < RecordCount(data)
      requires fState == InstallMiddle && fError == None && Installing(fCurrentEntry)
      modifies this, dm
      ensures dm.Valid() && others == old(others)
      ensures fError == None ==>
        && fCurrentEntry == old(fCurrentEntry) + 1 && Installing(fCurrentEntry)
        && fState == if fCurrentEntry < RecordCount(data) then InstallMiddle else InstallEnd
      ensures fError.Some? && dm.dependable ==> dm.dbs == others
    {
      hide TableEnd, RecordCount, OfResources, Tiles, EmFileImport.Ours, EmFileImport.Removable,
           EmFileImport.Installing;
      var err := AddEntry();
      OursIsRemovable();
      if err.Some? {
        DeleteCurrentDatabase();
        fError := if err != Some(MemError) then Some(Palm(err.value))
                  else if OfResources(data) then Some(ResourceMemError) else Some(RecordMemError);
        return;
      }
      fCurrentEntry := fCurrentEntry + 1;
      if fCurrentEntry >= RecordCount(data) { fState := InstallEnd; }
    }

    /** Restores the modification number of the image and closes the database. */
    method HomeBrewInstallEnd()
      requires Whole(data) && fState == InstallEnd && fError == None && Installing(RecordCount(data))
      modifies this, dm
      ensures dm.Valid() && others == old(others)
      ensures fDBID !in others && exists m :: dm.dbs == others[fDBID := DbUpTo(data, RecordCount(data), m)]
      ensures fError == None ==>
        && fState == InstallDone && fOpenID == 0 && dm.Closed(fDBID)
        && dm.dbs == others[fDBID := DbUpTo(data, RecordCount(data), ReadHeader(data).modificationNumber)]
    {
      hide TableEnd, RecordCount, DbUpTo, ReadHeader;
      ghost var was := dm.dbs[fDBID].modificationNumber;
      assert dm.dbs == others[fDBID := DbUpTo(data, RecordCount(data), was)];
      var modificationNumber := ReadHeader(data).modificationNumber;
      DbNumber(data, RecordCount(data), was, modificationNumber);
      var err := dm.DmSetDatabaseInfo(fDBID, None, Some(modificationNumber), 0, 0);
      if err.Some? {
        fError := Some(Palm(err.value));
        return;
      }
      dm.DmCloseDatabase(fOpenID);
      fOpenID := 0;
      fState := InstallDone;
    }

    /** Where the machine stands between two steps. */
    ghost predicate Sound(before: map<nat, DeviceDb>)
      requires dm.Valid()
      reads this, dm
    {
      match fState
      case InstallStart =>
        fDBID == 0 && fOpenID == 0 && fCurrentEntry == 0 && fError == None && dm.dbs == before
      case InstallMiddle =>
        && Whole(data) && Fault(data, wide) == None && Tiles(data) && Replaced(before, others, NameOf(data))
        && fError == None && fCurrentEntry < RecordCount(data) && Installing(fCurrentEntry)
        && !Oversized(data, dm.heap)
      case InstallEnd =>
        && Whole(data) && Fault(data, wide) == None && Tiles(data) && Replaced(before, others, NameOf(data))
        && fError == None && Installing(RecordCount(data)) && !Oversized(data, dm.heap)
      case InstallDone => Finished(before)
    }

    /** How an installation may end: rejected with the device untouched; complete; or with an error and,
        if the data manager is dependable, nothing left half-installed. It cannot be complete if an info
        block seems to be larger than the heap. */
    ghost predicate Finished(before: map<nat, DeviceDb>)
      reads this, dm
    {
      match Fault(data, wide)
      case Some(e) => fError == Some(e) && dm.dbs == before
      case None =>
        && Whole(data) && Replaced(before, others, NameOf(data))
        && (fError == None ==>
              fDBID !in others && dm.Closed(fDBID) &&
              dm.dbs == others[fDBID := DbUpTo(data, RecordCount(data), ReadHeader(data).modificationNumber)])
        && (fError.Some? && dm.dependable ==>
              || dm.dbs == others
              || (fDBID !in others && exists m :: dm.dbs == others[fDBID := DbUpTo(data, RecordCount(data), m)]))
        && (Oversized(data, dm.heap) ==> fError.Some? && (dm.dependable ==> dm.dbs == others))
    }

    function StepsLeft(): (n: nat)
      reads this
    {
      match fState
      case InstallStart => MAX16 + 3
      case InstallMiddle => if fCurrentEntry <= MAX16 then MAX16 - fCurrentEntry + 2 else 2
      case InstallEnd => 1
      case InstallDone => 0
    }

    /** IncrementalInstall, and the end of the installation if it met an error. */
    method Step(ghost before: map<nat, DeviceDb>)
      requires dm.Valid() && Installable(data, wide, dm.heap) && Sound(before) && fState != InstallDone
      modifies this, dm
      ensures dm.Valid() && Sound(before) && StepsLeft() < old(StepsLeft())
    {
      hide Installable, TableEnd, RecordCount, DbUpTo, ReadHeader, Replaced, Tiles, Fault, HeaderFault, NameOf;
      hide EmFileImport.Ours, Oversized;
      match fState {
        case InstallStart =>
          HomeBrewInstallStart();
          if fError == None { InstallableTiles(data, wide, dm.heap); }
        case InstallMiddle => HomeBrewInstallMiddle();
        case InstallEnd => HomeBrewInstallEnd();
        case InstallDone =>
      }
      if fError.Some? { fState := InstallDone; }
    }

    /** The installation always ends, in one of the ways Finished lists. */
    method Continue() returns (err: Option<ImportError>)
      requires dm.Valid() && Installable(data, wide, dm.heap)
      requires fState == InstallStart && fDBID == 0 && fOpenID == 0 && fCurrentEntry == 0 && fError == None
      modifies this, dm
      ensures dm.Valid() && fState == InstallDone && err == fError && Finished(old(dm.dbs))
    {
      hide Installable, EmFileImport.Finished;
      while fState != InstallDone
        invariant dm.Valid() && Sound(old(dm.dbs))
        decreases StepsLeft()
      {
        Step(old(dm.dbs));
      }
      err := fError;
    }
  }

  lemma AppEndIsLong(data: seq<byte>)
    requires Whole(data) && |data| < MAX32
    ensures 0 <= AppEnd(data) < MAX32
  {
    hide ReadHeader, ChunksStart;
    HeaderLongs(data);
  }

  lemma DbNumber(data: seq<byte>, k: nat, m: int, n: int)
    requires Whole(data) && k <= RecordCount(data)
    ensures DbUpTo(data, k, n) == DbUpTo(data, k, m).(modificationNumber := n)
  {
  }

  /** One item more; the modification number may have changed. */
  ghost predicate Grown(before: DeviceDb, after: DeviceDb, item: Item) {
    after == before.(items := before.items + [item], modificationNumber := after.modificationNumber)
  }

  lemma GrownIs(before: DeviceDb, after: DeviceDb, item: Item)
    ensures Grown(before, after, item)
      <==> after == before.(items := before.items + [item], modificationNumber := after.modificationNumber)
  {
  }

  lemma LastOf(before: DeviceDb, after: DeviceDb, item: Item, n: int, bytes: seq<byte>)
    requires after == before.(items := before.items + [item], modificationNumber := n)
    ensures after.items != [] && after.items[|after.items| - 1] == item
    ensures WithLast(after, bytes) == before.(items := before.items + [item.(data := bytes)], modificationNumber := n)
  {
  }

  // ---- two resource databases with an app info block of one byte -----------------------------------------

  function SampleHeader(): Header {
    Header(Zeros(32), 1, 0, 0, 0, 0, 0, 88, 0, Zeros(4), Zeros(4), 0)
  }

  /** A file with app info [7] and one resource of the given type with content [9]. */
  function Sample(kind: seq<byte>): (r: seq<byte>)
    requires |kind| == 4
    ensures |r| == 90
  {
    SampleFits(kind);
    Image(SampleHeader(), 0, Some([7]), None, [Resource(kind, 0, [9])])
  }

  lemma SampleFits(kind: seq<byte>)
    requires |kind| == 4
    ensures Fits(SampleHeader(), 0, Some([7]), None, [Resource(kind, 0, [9])])
    ensures Contents([Resource(kind, 0, [9])]) == [9]
  {
    assert [Resource(kind, 0, [9])][1..] == [];
  }

  lemma SampleRead(kind: seq<byte>)
    requires |kind| == 4
    ensures var data := Sample(kind);
      && ReadHeader(data) == SampleHeader() && OfResources(data) && RecordCount(data) == 1 && Get32(data, 72) == 0
      && TableEnd(data) == 88 && FirstBlock(data) == 89 && data[78..82] == kind && data[88..] == [7, 9]
      && AsciiBytes(NameOf(data)) && Parsed(data) == Ok(ReadDb(data)) && ReadDb(data).appInfo == Some([7])
  {
    hide Image, CheckItems, ReadItems, ReadDb, Get32, Get16, Put32, Put16, Slice, EntryTable;
    var h, items, app := SampleHeader(), [Resource(kind, 0, [9])], Some([7]);
    SampleFits(kind);
    ImageHead(h, 0, app, None, items);
    ImageBody(h, 0, app, None, items);
    assert Terminated(h.name) == [];
    ImageRoundTrip(h, 0, app, None, items);
    var data := Sample(kind);
    SampleEntry(kind);
    var entry := data[78..88];
    assert data[78..82] == entry[..4] == kind;
    assert entry[6..10] == data[84..88];
    Read32(data, 84, 89);
    SliceInside(data, 88, 89);
    assert data[88..] == data[88..89] + data[89..];
  }

  lemma SampleEntry(kind: seq<byte>)
    requires |kind| == 4
    ensures var items := [Resource(kind, 0, [9])];
      && ItemsInRange(items, true) && |Contents(items)| == 1
      && EntryTable(items, true, 89)[..4] == kind && EntryTable(items, true, 89)[6..10] == Put32(89)
  {
    hide Put32;
    var items := [Resource(kind, 0, [9])];
    SampleFits(kind);
    assert items[1..] == [];
    EntryFields(items[0], true, 89);
    assert EntryTable(items, true, 89) == EntryBytes(items[0], true, 89) + [];
  }

  lemma SampleAccepted(kind: seq<byte>)
    requires |kind| == 4
    ensures Fault(Sample(kind), true) == None && InfoPlaced(Sample(kind))
    ensures ChunksStart(Sample(kind)) == Get32(kind, 0)
  {
    hide Sample, Get32, ReadDb, Parsed, Repeats, ReadHeader;
    var data := Sample(kind);
    SampleRead(kind);
    assert Terminated(SampleHeader().name) == [];
    assert Local(data, 0) == 89 && Local(data, 1) == 90;
    assert Orderly(data, 0);
    assert !Repeats(data, 0) by { NoneSeen(data); }
    AcceptsExactlyTilings(data);
    WordOf(data, kind);
  }

  lemma SliceInside(data: seq<byte>, a: nat, b: nat)
    requires a <= b <= |data|
    ensures Slice(data, a, b) == data[a..b]
  {
  }

  lemma WordOf(data: seq<byte>, kind: seq<byte>)
    requires |data| >= 82 && |kind| == 4 && data[78..82] == kind
    ensures Get32(data, 78) == Get32(kind, 0)
  {
    assert forall i :: 0 <= i < 4 ==> data[78 + i] == kind[i];
  }

  lemma NoneSeen(data: seq<byte>)
    requires Whole(data) && RecordCount(data) > 0
    ensures !Repeats(data, 0)
  {
    hide Pair;
  }

  /** An accepted program whose app info block the parser reads and no heap below 500 MB can hold. */
  lemma OversizedExample(heap: nat)
    requires heap < 500_000_000
    ensures var data := Sample([0x63, 0x6f, 0x64, 0x65]);
      && Fault(data, true) == None && Parsed(data) == Ok(ReadDb(data)) && ReadDb(data).appInfo == Some([7])
      && Installable(data, true, heap) && Oversized(data, heap)
  {
    hide Sample, Parsed, ReadDb, Fault, Oversized, ReadsInside, FirstBlock, InfoPlaced;
    var kind: seq<byte> := [0x63, 0x6f, 0x64, 0x65];
    var data := Sample(kind);
    SampleRead(kind);
    SampleAccepted(kind);
    assert data[78] == data[78..82][0];
    ResourcesAreOversized(data, heap);
  }

  /** An accepted resource database that is installed with the first resource as part of its app info. */
  lemma MisreadExample(heap: nat, m: int)
    requires heap >= 2
    ensures var data := Sample([0, 0, 0, 90]);
      && Fault(data, true) == None && Parsed(data) == Ok(ReadDb(data)) && ReadDb(data).appInfo == Some([7])
      && Installable(data, true, heap) && !Oversized(data, heap)
      && DbUpTo(data, RecordCount(data), m).appInfo == Some([7, 9])
  {
    hide Sample, Parsed, ReadDb, Fault, FirstBlock, InfoPlaced, Items, Kept, NameOf, SettingsOf, ReadHeader, Slice;
    var kind: seq<byte> := [0, 0, 0, 90];
    var data := Sample(kind);
    SampleRead(kind);
    SampleAccepted(kind);
    assert Get32(kind, 0) == 90;
    SliceInside(data, 88, 90);
    assert data[88..90] == data[88..];
  }
}
