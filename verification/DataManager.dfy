/** The data manager of the device, as far as the homebrew installation talks to it: every call may
    fail, and what a call changes is fixed. */
module DataManager {
  import opened Bytes
  import opened PalmDatabase
  import opened Wrappers

  datatype PalmErr = MemError | RomBased | Other(code: int)

  datatype Settings = Settings(
    attributes: int, version: int, creationDate: int, modificationDate: int, lastBackupDate: int,
    kind: seq<byte>, creator: seq<byte>)

  datatype DeviceDb = DeviceDb(
    name: seq<byte>, settings: Settings, modificationNumber: int,
    appInfo: Option<seq<byte>>, sortInfo: Option<seq<byte>>, items: seq<Item>)

  /** Databases in RAM have odd local ids. */
  predicate InRam(id: nat) {
    id % 2 == 1
  }

  ghost predicate Named(dbs: map<nat, DeviceDb>, name: seq<byte>) {
    exists id :: id in dbs && dbs[id].name == name
  }

  class DataManager {
    /** The databases by local id, and the open references. */
    var dbs: map<nat, DeviceDb>
    var opens: map<nat, nat>
    /** Memory blocks that are not part of a database yet. */
    var blocks: map<nat, seq<byte>>
    /** Databases that exist are found, and closed ones in RAM can be deleted. */
    const dependable: bool
    /** No memory block can be larger. */
    const heap: nat

    ghost predicate Valid()
      reads this
    {
      && 0 !in dbs && 0 !in opens && 0 !in blocks
      && (forall i, j :: i in dbs && j in dbs && dbs[i].name == dbs[j].name ==> i == j)
      && (forall r :: r in opens ==> opens[r] in dbs)
    }

    ghost predicate Closed(id: nat)
      reads this
    {
      forall r :: r in opens ==> opens[r] != id
    }

    constructor (dependable: bool, heap: nat)
      ensures Valid() && this.dependable == dependable && this.heap == heap && dbs == map[]
    {
      this.dependable, this.heap := dependable, heap;
      dbs, opens, blocks := map[], map[], map[];
    }

    method DmGetLastErr() returns (err: PalmErr)
    {
      err := *;
    }

    method DmFindDatabase(name: seq<byte>) returns (id: nat)
      requires Valid()
      ensures id != 0 ==> id in dbs && dbs[id].name == name
      ensures dependable && Named(dbs, name) ==> id != 0
    {
      var found: bool := *;
      if i :| i in dbs && dbs[i].name == name {
        id := if found || dependable then i else 0;
      } else {
        id := 0;
      }
    }

    method DmDeleteDatabase(id: nat) returns (err: Option<PalmErr>)
      requires Valid()
      modifies this`dbs
      ensures Valid()
      ensures dbs == if err == None then old(dbs) - {id} else old(dbs)
      ensures err == None ==> id in old(dbs)
      ensures dependable && id in old(dbs) && InRam(id) && Closed(id) ==> err == None
    {
      var fails: bool := *;
      if id !in dbs || id in opens.Values || ((fails || !InRam(id)) && !(dependable && InRam(id))) {
        var e: PalmErr := *;
        return Some(e);
      }
      dbs := dbs - {id};
      return None;
    }

    /** A new database in RAM, unless the name is taken. */
    method DmCreateDatabase(name: seq<byte>, creator: seq<byte>, kind: seq<byte>, resource: bool)
      returns (err: Option<PalmErr>, ghost id: nat)
      requires Valid()
      modifies this`dbs
      ensures Valid()
      ensures err.Some? ==> dbs == old(dbs)
      ensures err == None ==>
        && id !in old(dbs) && InRam(id) && Closed(id) && id in dbs && dbs == old(dbs)[id := dbs[id]]
        && dbs[id].name == name && dbs[id].appInfo == None && dbs[id].sortInfo == None && dbs[id].items == []
    {
      var fails: bool, e: PalmErr, settings: Settings, n: int := *, *, *, *;
      if i :| i in dbs && dbs[i].name == name { return Some(e), 0; }
      if fails { return Some(e), 0; }
      var newId := FreshId(dbs.Keys);
      dbs := dbs[newId := DeviceDb(name, settings.(kind := kind, creator := creator), n, None, None, [])];
      return None, newId;
    }

    /** Null parameters stay as they are. */
    method DmSetDatabaseInfo(id: nat, settings: Option<Settings>, modificationNumber: Option<int>,
                             appInfo: nat, sortInfo: nat)
      returns (err: Option<PalmErr>)
      requires Valid() && (appInfo == 0 || appInfo in blocks) && (sortInfo == 0 || sortInfo in blocks)
      modifies this`dbs
      ensures Valid()
      ensures err.Some? ==> dbs == old(dbs)
      ensures err == None ==>
        id in old(dbs)
        && dbs == old(dbs)[id := WithInfo(old(dbs[id]), settings, modificationNumber,
                                          if appInfo == 0 then None else Some(blocks[appInfo]),
                                          if sortInfo == 0 then None else Some(blocks[sortInfo]))]
    {
      var fails: bool, e: PalmErr := *, *;
      if fails || id !in dbs { return Some(e); }
      dbs := dbs[id := WithInfo(dbs[id], settings, modificationNumber,
                                if appInfo == 0 then None else Some(blocks[appInfo]),
                                if sortInfo == 0 then None else Some(blocks[sortInfo]))];
      return None;
    }

    method DmOpenDatabase(id: nat) returns (open: nat)
      requires Valid()
      modifies this`opens
      ensures Valid()
      ensures open == 0 ==> opens == old(opens)
      ensures open != 0 ==> id in dbs && open !in old(opens) && opens == old(opens)[open := id]
    {
      var fails: bool := *;
      if fails || id !in dbs { return 0; }
      open := FreshId(opens.Keys);
      opens := opens[open := id];
    }

    method DmCloseDatabase(open: nat)
      requires Valid()
      modifies this`opens
      ensures Valid() && opens == old(opens) - {open}
    {
      opens := opens - {open};
    }

    /** A block of the given size with any content; there is none above the size of the heap. */
    method DmNewHandle(size: nat) returns (handle: nat)
      requires Valid()
      modifies this`blocks
      ensures Valid()
      ensures handle == 0 ==> blocks == old(blocks)
      ensures handle != 0 ==> size <= heap && handle in blocks && |blocks[handle]| == size
    {
      var fails: bool := *;
      if fails || size > heap { return 0; }
      handle := FreshId(blocks.Keys);
      var content := Anything(size);
      blocks := blocks[handle := content];
    }

    /** MemHandleLock, DmWrite and MemHandleUnlock for a block. */
    method DmWriteBlock(handle: nat, bytes: seq<byte>)
      requires Valid() && handle in blocks && |bytes| == |blocks[handle]|
      modifies this`blocks
      ensures Valid() && blocks == old(blocks)[handle := bytes]
    {
      blocks := blocks[handle := bytes];
    }

    /** Appends a resource of the given size with any content. */
    method DmNewResource(open: nat, kind: seq<byte>, id: int, size: nat) returns (handle: nat)
      requires Valid() && open in opens
      modifies this`dbs
      ensures Valid()
      ensures handle == 0 ==> dbs == old(dbs)
      ensures handle != 0 ==> exists content: seq<byte>, n ::
        |content| == size && Appended(old(dbs), dbs, opens[open], Resource(kind, id, content), n)
    {
      var fails: bool, n: int := *, *;
      if fails { return 0; }
      var content := Anything(size);
      var db := dbs[opens[open]];
      dbs := dbs[opens[open] := db.(items := db.items + [Resource(kind, id, content)], modificationNumber := n)];
      assert Appended(old(dbs), dbs, opens[open], Resource(kind, id, content), n);
      handle := 1;
    }

    /** Appends a record of the given size with any content and attributes. */
    method DmNewRecord(open: nat, size: nat) returns (handle: nat)
      requires Valid() && open in opens
      modifies this`dbs
      ensures Valid()
      ensures handle == 0 ==> dbs == old(dbs)
      ensures handle != 0 ==> exists item: Item, n ::
        item.Record? && |item.data| == size && Appended(old(dbs), dbs, opens[open], item, n)
    {
      var fails: bool, n: int, attributes: int, id: int := *, *, *, *;
      if fails { return 0; }
      var content := Anything(size);
      var db := dbs[opens[open]];
      dbs := dbs[opens[open] := db.(items := db.items + [Record(attributes, id, content)], modificationNumber := n)];
      assert Appended(old(dbs), dbs, opens[open], Record(attributes, id, content), n);
      handle := 1;
    }

    /** MemHandleLock, DmWrite and MemHandleUnlock for the item appended last. */
    method DmWriteLast(open: nat, bytes: seq<byte>)
      requires Valid() && open in opens && dbs[opens[open]].items != []
      requires var items := dbs[opens[open]].items; |items[|items| - 1].data| == |bytes|
      modifies this`dbs
      ensures Valid()
      ensures dbs == old(dbs)[opens[open] := WithLast(old(dbs[opens[open]]), bytes)]
    {
      dbs := dbs[opens[open] := WithLast(dbs[opens[open]], bytes)];
    }

    /** DmSetRecordInfo for the record appended last; the modification number may change. */
    method DmSetRecordInfo(open: nat, attributes: int, id: int) returns (err: Option<PalmErr>)
      requires Valid() && open in opens && dbs[opens[open]].items != []
      requires var items := dbs[opens[open]].items; items[|items| - 1].Record?
      modifies this`dbs
      ensures Valid()
      ensures err.Some? ==> dbs == old(dbs)
      ensures err == None ==> exists n ::
        dbs == old(dbs)[opens[open] := WithRecordInfo(old(dbs[opens[open]]), attributes, id).(modificationNumber := n)]
    {
      var fails: bool, e: PalmErr, n: int := *, *, *;
      if fails { return Some(e); }
      dbs := dbs[opens[open] := WithRecordInfo(dbs[opens[open]], attributes, id).(modificationNumber := n)];
      return None;
    }
  }

  function WithInfo(db: DeviceDb, settings: Option<Settings>, modificationNumber: Option<int>,
                    appInfo: Option<seq<byte>>, sortInfo: Option<seq<byte>>): DeviceDb {
    DeviceDb(db.name,
             if settings.Some? then settings.value else db.settings,
             if modificationNumber.Some? then modificationNumber.value else db.modificationNumber,
             if appInfo.Some? then appInfo else db.appInfo,
             if sortInfo.Some? then sortInfo else db.sortInfo,
             db.items)
  }

  ghost predicate Appended(before: map<nat, DeviceDb>, after: map<nat, DeviceDb>, id: nat, item: Item, n: int) {
    id in before && after == before[id := before[id].(items := before[id].items + [item], modificationNumber := n)]
  }

  function WithLast(db: DeviceDb, bytes: seq<byte>): DeviceDb
    requires db.items != []
  {
    var last := |db.items| - 1;
    db.(items := db.items[..last] + [db.items[last].(data := bytes)])
  }

  function WithRecordInfo(db: DeviceDb, attributes: int, id: int): DeviceDb
    requires db.items != [] && db.items[|db.items| - 1].Record?
  {
    var last := |db.items| - 1;
    db.(items := db.items[..last] + [db.items[last].(attributes := attributes, id := id)])
  }

  method Anything(size: nat) returns (content: seq<byte>)
    ensures |content| == size
  {
    content := *;
    if |content| != size { content := Zeros(size); }
  }

  /** An odd id that is not in use. */
  method FreshId(used: set<nat>) returns (id: nat)
    ensures id !in used && InRam(id)
  {
    id := 1;
    var rest := used;
    while id in used
      invariant InRam(id) && rest <= used && forall k :: k in used && k >= id ==> k in rest
      decreases |rest|
    {
      rest := rest - {id};
      id := id + 2;
    }
  }
}
