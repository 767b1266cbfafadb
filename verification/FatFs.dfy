/** The file system below src/vfs, as far as that code relies on it: a tree of nodes and the
    answers FatFs gives for it (src/vfs/FatfsDelegate.h; ff.c itself is not modelled). */
module FatFs {
  import opened Paths
  import opened Bytes

  datatype Node = Dir | File(data: seq<byte>)

  type Tree = map<Path, Node>

  /** DiskErr stands for every result code the callers lump together as a failure. */
  datatype FResult = Ok | NoFile | NoPath | InvalidName | Denied | Exist | NotReady | DiskErr

  datatype FileInfo = FileInfo(isDirectory: bool, size: nat)

  /** An open directory: the entries present when it was opened and not yet returned. */
  datatype DirHandle = DirHandle(path: Path, pending: set<string>)

  datatype FileHandle = FileHandle(path: Path, position: nat)

  predicate ValidName(name: string) {
    name != [] && forall c :: c in name ==> c >= ' ' && c !in "*:<>|\"?\U{7F}" && !IsSeparator(c)
  }

  function Parent(p: Path): (r: Path)
    requires p != []
    ensures Within(r, p)
  {
    p[..|p| - 1]
  }

  /** Every node has its parent directory; the drives are directories. */
  ghost predicate TreeValid(t: Tree) {
    forall p :: p in t ==>
      && p != []
      && (if |p| == 1 then t[p].Dir? else Parent(p) in t && t[Parent(p)].Dir? && ValidName(p[|p| - 1]))
  }

  /** Name lookup, component by component. */
  function Follow(t: Tree, p: Path): (r: FResult)
    ensures r == Ok ==> p in t
    ensures r == NoFile ==> |p| > 1 && p !in t && Parent(p) in t && t[Parent(p)].Dir? && ValidName(p[|p| - 1])
    decreases |p|
  {
    if |p| <= 1 then
      if p in t then Ok else NotReady
    else
      match Follow(t, Parent(p))
      case Ok =>
        if !t[Parent(p)].Dir? then NoPath
        else if !ValidName(p[|p| - 1]) then InvalidName
        else if p in t then Ok else NoFile
      case NoFile => NoPath
      case e => e
  }

  function StatResult(t: Tree, p: Path): FResult {
    var r := Follow(t, p);
    if r == Ok && |p| == 1 then InvalidName else r
  }

  function MkdirResult(t: Tree, p: Path): FResult {
    match Follow(t, p)
    case Ok => Exist
    case NoFile => Ok
    case e => e
  }

  ghost predicate HasChildren(t: Tree, p: Path) {
    exists c :: c in t && |c| == |p| + 1 && Within(p, c)
  }

  ghost function UnlinkResult(t: Tree, p: Path): FResult {
    var r := StatResult(t, p);
    if r == Ok && t[p].Dir? && HasChildren(t, p) then Denied else r
  }

  /** f_open with FA_CREATE_ALWAYS. */
  function CreateResult(t: Tree, p: Path): FResult {
    match StatResult(t, p)
    case Ok => if t[p].Dir? then Denied else Ok
    case NoFile => Ok
    case e => e
  }

  function ChildNames(t: Tree, p: Path): set<string> {
    set c | c in t && |c| == |p| + 1 && Within(p, c) :: c[|p|]
  }

  // ---- lookup in a valid tree -------------------------------------------------------------------

  lemma {:induction false} FollowFinds(t: Tree, p: Path)
    requires TreeValid(t) && p in t
    ensures Follow(t, p) == Ok
    decreases |p|
  {
    if |p| > 1 {
      FollowFinds(t, Parent(p));
    }
  }

  lemma {:induction false} AncestorsAreDirectories(t: Tree, a: Path, p: Path)
    requires TreeValid(t) && p in t && a != [] && Within(a, p)
    ensures a in t && (a != p ==> t[a].Dir?)
    decreases |p|
  {
    if a != p {
      assert a == Parent(p)[..|a|];
      AncestorsAreDirectories(t, a, Parent(p));
    } else {
    }
  }

  /** Below a drive, with names a file can have. */
  predicate Proper(p: Path) {
    |p| > 1 && forall i :: 1 <= i < |p| ==> ValidName(p[i])
  }

  lemma ParentAndName(t: Tree, p: Path)
    requires TreeValid(t) && p in t && |p| > 1
    ensures Parent(p) in t && t[Parent(p)].Dir? && ValidName(p[|p| - 1])
  {
  }

  lemma {:induction false} InTreeProper(t: Tree, p: Path)
    requires TreeValid(t) && p in t && |p| > 1
    ensures Proper(p)
    decreases |p|
  {
    hide ValidName, TreeValid;
    ParentAndName(t, p);
    if |p| > 2 {
      InTreeProper(t, Parent(p));
      assert forall i :: 1 <= i < |p| - 1 ==> p[i] == Parent(p)[i];
    }
  }

  lemma NothingBelowAFile(t: Tree, f: Path, p: Path)
    requires TreeValid(t) && f in t && t[f].File? && p in t && Within(f, p)
    ensures p == f
  {
    AncestorsAreDirectories(t, f, p);
  }

  /** Placing a node below a directory, without turning a directory into a file. */
  lemma PlantingKeepsValid(t: Tree, p: Path, n: Node)
    requires TreeValid(t) && |p| > 1
    requires Parent(p) in t && t[Parent(p)].Dir? && ValidName(p[|p| - 1])
    requires p in t && n.File? ==> t[p].File?
    ensures TreeValid(t[p := n])
  {
    var u := t[p := n];
    forall q | q in u
      ensures q != []
      ensures if |q| == 1 then u[q].Dir? else Parent(q) in u && u[Parent(q)].Dir? && ValidName(q[|q| - 1])
    {
      if q != p { assert q in t; }
    }
  }

  lemma MkdirKeepsValid(t: Tree, p: Path)
    requires TreeValid(t) && MkdirResult(t, p) == Ok
    ensures TreeValid(t[p := Dir])
  {
    PlantingKeepsValid(t, p, Dir);
  }

  lemma CreateKeepsValid(t: Tree, p: Path)
    requires TreeValid(t) && CreateResult(t, p) == Ok
    ensures TreeValid(t[p := File([])])
  {
    PlantingKeepsValid(t, p, File([]));
  }

  lemma ChildNamesEmpty(t: Tree, p: Path)
    ensures HasChildren(t, p) <==> ChildNames(t, p) != {}
  {
    if HasChildren(t, p) {
      var c :| c in t && |c| == |p| + 1 && Within(p, c);
      assert c[|p|] in ChildNames(t, p);
    }
  }

  lemma StatFinds(t: Tree, p: Path)
    requires TreeValid(t)
    ensures StatResult(t, p) == Ok ==> p in t && (t[p].File? ==> !HasChildren(t, p))
  {
    hide TreeValid;
    if StatResult(t, p) == Ok && t[p].File? {
      forall c | c in t && Within(p, c)
        ensures c == p
      {
        NothingBelowAFile(t, p, c);
      }
    }
  }

  lemma UnlinkOk(t: Tree, p: Path)
    requires UnlinkResult(t, p) == Ok
    ensures p in t && |p| != 1
  {
  }

  lemma RemovingKeepsValid(t: Tree, p: Path)
    requires TreeValid(t)
    requires p in t ==> !HasChildren(t, p)
    ensures TreeValid(t - {p})
  {
    forall q | q in t && |q| > 1
      ensures Parent(q) == p ==> HasChildren(t, p)
    {
    }
  }

  // ---- the operations ---------------------------------------------------------------------------

  /** Removing some other file does not change what stat says about r. */
  lemma StatWithout(t: Tree, x: Path, r: Path)
    requires TreeValid(t) && TreeValid(t - {x}) && x in t && t[x].File? && r != x
    requires StatResult(t, r) in {Ok, NoFile}
    ensures StatResult(t - {x}, r) == StatResult(t, r)
  {
    var u := t - {x};
    if StatResult(t, r) == Ok {
      FollowFinds(u, r);
    } else {
      FollowFinds(u, Parent(r));
    }
  }

  lemma StatFacts(t: Tree, p: Path)
    ensures StatResult(t, p) == Ok ==> p in t && (TreeValid(t) ==> |p| > 1)
    ensures StatResult(t, p) == NoFile ==> p !in t
  {
  }

  /** Only the file at p may differ, and there only a tail may be missing. */
  ghost predicate Shortened(before: Tree, after: Tree, p: Path) {
    && p in before && before[p].File? && p in after && after[p].File? && after[p].data <= before[p].data
    && after == before[p := after[p]]
  }

  class Volume {
    var tree: Tree
    /** No I/O error occurs. */
    const faultless: bool
    /** The card never fills up. */
    const spacious: bool
    const reliable: bool := faultless && spacious
    /** The files, with the content they were to have, that could not be closed. */
    ghost var torn: set<Node>

    ghost predicate Valid()
      reads this
    {
      TreeValid(tree) && (faultless ==> torn == {})
    }

    constructor (tree: Tree, faultless: bool, spacious: bool)
      requires TreeValid(tree)
      ensures Valid() && this.tree == tree && this.faultless == faultless && this.spacious == spacious
    {
      this.tree := tree;
      this.faultless, this.spacious := faultless, spacious;
      torn := {};
    }

    method Faults() returns (fault: bool)
      ensures faultless ==> !fault
    {
      fault := *;
      fault := fault && !faultless;
    }

    /** No cluster is left for a new directory or a longer one. */
    method Full() returns (full: bool)
      ensures spacious ==> !full
    {
      full := *;
      full := full && !spacious;
    }

    method Stat(path: string) returns (r: FResult, info: FileInfo)
      ensures r == StatResult(tree, Resolve(path)) || (!faultless && r == DiskErr)
      ensures r == Ok ==> info == InfoOf(tree[Resolve(path)])
    {
      info := FileInfo(false, 0);
      r := StatResult(tree, Resolve(path));
      if r == Ok { info := InfoOf(tree[Resolve(path)]); }
      var fault := Faults();
      if fault { r := DiskErr; }
    }

    method OpenDir(path: string) returns (r: FResult, dir: DirHandle)
      ensures r == Ok ==>
        && Resolve(path) in tree && tree[Resolve(path)].Dir?
        && dir == DirHandle(Resolve(path), ChildNames(tree, Resolve(path)))
      ensures faultless && Follow(tree, Resolve(path)) == Ok && tree[Resolve(path)].Dir? ==> r == Ok
    {
      var p := Resolve(path);
      dir := DirHandle(p, {});
      r := Follow(tree, p);
      if r == Ok && !tree[p].Dir? { r := NoPath; }
      if r == Ok { dir := DirHandle(p, ChildNames(tree, p)); }
      var fault := Faults();
      if fault { r := DiskErr; }
    }

    /** Returns the entries in any order, each at most once; an empty name ends the listing. */
    method ReadDir(dir: DirHandle) returns (r: FResult, rest: DirHandle, name: string, info: FileInfo)
      requires Valid()
      ensures r == Ok || (!faultless && r == DiskErr && rest == dir)
      ensures r == Ok && name != [] ==>
        && name in dir.pending && rest == dir.(pending := dir.pending - {name})
        && dir.path + [name] in tree && info == InfoOf(tree[dir.path + [name]])
      ensures r == Ok && name == [] ==>
        rest == dir && forall n :: n in dir.pending && n != [] ==> dir.path + [n] !in tree
    {
      r, rest, name, info := Ok, dir, [], FileInfo(false, 0);
      var fault := Faults();
      if fault { return DiskErr, dir, [], info; }
      var present := set n | n in dir.pending && n != [] && dir.path + [n] in tree;
      if present != {} {
        var n :| n in present;
        name := n;
        rest := dir.(pending := dir.pending - {n});
        info := InfoOf(tree[dir.path + [n]]);
      } else {
        assert forall n :: n in dir.pending && n != [] && dir.path + [n] in tree ==> n in present;
      }
    }

    method Mkdir(path: string) returns (r: FResult)
      requires Valid()
      modifies this`tree
      ensures Valid()
      ensures r == MkdirResult(old(tree), Resolve(path)) || (!faultless && r == DiskErr) || (!spacious && r == Denied)
      ensures tree == if r == Ok then old(tree)[Resolve(path) := Dir] else old(tree)
    {
      r := MkdirResult(tree, Resolve(path));
      var full := Full();
      if full { r := Denied; }
      var fault := Faults();
      if fault { r := DiskErr; }
      if r == Ok {
        MkdirKeepsValid(tree, Resolve(path));
        tree := tree[Resolve(path) := Dir];
      }
    }

    method Unlink(path: string) returns (r: FResult)
      requires Valid()
      modifies this`tree
      ensures Valid()
      ensures r == UnlinkResult(old(tree), Resolve(path)) || (!faultless && r == DiskErr)
      ensures tree == if r == Ok then old(tree) - {Resolve(path)} else old(tree)
    {
      hide TreeValid, Follow, HasChildren, ChildNames, Resolve;
      var p := Resolve(path);
      r := StatResult(tree, p);
      StatFinds(tree, p);
      var children := ChildNames(tree, p);
      ChildNamesEmpty(tree, p);
      if r == Ok && tree[p].Dir? && children != {} { r := Denied; }
      var fault := Faults();
      if fault { r := DiskErr; }
      if r == Ok {
        RemovingKeepsValid(tree, p);
        tree := tree - {p};
      }
    }

    method OpenForWrite(path: string) returns (r: FResult, file: FileHandle)
      requires Valid()
      modifies this`tree
      ensures Valid() && file == FileHandle(Resolve(path), 0)
      ensures r == CreateResult(old(tree), Resolve(path)) || (!faultless && r == DiskErr) || (!spacious && r == Denied)
      ensures tree == if r == Ok then old(tree)[Resolve(path) := File([])] else old(tree)
    {
      file := FileHandle(Resolve(path), 0);
      r := CreateResult(tree, file.path);
      var full := Full();
      if full { r := Denied; }
      var fault := Faults();
      if fault { r := DiskErr; }
      if r == Ok {
        CreateKeepsValid(tree, file.path);
        tree := tree[file.path := File([])];
      }
    }

    /** Appends; a full card or a fault writes less than asked for. */
    method Write(file: FileHandle, data: seq<byte>) returns (r: FResult, written: nat)
      requires Valid() && file.path in tree && tree[file.path].File?
      modifies this`tree
      ensures Valid() && written <= |data| && (r == Ok || r == DiskErr)
      ensures (faultless ==> r == Ok) && (spacious ==> written == |data| || r != Ok) && (reliable ==> written == |data|)
      ensures tree == old(tree)[file.path := File(old(tree)[file.path].data + data[..written])]
    {
      r, written := Ok, |data|;
      var fault := Faults();
      if fault { r := DiskErr; }
      var accepted: int := *;
      if 0 <= accepted < written && (fault || !spacious) { written := accepted; }
      PlantingKeepsValid(tree, file.path, File(tree[file.path].data + data[..written]));
      tree := tree[file.path := File(tree[file.path].data + data[..written])];
    }

    /** Only closing writes the last bytes and the size of a file; if it fails, any part of the file may be
        missing behind some point. */
    method Close(file: FileHandle) returns (r: FResult)
      requires Valid() && file.path in tree && tree[file.path].File?
      modifies this`tree, this`torn
      ensures Valid() && (r == Ok || (!faultless && r == DiskErr))
      ensures Shortened(old(tree), tree, file.path) && (r == Ok ==> tree == old(tree))
      ensures torn == if r == Ok then old(torn) else old(torn) + {old(tree)[file.path]}
    {
      r := Ok;
      var fault := Faults();
      if fault {
        r := DiskErr;
        torn := torn + {tree[file.path]};
        var kept: int := *;
        if 0 <= kept < |tree[file.path].data| {
          PlantingKeepsValid(tree, file.path, File(tree[file.path].data[..kept]));
          tree := tree[file.path := File(tree[file.path].data[..kept])];
        }
      }
    }

    method OpenForRead(path: string) returns (r: FResult, file: FileHandle)
      ensures file == FileHandle(Resolve(path), 0)
      ensures r == Ok ==> Resolve(path) in tree && tree[Resolve(path)].File?
      ensures faultless && Follow(tree, Resolve(path)) == Ok && tree[Resolve(path)].File? ==> r == Ok
    {
      file := FileHandle(Resolve(path), 0);
      r := Follow(tree, file.path);
      if r == Ok && !tree[file.path].File? { r := NoFile; }
      var fault := Faults();
      if fault { r := DiskErr; }
    }

    method Read(file: FileHandle, count: nat) returns (r: FResult, data: seq<byte>, next: FileHandle)
      requires file.path in tree && tree[file.path].File? && file.position <= |tree[file.path].data|
      ensures r == Ok || (!faultless && r == DiskErr)
      ensures r == Ok ==>
        var content := tree[file.path].data;
        var n := if count <= |content| - file.position then count else |content| - file.position;
        data == content[file.position..file.position + n] && next == file.(position := file.position + n)
    {
      r, data, next := Ok, [], file;
      var fault := Faults();
      if fault { return DiskErr, [], file; }
      var content := tree[file.path].data;
      var n := if count <= |content| - file.position then count else |content| - file.position;
      data := content[file.position..file.position + n];
      next := file.(position := file.position + n);
    }
  }

  function InfoOf(n: Node): FileInfo {
    match n
    case Dir => FileInfo(true, 0)
    case File(data) => FileInfo(false, |data|)
  }
}
