/** src/vfs/DeleteRecursiveContext.cpp: recursive deletion, cut into time slices. */
module DeleteRecursive {
  import opened Paths
  import opened FatFs
  import opened Worklists
  import opened Walk

  const BATCH_SIZE := 10

  datatype State = Initial | More | Done | Error

  /** p is one of the selected nodes or below one. */
  ghost predicate InRoots(roots: seq<Path>, p: Path) {
    exists k :: 0 <= k < |roots| && Within(roots[k], p)
  }

  /** Only nodes under the selected paths may be missing, nothing is new or changed. */
  ghost predicate Shrunk(before: Tree, after: Tree, roots: seq<Path>) {
    && (forall p :: p in after ==> p in before && after[p] == before[p])
    && (forall p :: p in before && !InRoots(roots, p) ==> p in after)
  }

  lemma ShrunkChain(a: Tree, b: Tree, c: Tree, roots: seq<Path>)
    requires Shrunk(a, b, roots) && Shrunk(b, c, roots)
    ensures Shrunk(a, c, roots)
  {
  }

  /** Nothing under the selected paths is left: the tree is the old one without those subtrees. */
  lemma ShrunkToTheEnd(before: Tree, after: Tree, roots: seq<Path>)
    requires Shrunk(before, after, roots) && forall p :: p in after ==> !InRoots(roots, p)
    ensures after == map p | p in before && !InRoots(roots, p) :: before[p]
  {
  }

  // ---- unlinking what has just been yielded -------------------------------------------------------

  ghost predicate NoSkips(fr: Frontier) {
    forall k :: 0 <= k < |fr.files| ==> !fr.files[k].skip
  }

  lemma CoverWithoutSkips(fr: Frontier, t: Tree, u: Tree, p: Path)
    requires NoSkips(fr)
    ensures fr.Covers(t, p) <==> fr.Covers(u, p)
  {
    if k :| 0 <= k < |fr.files| && RootCovers(fr.files[k], t, p) { assert RootCovers(fr.files[k], u, p); }
    if k :| 0 <= k < |fr.files| && RootCovers(fr.files[k], u, p) { assert RootCovers(fr.files[k], t, p); }
  }

  /** A yielded node has no children left, so unlinking it succeeds. */
  lemma YieldedIsEmpty(a: Frontier, b: Frontier, t: Tree, x: Path, roots: seq<Path>)
    requires Yields(a, b, t, x) && x in t && |x| > 1 && TreeValid(t)
    requires forall p :: p in t ==> (InRoots(roots, p) <==> a.Covers(t, p))
    ensures InRoots(roots, x) && !HasChildren(t, x) && UnlinkResult(t, x) == Ok
  {
    hide Frontier.Covers, Frontier.Ready;
    FollowFinds(t, x);
    var k :| 0 <= k < |roots| && Within(roots[k], x);
    forall c | c in t && Within(x, c)
      ensures InRoots(roots, c)
    {
      WithinTransitive(roots[k], x, c);
    }
  }

  /** Unlinking it keeps the remaining work as it was. */
  lemma UnlinkKeepsWork(b: Frontier, t: Tree, x: Path)
    requires NoSkips(b) && !b.Covers(t, x)
    ensures b.Todo(t - {x}) == b.Todo(t)
  {
    hide Frontier.Covers;
    forall p ensures b.Covers(t, p) <==> b.Covers(t - {x}, p) { CoverWithoutSkips(b, t, t - {x}, p); }
  }

  lemma UnlinkKeepsReady(b: Frontier, t: Tree, x: Path)
    requires NoSkips(b) && TreeValid(t) && TreeValid(t - {x}) && x in t && !b.Covers(t, x)
    requires b.files != [] ==> t[x].File?
    ensures b.Ready(t) ==> b.Ready(t - {x})
  {
    hide TreeValid, StatResult;
    if b.Ready(t) {
      forall k | 0 <= k < |b.files|
        ensures StatResult(t - {x}, b.files[k].path) in {Ok, NoFile}
      {
        var r := b.files[k].path;
        assert Within(r, r) && RootCovers(b.files[k], t, r);
        StatWithout(t, x, r);
      }
      forall i | 0 <= i < |b.dirs|
        ensures b.dirs[i] != x
      {
        assert b.DirCovers(i, b.dirs[i]);
      }
    }
  }

  lemma AllDeleted(a: Frontier, b: Frontier, t: Tree, roots: seq<Path>)
    requires a.Todo(t) == {} && b.Todo(t) == {}
    requires forall p :: p in t ==> (InRoots(roots, p) <==> a.Covers(t, p))
    ensures forall p :: p in t ==> !InRoots(roots, p) && !b.Covers(t, p)
  {
    hide Frontier.Covers, InRoots;
    assert forall p :: p in t && a.Covers(t, p) ==> p in a.Todo(t);
    assert forall p :: p in t && b.Covers(t, p) ==> p in b.Todo(t);
  }

  /** What holds after a successful unlink of the yielded node. */
  lemma Unlinked(a: Frontier, b: Frontier, t: Tree, x: Path, roots: seq<Path>)
    requires Yields(a, b, t, x) && x in t && |x| > 1 && TreeValid(t) && TreeValid(t - {x}) && NoSkips(b)
    requires forall p :: p in t ==> (InRoots(roots, p) <==> a.Covers(t, p))
    requires b.files != [] ==> t[x].File?
    ensures forall p :: p in t - {x} ==> (InRoots(roots, p) <==> b.Covers(t - {x}, p))
    ensures Shrunk(t, t - {x}, roots)
    ensures a.Ready(t) ==> b.Ready(t - {x})
    ensures |b.Todo(t - {x})| < |a.Todo(t)|
  {
    hide Frontier.Covers, Frontier.Ready, InRoots, UnlinkResult;
    YieldedIsEmpty(a, b, t, x, roots);
    UnlinkKeepsWork(b, t, x);
    UnlinkKeepsReady(b, t, x);
    YieldsTakesOne(a, b, t, x);
    SmallerSet(b.Todo(t), a.Todo(t));
    forall p | p in t - {x}
      ensures InRoots(roots, p) <==> b.Covers(t - {x}, p)
    {
      CoverWithoutSkips(b, t, t - {x}, p);
    }
  }

  lemma DriveComponent(s: string)
    ensures HasDrive(s) ==> Split(s) != [] && !ValidName(Split(s)[0])
  {
    if HasDrive(s) {
      var rest := s[1..];
      assert !IsSeparator(rest[0]);
      assert Split(rest)[0][0] == ':';
      assert Split(s)[0] == [s[0]] + Split(rest)[0];
      assert Split(s)[0][1] == ':' && ':' in Split(s)[0];
    }
  }

  /** No path with a bad name at the root leads to a place where something could be. */
  lemma {:induction false} BadNameStops(t: Tree, p: Path)
    requires |p| > 1 && !ValidName(p[1])
    ensures Follow(t, p) !in {Ok, NoFile} && StatResult(t, p) !in {Ok, NoFile}
  {
    hide ValidName;
    if |p| > 2 { BadNameStops(t, Parent(p)); }
  }

  /** A drive in front of a path makes a component more, or its first component longer. */
  lemma DriveStays(path: string)
    requires HasDrive(path)
    ensures Split(path) != Split(path[2..])
  {
    var rest := path[2..];
    assert path[1..][1..] == rest;
    if rest != [] && !IsSeparator(rest[0]) {
      assert Split(path[1..])[0] == [':'] + Split(rest)[0];
      assert |Split(path)[0]| == 2 + |Split(rest)[0]|;
    } else {
      assert Split(path[1..]) == [[':']] + Split(rest);
      assert |Split(path)| == 1 + |Split(rest)|;
    }
  }

  /** Below the default prefix the entry names the same node as the full path. */
  lemma EntryIsTheNode(path: string)
    requires Anchored("/", path) && Proper(Resolve(path))
    ensures Resolve(AmputatePrefix("/", path)) == Resolve(path)
  {
    hide ValidName, Split, NormalFrom;
    var rest := path[1..];
    BareRoot();
    EntryDenotes("/", path);
    assert path == "/" + rest;
    ResolveSeam("/", rest);
    assert Resolve(path) == ["0:"] + Split(rest);
    DriveComponent(rest);
    assert Resolve(path)[1] == Split(rest)[0];
    ResolveNormal(rest);
  }

  lemma BareRoot()
    ensures Normal("/") == "/" && Resolve("/") == ["0:"]
  {
    assert "/"[1..] == [];
  }

  lemma InitialCover(fr: Frontier, roots: seq<Path>)
    requires fr.dirs == [] && NoSkips(fr) && |roots| == |fr.files|
    requires forall k :: 0 <= k < |roots| ==> roots[k] == fr.files[k].path
    ensures forall t: Tree, p :: InRoots(roots, p) <==> fr.Covers(t, p)
  {
    forall t: Tree, p
      ensures InRoots(roots, p) <==> fr.Covers(t, p)
    {
      if k :| 0 <= k < |roots| && Within(roots[k], p) { assert RootCovers(fr.files[k], t, p); }
      if k :| 0 <= k < |fr.files| && RootCovers(fr.files[k], t, p) { assert Within(roots[k], p); }
    }
  }

  lemma ShrunkSelf(t: Tree, roots: seq<Path>)
    ensures Shrunk(t, t, roots)
  {
  }

  lemma NothingSelected(fr: Frontier, t: Tree)
    requires fr.files == [] && fr.dirs == []
    ensures forall p :: InRoots([], p) <==> fr.Covers(t, p)
  {
  }

  class DeleteRecursiveContext {
    const fatfs: Volume
    const walk: RecursiveFsIterator
    var failed: bool

    /** What has been selected. */
    ghost var roots: seq<Path>

    /** Exactly the selected nodes that still exist are still to be done. */
    ghost predicate InStep()
      reads walk, fatfs
      reads this
    {
      forall p :: p in fatfs.tree ==> (InRoots(roots, p) <==> walk.F().Covers(fatfs.tree, p))
    }

    ghost predicate Valid()
      reads this, walk, fatfs
    {
      && walk.Valid() && fatfs.Valid() && walk.fatfs == fatfs
      && walk.prefix == "/"
      && walk.skipDirectory == (_ => false)
      && (walk.state == IteratorState.Initial ==>
          |roots| == |walk.files| && forall k :: 0 <= k < |roots| ==> roots[k] == Resolve(walk.files[k]))
      && (!failed && walk.state != IteratorState.Error ==> InStep())
    }

    constructor (fatfs: Volume)
      requires fatfs.Valid()
      ensures Valid() && fresh(walk) && this.fatfs == fatfs
      ensures !failed && walk.state == IteratorState.Initial && roots == [] && walk.files == []
    {
      hide Resolve, Normal, Frontier.Covers, TreeValid, InRoots, RecursiveFsIterator.Valid;
      this.fatfs := fatfs;
      walk := new RecursiveFsIterator(fatfs, "/");
      failed := false;
      roots := [];
      new;
      BareRoot();
      NothingSelected(walk.F(), fatfs.tree);
    }

    predicate IsMore()
      reads this, walk
    {
      !failed && walk.state in {IteratorState.Initial, IteratorState.Valid}
    }

    function GetState(): State
      reads this, walk
    {
      if failed then State.Error
      else match walk.state
           case Initial => State.Initial
           case Valid => State.More
           case Done => State.Done
           case Error => State.Error
    }

    /** A selected path is looked for below the root of drive 0, which is where it leads exactly if it
        has no drive of its own. */
    static lemma DriveIsPartOfTheName(path: string)
      ensures ["0:"] + Split(path) == Resolve(path) <==> !HasDrive(path)
    {
      hide Split;
      if HasDrive(path) {
        DriveStays(path);
        assert (["0:"] + Split(path))[1..] == Split(path);
        assert ([path[..2]] + Split(path[2..]))[1..] == Split(path[2..]);
      }
    }

    /** Selecting 1:/a looks for a in a directory 1: of drive 0. */
    static lemma DriveExample()
      ensures ["0:"] + Split("1:/a") == ["0:", "1:", "a"] && Resolve("1:/a") == ["1:", "a"]
    {
      assert "1:/a" == "1:" + "/a" && "1:/a"[2..] == "/a" && "1:/a"[..2] == "1:" && "/a" == "/" + "a";
      PlainName("1:");
      PlainName("a");
      BareSlash("/");
      SplitSeam("/", "a");
      SplitSeam("1:", "/a");
    }

    /** Nothing has gone wrong and nothing in the way of the work left can. */
    ghost predicate OnTrack()
      reads this, walk, fatfs
    {
      GetState() != State.Error && (IsMore() ==> walk.F().Ready(fatfs.tree))
    }

    /** A run starts on track exactly if every selected path has good names and a directory to be in. */
    lemma StartsOnTrack()
      requires Valid() && walk.state == IteratorState.Initial && !failed
      ensures OnTrack() <==>
        forall k :: 0 <= k < |roots| ==>
          StatResult(fatfs.tree, roots[k]) == Ok || StatResult(fatfs.tree, roots[k]) == NoFile
    {
      hide StatResult, Resolve, Frontier.WellFormed, InStep;
      WorkAtStart(walk, fatfs.tree);
      assert forall k :: 0 <= k < |roots| ==> Resolve(walk.files[k]) == roots[k];
    }

    /** The path that is to be looked at first leads nowhere. */
    ghost predicate Astray()
      reads this, walk, fatfs
    {
      && !failed && walk.state == IteratorState.Initial && roots != []
      && StatResult(fatfs.tree, roots[|roots| - 1]) !in {Ok, NoFile}
    }

    lemma AstrayIsLost()
      requires Valid()
      ensures Astray() ==> Lost(walk.files, fatfs.tree)
    {
      hide StatResult, Resolve;
    }

    /** A path with a drive leads nowhere, since no name has a colon. */
    lemma DriveGoesAstray(path: string)
      requires Valid() && !failed && walk.state == IteratorState.Initial
      requires roots != [] && roots[|roots| - 1] == ["0:"] + Split(path) && HasDrive(path)
      ensures Astray()
    {
      hide Split, ValidName, StatResult, DeleteRecursiveContext.InStep, RecursiveFsIterator.Valid, TreeValid;
      DriveComponent(path);
      BadNameStops(fatfs.tree, roots[|roots| - 1]);
    }

    lemma DoneMeansGone()
      requires Valid() && GetState() == State.Done
      ensures forall p :: p in fatfs.tree ==> !InRoots(roots, p)
    {
    }

    method AddFile(path: string)
      requires Valid() && walk.state == IteratorState.Initial
      requires forall k :: 0 <= k < |roots| ==> !Comparable(roots[k], ["0:"] + Split(path))
      modifies walk`files, this`roots
      ensures Valid() && roots == old(roots) + [["0:"] + Split(path)]
      ensures walk.files == old(walk.files) + [Normal("//" + path)] && failed == old(failed)
    {
      hide Resolve, Normal, Split, Within, Frontier.Covers, Frontier.WellFormed, InRoots, AllAnchored, AllAdmitted;
      hide RecursiveFsIterator.Valid, TreeValid;
      BareRoot();
      walk.AddFile(path);
      assert "/" + "/" + path == "//" + path;
      roots := roots + [["0:"] + Split(path)];
      assert forall k :: 0 <= k < |roots| ==> roots[k] == Resolve(walk.files[k]);
      InitialCover(walk.F(), roots);
    }

    method ExecuteStep()
      requires Valid() && IsMore()
      modifies walk, this`failed, fatfs`tree
      ensures Valid() && walk.state != IteratorState.Initial
      ensures Shrunk(old(fatfs.tree), fatfs.tree, roots)
      ensures fatfs.faultless && old(OnTrack()) ==> OnTrack()
      ensures var x := Resolve(walk.entryFullPath);
        walk.state == IteratorState.Valid && x in old(fatfs.tree) ==>
          && !HasChildren(old(fatfs.tree), x)
          && (failed ==> !fatfs.faultless && fatfs.tree == old(fatfs.tree))
          && (!failed ==> fatfs.tree == old(fatfs.tree) - {x})
      ensures IsMore() ==> |walk.F().Todo(fatfs.tree)| < |old(walk.F()).Todo(old(fatfs.tree))|
      ensures old(Astray()) ==> GetState() == State.Error && fatfs.tree == old(fatfs.tree)
    {
      hide Frontier.WellFormed, Frontier.Covers, Frontier.Ready, Frontier.DirsThere, Frontier.Open, Yields, Silent;
      hide Frontier.Todo, Resolve, Within, AmputatePrefix, Anchored, AllAnchored, Admitted, AllAdmitted, InRoots;
      hide UnlinkResult, RootsOf, ResolveAll, Normal, Split, RecursiveFsIterator.Valid, HasChildren, TreeValid, Shrunk;
      hide Lost, Astray;
      AstrayIsLost();
      ghost var a, t := walk.F(), fatfs.tree;
      ShrunkSelf(t, roots);
      ReadyHasDirs(a, t);
      walk.Next();
      ghost var b := walk.F();
      if walk.state == IteratorState.Done { AllDeleted(a, b, t, roots); }
      if !IsMore() { return; }
      ghost var x := Resolve(walk.entryFullPath);
      EntryIsTheNode(walk.entryFullPath);
      var r := fatfs.Unlink(walk.currentEntry);
      failed := r != Ok;
      if x in t { YieldedIsEmpty(a, b, t, x, roots); }
      if r == Ok { UnlinkOk(t, x); }
      if !failed { Unlinked(a, b, t, x, roots); }
    }

    /** One time slice; batches says how many batches the clock lets through. */
    method ExecuteSlice(batches: nat)
      requires Valid()
      modifies walk, this`failed, fatfs`tree
      ensures Valid() && Shrunk(old(fatfs.tree), fatfs.tree, roots)
      ensures fatfs.faultless && old(OnTrack()) ==> OnTrack()
      ensures |walk.F().Todo(fatfs.tree)| <= |old(walk.F().Todo(fatfs.tree))| || !IsMore()
      ensures IsMore() && batches > 0 ==> |walk.F().Todo(fatfs.tree)| < |old(walk.F().Todo(fatfs.tree))|
      ensures old(Astray()) ==>
        fatfs.tree == old(fatfs.tree) && if batches > 0 then GetState() == State.Error else Astray()
      ensures batches > 0 ==> GetState() != State.Initial
    {
      hide Frontier.Ready, Frontier.Todo, Frontier.Covers, Frontier.WellFormed, InRoots, Shrunk;
      hide AllAnchored, AllAdmitted, TreeValid, Resolve, StatResult;
      ghost var t0, n0 := fatfs.tree, |walk.F().Todo(fatfs.tree)|;
      ShrunkSelf(t0, roots);
      var batch := 0;
      while IsMore() && batch < batches
        invariant batch <= batches && Valid() && Shrunk(t0, fatfs.tree, roots)
        invariant fatfs.faultless && old(OnTrack()) ==> OnTrack()
        invariant IsMore() ==> |walk.F().Todo(fatfs.tree)| <= n0 - batch
        invariant old(Astray()) ==>
          fatfs.tree == t0 && if batch > 0 then GetState() == State.Error else Astray()
        invariant batch > 0 ==> GetState() != State.Initial
        decreases batches - batch
      {
        ghost var n1 := |walk.F().Todo(fatfs.tree)|;
        var batchIndex := 0;
        while batchIndex < BATCH_SIZE && IsMore()
          invariant batchIndex <= BATCH_SIZE && Valid() && Shrunk(t0, fatfs.tree, roots)
          invariant fatfs.faultless && old(OnTrack()) ==> OnTrack()
          invariant IsMore() ==> |walk.F().Todo(fatfs.tree)| <= n1 - batchIndex
          invariant old(Astray()) ==>
            fatfs.tree == t0 && if batch + batchIndex > 0 then GetState() == State.Error else Astray()
          invariant batch + batchIndex > 0 ==> GetState() != State.Initial
          decreases BATCH_SIZE - batchIndex
        {
          ghost var t1 := fatfs.tree;
          ExecuteStep();
          ShrunkChain(t0, t1, fatfs.tree, roots);
          batchIndex := batchIndex + 1;
        }
        batch := batch + 1;
      }
    }

    method Continue(batches: nat) returns (r: State)
      requires Valid()
      modifies walk, this`failed, fatfs`tree
      ensures Valid() && Shrunk(old(fatfs.tree), fatfs.tree, roots) && r == GetState()
      ensures fatfs.faultless && old(OnTrack()) ==> OnTrack()
      ensures IsMore() && batches > 0 ==> |walk.F().Todo(fatfs.tree)| < |old(walk.F().Todo(fatfs.tree))|
      ensures old(Astray()) ==> fatfs.tree == old(fatfs.tree) && if batches > 0 then r == State.Error else Astray()
      ensures batches > 0 ==> r != State.Initial
    {
      hide Shrunk;
      ShrunkSelf(fatfs.tree, roots);
      if IsMore() { ExecuteSlice(batches); }
      r := GetState();
    }

    /** The caller's loop, with a clock that lets at least one batch through per call. Whatever the
        slices, only selected nodes go; without I/O errors exactly they go. */
    method Run() returns (r: State)
      requires Valid()
      modifies walk, this`failed, fatfs`tree
      ensures Valid() && r == GetState() && r in {State.Done, State.Error}
      ensures Shrunk(old(fatfs.tree), fatfs.tree, roots)
      ensures r == State.Done ==> fatfs.tree == map p | p in old(fatfs.tree) && !InRoots(roots, p) :: old(fatfs.tree)[p]
      ensures fatfs.faultless && old(OnTrack()) ==> r == State.Done
    {
      hide Frontier.Ready, Frontier.Todo, Frontier.Covers, Frontier.WellFormed, InRoots, Shrunk;
      hide AllAnchored, AllAdmitted, TreeValid, Resolve;
      ghost var t0 := fatfs.tree;
      ShrunkSelf(t0, roots);
      r := GetState();
      while IsMore()
        invariant Valid() && Shrunk(t0, fatfs.tree, roots) && r == GetState()
        invariant fatfs.faultless && old(OnTrack()) ==> OnTrack()
        decreases IsMore(), |walk.F().Todo(fatfs.tree)|
      {
        var batches: nat :| batches > 0;
        ghost var t1 := fatfs.tree;
        r := Continue(batches);
        ShrunkChain(t0, t1, fatfs.tree, roots);
      }
      if r == State.Done {
        DoneMeansGone();
        ShrunkToTheEnd(t0, fatfs.tree, roots);
      }
    }
  }
}
