/** src/vfs/GenericCopyContext.cpp with src/vfs/PasteContext.cpp: overwriting a directory, which a recursive
    deletion inside the copy removes before the copy goes on. */
module Overwrite {
  import opened Paths
  import opened FatFs
  import opened Worklists
  import opened Walk
  import opened Mkdir
  import opened CopyPlan
  import opened Copy
  import opened DeleteRecursive

  /** The tree without what lies at or below the roots. */
  ghost function Without(t: Tree, roots: seq<Path>): Tree {
    map p | p in t && !InRoots(roots, p) :: t[p]
  }

  lemma WithoutNothing(t: Tree)
    ensures Without(t, []) == t
  {
  }

  /** What has shrunk has all that was not to go, so whatever it keeps of that is kept. */
  lemma ShrunkKeeps(t: Tree, u: Tree, v: Tree, roots: seq<Path>, torn: set<Node>)
    requires Shrunk(t, u, roots)
    ensures Additive(u, v) ==> Additive(Without(t, roots), v)
    ensures NothingLost(u, v, torn) ==> NothingLost(Without(t, roots), v, torn)
  {
    forall p | p in Without(t, roots)
      ensures p in u && u[p] == t[p]
    {
    }
  }

  lemma ShrunkWithout(t: Tree, u: Tree, roots: seq<Path>)
    requires Shrunk(t, u, roots)
    ensures Without(u, roots) == Without(t, roots)
  {
  }

  lemma IsWithout(t: Tree, roots: seq<Path>)
    ensures Without(t, roots) == map p | p in t && !InRoots(roots, p) :: t[p]
  {
  }

  lemma FileIsAlone(t: Tree, c: Path)
    requires TreeValid(t) && c in t && t[c].File?
    ensures Without(t, [c]) == t - {c}
  {
    forall p | p in t
      ensures InRoots([c], p) <==> p == c
    {
      if InRoots([c], p) {
        assert Within([c][0], p);
        if p != c { NothingBelowAFile(t, c, p); }
      }
      if p == c {
        WithinItself(c);
        assert Within([c][0], p);
      }
    }
  }

  /** What is spared by a deletion stays as it is. */
  lemma SparedStays(fr: Frontier, t: Tree, u: Tree, roots: seq<Path>, entry: bool, directory: bool, x: Path)
    requires Shrunk(t, u, roots) && SteadyAt(fr, t, entry, directory, x)
    requires entry ==> !InRoots(roots, x)
    requires forall i :: 0 <= i < |fr.dirs| ==> !InRoots(roots, fr.dirs[i])
    ensures SteadyAt(fr, u, entry, directory, x)
  {
  }

  /** A deletion of what lies at a path. */
  method Deletion(fatfs: Volume, path: string) returns (context: DeleteRecursiveContext)
    requires fatfs.Valid()
    ensures fresh(context) && fresh(context.walk) && context.fatfs == fatfs && context.Valid()
    ensures context.roots == [["0:"] + Split(path)]
    ensures context.OnTrack() <==> StatResult(fatfs.tree, ["0:"] + Split(path)) in {Ok, NoFile}
    ensures HasDrive(path) ==> context.Astray()
  {
    hide RecursiveFsIterator.Valid, TreeValid, Normal, StatResult, Split, HasDrive;
    hide DeleteRecursiveContext.Valid, DeleteRecursiveContext.OnTrack, DeleteRecursiveContext.Astray;
    context := new DeleteRecursiveContext(fatfs);
    context.AddFile(path);
    var root := ["0:"] + Split(path);
    assert context.roots == [root] && context.roots[0] == root && |context.roots| == 1;
    context.StartsOnTrack();
    assert context.OnTrack() <==> StatResult(fatfs.tree, root) in {Ok, NoFile};
    if HasDrive(path) { context.DriveGoesAstray(path); }
  }

  class OverwriteContext {
    const paste: PasteContext
    /** Removes a directory that is to be overwritten; the copy goes on when it is done. */
    var deleteRecursiveContext: DeleteRecursiveContext?

    ghost predicate Valid()
      reads this, paste, paste.walk, paste.fatfs, deleteRecursiveContext
      reads if deleteRecursiveContext == null then {} else {deleteRecursiveContext.walk}
    {
      && paste.Valid()
      && (deleteRecursiveContext != null ==>
            && Removes(deleteRecursiveContext) && paste.state == CopyState.More && paste.overwritten
            && !paste.deleteFailed)
    }

    ghost predicate Removes(context: DeleteRecursiveContext)
      reads context, context.walk, paste.fatfs
    {
      context.fatfs == paste.fatfs && context.walk != paste.walk && context.Valid()
    }

    constructor (paste: PasteContext)
      requires paste.Valid()
      ensures Valid() && this.paste == paste && deleteRecursiveContext == null
    {
      this.paste := paste;
      deleteRecursiveContext := null;
    }

    /** What is being removed. */
    ghost function Roots(): seq<Path>
      reads this, deleteRecursiveContext
    {
      if deleteRecursiveContext == null then [] else deleteRecursiveContext.roots
    }

    /** Neither the current entry nor a directory the walk still holds lies at or below the roots. */
    ghost predicate Spared(roots: seq<Path>)
      reads paste.walk
    {
      && (paste.walk.state == IteratorState.Valid ==> !InRoots(roots, Resolve(paste.walk.entryFullPath)))
      && forall i :: 0 <= i < |paste.walk.F().dirs| ==> !InRoots(roots, paste.walk.F().dirs[i])
    }

    /** The deletion goes well so far, and nothing in its way can make it fail. */
    ghost predicate OnTrack()
      reads this, deleteRecursiveContext, paste.fatfs
      reads if deleteRecursiveContext == null then {} else {deleteRecursiveContext.walk, deleteRecursiveContext.fatfs}
    {
      deleteRecursiveContext != null ==> deleteRecursiveContext.OnTrack()
    }

    /** The deletion looks for a path that leads nowhere. */
    ghost predicate Astray()
      reads this, deleteRecursiveContext
      reads if deleteRecursiveContext == null then {} else {deleteRecursiveContext.walk, deleteRecursiveContext.fatfs}
    {
      deleteRecursiveContext != null && deleteRecursiveContext.Astray()
    }

    /** How much is left to be deleted. */
    ghost function Left(): nat
      reads this, deleteRecursiveContext
      reads if deleteRecursiveContext == null then {} else {deleteRecursiveContext.walk, deleteRecursiveContext.fatfs}
    {
      if deleteRecursiveContext == null then 0
      else 1 + |deleteRecursiveContext.walk.F().Todo(deleteRecursiveContext.fatfs.tree)|
    }

    /** One turn of the copy while a deletion is under way; batches says how many batches of the deletion
        the clock lets through. */
    method DeleteSlice(batches: nat)
      requires Valid() && deleteRecursiveContext != null
      modifies this`deleteRecursiveContext, paste`state, paste.fatfs`tree
      modifies deleteRecursiveContext`failed, deleteRecursiveContext.walk
      ensures Valid() && Shrunk(old(paste.fatfs.tree), paste.fatfs.tree, old(Roots()))
      ensures deleteRecursiveContext == null
        || (deleteRecursiveContext == old(deleteRecursiveContext) && Roots() == old(Roots()))
      ensures paste.state == CopyState.More
        || (paste.state == CopyState.IoError && deleteRecursiveContext == null)
      ensures deleteRecursiveContext == null && paste.state == CopyState.More ==>
        forall p :: p in paste.fatfs.tree ==> !InRoots(old(Roots()), p)
      ensures paste.fatfs.faultless && old(OnTrack()) && batches > 0 ==>
        paste.state == CopyState.More && OnTrack() && Left() < old(Left())
      ensures old(Astray()) ==> paste.state == CopyState.IoError && paste.fatfs.tree == old(paste.fatfs.tree)
    {
      hide DeleteRecursiveContext.InStep, RecursiveFsIterator.Valid, CacheSound, TreeValid, Normal, InRoots, Shrunk;
      hide Frontier.Todo, Frontier.Ready, Resolve, StatResult;
      var r := deleteRecursiveContext.Continue(batches);
      match r {
        case More =>
        case Done =>
          deleteRecursiveContext.DoneMeansGone();
          deleteRecursiveContext := null;
        case _ =>
          paste.state := CopyState.IoError;
          deleteRecursiveContext := null;
      }
    }

    lemma WalkShares()
      requires paste.Valid()
      ensures paste.walk.fatfs == paste.fatfs
    {
    }

    /** What has shrunk by what is spared leaves the copy able to go on safely. */
    lemma StaysSteady(t: Tree, roots: seq<Path>)
      requires Spared(roots) && Shrunk(t, paste.fatfs.tree, roots) && paste.walk.fatfs == paste.fatfs
      requires paste.walk.state in {IteratorState.Initial, IteratorState.Valid} ==>
        SteadyAt(paste.walk.F(), t, paste.walk.state == IteratorState.Valid, paste.walk.cleanup,
                 Resolve(paste.walk.entryFullPath))
      ensures paste.Steady()
    {
      hide Resolve, InRoots, Shrunk, SteadyAt;
      if paste.walk.state in {IteratorState.Initial, IteratorState.Valid} {
        SparedStays(paste.walk.F(), t, paste.fatfs.tree, roots, paste.walk.state == IteratorState.Valid,
                    paste.walk.cleanup, Resolve(paste.walk.entryFullPath));
      }
    }

    /** The turns of the loop in Continue for which the deletion lasts; clock says how many batches each of
        them lets through. */
    method Delete(rounds: nat, clock: nat -> nat) returns (left: nat)
      requires Valid()
      modifies this`deleteRecursiveContext, paste`state, paste.fatfs`tree
      modifies if deleteRecursiveContext == null then {} else {deleteRecursiveContext, deleteRecursiveContext.walk}
      ensures Valid() && left <= rounds && (deleteRecursiveContext != null ==> left == 0)
      ensures Shrunk(old(paste.fatfs.tree), paste.fatfs.tree, old(Roots()))
      ensures deleteRecursiveContext == null
        || (deleteRecursiveContext == old(deleteRecursiveContext) && Roots() == old(Roots()))
      ensures old(deleteRecursiveContext) == null ==> paste.state == old(paste.state) && left == rounds
      ensures old(deleteRecursiveContext) != null ==>
        || paste.state == CopyState.More
        || (paste.state == CopyState.IoError && deleteRecursiveContext == null)
      ensures old(deleteRecursiveContext) != null && deleteRecursiveContext == null && paste.state == CopyState.More ==>
        paste.fatfs.tree == Without(old(paste.fatfs.tree), old(Roots()))
      ensures paste.fatfs.faultless && old(OnTrack()) && (forall k :: clock(k) > 0) ==>
        && OnTrack() && Left() <= old(Left()) && paste.state == old(paste.state)
        && (rounds > 0 && old(deleteRecursiveContext) != null ==> Left() < old(Left()))
      ensures rounds > 0 && old(Astray()) ==>
        paste.state == CopyState.IoError && paste.fatfs.tree == old(paste.fatfs.tree)
      ensures old(paste.Steady()) && old(Spared(Roots())) ==> paste.Steady()
    {
      hide RecursiveFsIterator.Valid, CacheSound, TreeValid, Normal, InRoots, Shrunk, Resolve, StatResult;
      hide DeleteRecursiveContext.Valid, PasteContext.Valid, DeleteRecursiveContext.OnTrack;
      hide DeleteRecursiveContext.Astray, Spared, SteadyAt, Without;
      ghost var t, roots := paste.fatfs.tree, Roots();
      ShrunkSelf(t, roots);
      left := rounds;
      while left > 0 && deleteRecursiveContext != null
        invariant Valid() && left <= rounds && Shrunk(t, paste.fatfs.tree, roots)
        invariant deleteRecursiveContext == null
          || (deleteRecursiveContext == old(deleteRecursiveContext) && Roots() == roots)
        invariant old(deleteRecursiveContext) == null ==> paste.state == old(paste.state) && left == rounds
        invariant old(deleteRecursiveContext) != null ==>
          || paste.state == CopyState.More
          || (paste.state == CopyState.IoError && deleteRecursiveContext == null)
        invariant
          old(deleteRecursiveContext) != null && deleteRecursiveContext == null && paste.state == CopyState.More ==>
            forall p :: p in paste.fatfs.tree ==> !InRoots(roots, p)
        invariant paste.fatfs.faultless && old(OnTrack()) && (forall k :: clock(k) > 0) ==>
          && OnTrack() && paste.state == old(paste.state)
          && if left == rounds then Left() == old(Left()) else Left() < old(Left())
        invariant old(Astray()) ==>
          && paste.fatfs.tree == t
          && if left == rounds then Astray() else paste.state == CopyState.IoError && deleteRecursiveContext == null
        decreases left
      {
        ghost var u := paste.fatfs.tree;
        DeleteSlice(clock(rounds - left));
        ShrunkChain(t, u, paste.fatfs.tree, roots);
        left := left - 1;
      }
      if old(deleteRecursiveContext) != null && deleteRecursiveContext == null && paste.state == CopyState.More {
        ShrunkToTheEnd(t, paste.fatfs.tree, roots);
        IsWithout(t, roots);
      }
      WalkShares();
      if old(paste.Steady()) && Spared(roots) { StaysSteady(t, roots); }
    }

    /** Continues the run, the deletion first. Of what is not being deleted nothing goes without
        delete-after-copy, and with it the bytes of every file are still somewhere. */
    method Continue(rounds: nat, clock: nat -> nat, ghost plan: Plan)
      requires Valid()
      modifies this`deleteRecursiveContext, paste, paste.walk, paste.fatfs`tree, paste.fatfs`torn
      modifies if deleteRecursiveContext == null then {} else {deleteRecursiveContext, deleteRecursiveContext.walk}
      ensures Valid() && paste.deleteAfterCopy == old(paste.deleteAfterCopy)
      ensures paste.NamesKept(old(paste.walk.Names()), old(paste.walk.skipDirectory))
      ensures !paste.deleteAfterCopy ==> Additive(Without(old(paste.fatfs.tree), old(Roots())), paste.fatfs.tree)
      ensures old(paste.Steady()) && old(Spared(Roots())) ==>
        paste.Steady() && NothingLost(Without(old(paste.fatfs.tree), old(Roots())), paste.fatfs.tree, paste.fatfs.torn)
      ensures old(paste.fatfs.torn) <= paste.fatfs.torn && (paste.fatfs.faultless ==> paste.fatfs.torn == {})
      ensures paste.fatfs.faultless && old(OnTrack()) && (forall k :: clock(k) > 0) ==>
        OnTrack() && (rounds > 0 && old(deleteRecursiveContext) != null ==> Left() < old(Left()))
      ensures rounds > 0 && old(Astray()) ==>
        paste.state == CopyState.IoError && paste.fatfs.tree == old(paste.fatfs.tree)
    {
      hide RecursiveFsIterator.Valid, CacheSound, TreeValid, Normal, InRoots, Shrunk, Resolve, StatResult;
      hide DeleteRecursiveContext.Valid, PasteContext.Valid, DeleteRecursiveContext.OnTrack, PasteContext.OnTrack;
      hide DeleteRecursiveContext.Astray, Spared, SteadyAt, Without, Additive, NothingLost, PasteContext.Steady;
      hide RecursiveFsIterator.Names;
      ghost var t, roots := paste.fatfs.tree, Roots();
      paste.FaultlessTearsNothing();
      var left := Delete(rounds, clock);
      ghost var u := paste.fatfs.tree;
      NothingNewIsAdditive(u);
      NothingLostYet(u, paste.fatfs.torn);
      ShrunkKeeps(t, u, u, roots, paste.fatfs.torn);
      if deleteRecursiveContext != null { return; }
      paste.Continue(left, plan);
      ShrunkKeeps(t, u, paste.fatfs.tree, roots, paste.fatfs.torn);
    }

    /** Begins to overwrite the directory the copy has met. */
    method BeginOverwrite()
      requires Valid() && paste.state == CollisionWithDirectory && !paste.deleteFailed
      modifies this`deleteRecursiveContext, paste`state, paste`overwritten
      ensures Valid() && deleteRecursiveContext != null && fresh(deleteRecursiveContext)
      ensures fresh(deleteRecursiveContext.walk) && Roots() == [["0:"] + Split(paste.collisionPath)]
      ensures OnTrack() <==> StatResult(paste.fatfs.tree, ["0:"] + Split(paste.collisionPath)) in {Ok, NoFile}
      ensures HasDrive(paste.collisionPath) ==> Astray()
    {
      hide RecursiveFsIterator.Valid, CacheSound, TreeValid, Normal, StatResult, Split, HasDrive;
      hide DeleteRecursiveContext.Valid, DeleteRecursiveContext.OnTrack, DeleteRecursiveContext.Astray;
      var context := Deletion(paste.fatfs, paste.collisionPath);
      paste.state, paste.overwritten := CopyState.More, true;
      deleteRecursiveContext := context;
    }

    /** What ContinueWithOverwrite removes: what is being removed already, or what the copy has met. A
        directory is looked for below drive 0, whatever drive it is on. */
    ghost function Doomed(): seq<Path>
      reads this, deleteRecursiveContext, paste, paste.walk
    {
      if deleteRecursiveContext != null then deleteRecursiveContext.roots
      else if paste.deleteFailed || IsParentOf(paste.currentPath, paste.walk.entryFullPath) then []
      else match paste.state
           case Collision => [Resolve(paste.collisionPath)]
           case CollisionWithDirectory => [["0:"] + Split(paste.collisionPath)]
           case _ => []
    }

    /** Nothing but what is doomed goes, unless the copy itself is to take it away. A directory at a path
        with a drive stays where it is, and the copy fails. */
    method ContinueWithOverwrite(rounds: nat, clock: nat -> nat, ghost plan: Plan)
      requires Valid()
      modifies this`deleteRecursiveContext, paste, paste.walk, paste.fatfs`tree, paste.fatfs`torn
      modifies if deleteRecursiveContext == null then {} else {deleteRecursiveContext, deleteRecursiveContext.walk}
      ensures Valid() && paste.deleteAfterCopy == old(paste.deleteAfterCopy)
      ensures paste.NamesKept(old(paste.walk.Names()), old(paste.walk.skipDirectory))
      ensures !paste.deleteAfterCopy ==> Additive(Without(old(paste.fatfs.tree), old(Doomed())), paste.fatfs.tree)
      ensures old(paste.Steady()) && old(Spared(Doomed())) ==>
        paste.Steady() && NothingLost(Without(old(paste.fatfs.tree), old(Doomed())), paste.fatfs.tree, paste.fatfs.torn)
      ensures rounds > 0 && old(Overwrites()) && HasDrive(old(paste.collisionPath)) ==>
        paste.state == CopyState.IoError && paste.fatfs.tree == old(paste.fatfs.tree)
    {
      hide RecursiveFsIterator.Valid, CacheSound, TreeValid, Normal, InRoots, Shrunk, Resolve, StatResult;
      hide DeleteRecursiveContext.Valid, PasteContext.Valid, DeleteRecursiveContext.OnTrack, PasteContext.OnTrack;
      hide DeleteRecursiveContext.Astray, Spared, SteadyAt, Without, Additive, NothingLost, PasteContext.Steady;
      hide RecursiveFsIterator.Names, HasDrive, IsParentOf;
      ghost var t := paste.fatfs.tree;
      NothingNewIsAdditive(t);
      NothingLostYet(t, paste.fatfs.torn);
      WithoutNothing(t);
      if paste.deleteFailed { return; }
      if IsParentOf(paste.currentPath, paste.walk.entryFullPath) {
        Continue(rounds, clock, plan);
        return;
      }
      if paste.state == Collision {
        OverwriteFile(rounds, plan);
        return;
      }
      if paste.state == CollisionWithDirectory { BeginOverwrite(); }
      Continue(rounds, clock, plan);
    }

    /** A directory at a path without a drive is what goes. */
    lemma DoomedDirectory()
      requires deleteRecursiveContext == null && Overwrites()
      ensures Doomed() == [Resolve(paste.collisionPath)] <==> !HasDrive(paste.collisionPath)
    {
      hide Split, Resolve, HasDrive, IsParentOf;
      DeleteRecursiveContext.DriveIsPartOfTheName(paste.collisionPath);
      assert [["0:"] + Split(paste.collisionPath)][0] == ["0:"] + Split(paste.collisionPath);
      assert [Resolve(paste.collisionPath)][0] == Resolve(paste.collisionPath);
    }

    /** On a volume without faults the deletion ends, with exactly the doomed directory gone and the copy
        ready to go on, however the clock cuts it up. */
    method Replace()
      requires Valid() && deleteRecursiveContext != null && paste.fatfs.faultless && OnTrack()
      modifies this`deleteRecursiveContext, paste`state, paste.fatfs`tree
      modifies deleteRecursiveContext, deleteRecursiveContext.walk
      ensures Valid() && deleteRecursiveContext == null && paste.state == CopyState.More
      ensures paste.fatfs.tree == Without(old(paste.fatfs.tree), old(Roots()))
    {
      hide RecursiveFsIterator.Valid, CacheSound, TreeValid, Normal, InRoots, Shrunk, Resolve, StatResult;
      hide DeleteRecursiveContext.Valid, PasteContext.Valid, DeleteRecursiveContext.OnTrack, Without;
      ghost var t, roots := paste.fatfs.tree, Roots();
      ShrunkSelf(t, roots);
      while deleteRecursiveContext != null
        invariant Valid() && OnTrack() && Shrunk(t, paste.fatfs.tree, roots) && paste.state == CopyState.More
        invariant if deleteRecursiveContext == null then paste.fatfs.tree == Without(t, roots)
                  else deleteRecursiveContext == old(deleteRecursiveContext) && Roots() == roots
        decreases Left()
      {
        var rounds: nat, batches: nat :| rounds > 0 && batches > 0;
        ghost var u := paste.fatfs.tree;
        var left := Delete(rounds, _ => batches);
        ShrunkChain(t, u, paste.fatfs.tree, roots);
        ShrunkWithout(t, u, roots);
      }
    }

    /** The next call overwrites a directory. */
    predicate Overwrites()
      reads paste, paste.walk
    {
      && paste.state == CollisionWithDirectory && !paste.deleteFailed
      && !IsParentOf(paste.currentPath, paste.walk.entryFullPath)
    }

    method OverwriteFile(rounds: nat, ghost plan: Plan)
      requires Valid() && paste.state == Collision && !paste.deleteFailed
      requires !IsParentOf(paste.currentPath, paste.walk.entryFullPath)
      modifies paste, paste.walk, paste.fatfs`tree, paste.fatfs`torn
      ensures Valid() && paste.deleteAfterCopy == old(paste.deleteAfterCopy)
      ensures paste.NamesKept(old(paste.walk.Names()), old(paste.walk.skipDirectory))
      ensures !paste.deleteAfterCopy ==> Additive(Without(old(paste.fatfs.tree), old(Doomed())), paste.fatfs.tree)
      ensures old(paste.Steady()) && old(Spared(Doomed())) ==>
        paste.Steady() && NothingLost(Without(old(paste.fatfs.tree), old(Doomed())), paste.fatfs.tree, paste.fatfs.torn)
    {
      hide RecursiveFsIterator.Valid, CacheSound, Normal, Resolve, PasteContext.OnTrack, SteadyAt, NothingLost;
      hide RecursiveFsIterator.Names, PasteContext.Steady, TreeValid, Without, InRoots;
      ghost var t, c := paste.fatfs.tree, Resolve(paste.collisionPath);
      FileIsAlone(t, c);
      OnlyRoot(c);
      paste.ContinueWithOverwrite(rounds, plan);
    }
  }

  lemma OnlyRoot(c: Path)
    ensures InRoots([c], c)
  {
    WithinItself(c);
    assert Within([c][0], c);
  }
}
