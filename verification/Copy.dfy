/** src/vfs/GenericCopyContext.cpp with the overrides of src/vfs/PasteContext.cpp: a resumable copy
    of selected files and directories. */
module Copy {
  import opened Paths
  import opened FatFs
  import opened Worklists
  import opened Extract
  import opened Walk
  import opened Mkdir
  import opened CopyPlan

  /** Every selected path is spelled the way the destination is: from the root, with a drive if and only
      if the destination has one, and without a trailing slash; and the skip callback is the parent test. */
  ghost predicate Spelled(names: set<string>, skip: string -> bool, destination: string) {
    && skip == (path => IsParentOf(path, destination))
    && Clean(destination) && Rooted(destination)
    && forall s :: s in names ==>
         Clean(s) && Rooted(s) && !EndsWithSlash(s) && HasDrive(s) == HasDrive(destination)
  }

  class PasteContext {
    const fatfs: Volume
    const walk: RecursiveFsIterator
    const destination: string

    var state: CopyState
    var currentEntry: string
    var currentPath: string
    var collisionPath: string
    var entriesSuccess: nat
    var visitedDirectories: map<string, bool>
    var deleteAfterCopy: bool
    var deleteFailed: bool
    /** A directory has been overwritten, and what visitedDirectories says need not hold any more. */
    ghost var overwritten: bool

    constructor (fatfs: Volume, destination: string, prefix: string)
      ensures this.fatfs == fatfs && fresh(walk) && walk.fatfs == fatfs && walk.Valid()
      ensures walk.prefix == Normal(prefix) && this.destination == Normal(destination)
      ensures walk.state == IteratorState.Initial && walk.files == []
      ensures walk.skipDirectory == (path => IsParentOf(path, Normal(destination)))
      ensures state == More && entriesSuccess == 0 && visitedDirectories == map[]
      ensures !deleteAfterCopy && !deleteFailed && !overwritten
    {
      this.fatfs := fatfs;
      this.destination := Normal(destination);
      NormalIdempotent(prefix);
      walk := new RecursiveFsIterator(fatfs, Normal(prefix));
      state, currentEntry, currentPath, collisionPath := More, [], [], [];
      entriesSuccess, visitedDirectories := 0, map[];
      deleteAfterCopy, deleteFailed, overwritten := false, false, false;
      new;
      walk.SetSkipDirectory(path => IsParentOf(path, Normal(destination)));
    }

    /** Makes sure that next is a directory, or says why it is not. */
    method MakeDirectory(next: string, ghost goal: Path) returns (made: bool)
      requires fatfs.Valid()
      modifies this`state, this`collisionPath, this`visitedDirectories, fatfs`tree
      ensures fatfs.Valid()
      ensures Advanced(old(fatfs.tree), old(visitedDirectories), fatfs.tree, visitedDirectories, Resolve(next), made)
      ensures CacheGrows(old(visitedDirectories), visitedDirectories, Resolve(next))
      ensures made ==> state == old(state) && collisionPath == old(collisionPath)
      ensures !made ==> state in {InvalidEntry, Collision, IoError}
      ensures state == Collision && !made ==>
        collisionPath == next && Resolve(next) in fatfs.tree && fatfs.tree[Resolve(next)].File?
      ensures fatfs.reliable && old(Smooth(fatfs.tree, visitedDirectories, Resolve(next), goal)) ==> made
    {
      hide Resolve, Within, TreeValid, CacheSound, CacheGrows, DirsAdded, Smooth;
      hide StatResult, MkdirResult, Proper;
      ghost var t, n, v := fatfs.tree, Resolve(next), visitedDirectories;
      CacheGrowsBy(v, next, true);
      CacheGrowsBy(v, next, false);
      NothingAdded(t, n);
      StatFacts(t, n);
      if Smooth(t, v, n, goal) { SmoothRound(t, v, next, goal); }
      if CacheSound(v, t) && next in v { CacheSays(v, t, next); }
      if next in visitedDirectories {
        if visitedDirectories[next] {
          return true;
        } else {
          state := InvalidEntry;
          return false;
        }
      }
      var r, fileInfo := fatfs.Stat(next);
      if r == InvalidName {
        state := InvalidEntry;
        Refused(t, n);
        if CacheSound(v, t) { CacheAdd(v, t, next, false); }
        visitedDirectories := visitedDirectories[next := false];
        return false;
      } else if r == Ok {
        if fileInfo.isDirectory {
          if CacheSound(v, t) { CacheAdd(v, t, next, true); }
          visitedDirectories := visitedDirectories[next := true];
          return true;
        } else {
          state := Collision;
          collisionPath := next;
          return false;
        }
      } else if r != NoFile {
        state := IoError;
        return false;
      }
      var m := fatfs.Mkdir(next);
      if m == InvalidName {
        Refused(t, n);
        state := InvalidEntry;
        if CacheSound(v, t) { CacheAdd(v, t, next, false); }
        visitedDirectories := visitedDirectories[next := false];
        return false;
      } else if m != Ok {
        state := IoError;
        return false;
      }
      MkdirAdds(t, n);
      AddedIsAdditive(t, fatfs.tree, n);
      if CacheSound(v, t) {
        CacheStaysSound(v, t, fatfs.tree);
        CacheAdd(v, fatfs.tree, next, true);
      }
      visitedDirectories := visitedDirectories[next := true];
      return true;
    }

    /** Makes every directory on the way to path, skipping those known to be there. */
    method MkdirRecursive(path: string)
      requires fatfs.Valid() && Clean(path)
      modifies this`state, this`collisionPath, this`visitedDirectories, fatfs`tree
      ensures fatfs.Valid() && DirsAdded(old(fatfs.tree), fatfs.tree, Resolve(path))
      ensures CacheGrows(old(visitedDirectories), visitedDirectories, Resolve(path))
      ensures old(CacheSound(visitedDirectories, fatfs.tree)) ==> CacheSound(visitedDirectories, fatfs.tree)
      ensures state in {More, InvalidEntry, Collision, IoError}
      ensures state == Collision ==>
        Resolve(collisionPath) in fatfs.tree && fatfs.tree[Resolve(collisionPath)].File?
      ensures state == More && FirstSlash(path) + 1 < |path| && old(CacheSound(visitedDirectories, fatfs.tree)) ==>
        IsDir(fatfs.tree, Resolve(path))
      ensures FirstSlash(path) + 1 == |path| ==> state == More && fatfs.tree == old(fatfs.tree)
      ensures FirstSlash(path) == |path| ==> state == InvalidEntry && fatfs.tree == old(fatfs.tree)
      ensures fatfs.reliable && Rooted(path)
        && old(CacheSound(visitedDirectories, fatfs.tree) && Clear(fatfs.tree, Resolve(path)))
        ==> state == More
    {
      hide Resolve, Split, Within, TreeValid, CacheSound, DirsAdded, Smooth, Clear, Clean, Rooted, IsDir, Additive;
      hide CacheGrows;
      ghost var t0, v0, goal := fatfs.tree, visitedDirectories, Resolve(path);
      NothingAdded(t0, goal);
      CacheUnchanged(v0, goal);
      state := More;
      var firstSlash := FirstSlash(path);
      if firstSlash == |path| {
        RootedHasSlash(path);
        state := InvalidEntry;
        return;
      }
      var next := path[..firstSlash];
      var rest := path[firstSlash + 1..];
      HeadAndRest(path);
      RestIsClean(path);
      if Rooted(path) { HeadIsDrive(path); }
      if |rest| == 0 { return; }
      ghost var sound := CacheSound(v0, t0);
      ghost var smooth := fatfs.reliable && Rooted(path) && sound && Clear(t0, goal);
      if smooth {
        ClearDrive(t0, goal);
        assert goal[..1] == Resolve(next);
      }
      ghost var begun := false;
      var again := true;
      while again
        invariant state == More && fatfs.Valid() && DirsAdded(t0, fatfs.tree, goal)
        invariant CacheGrows(v0, visitedDirectories, goal)
        invariant Clean(rest) && (rest != [] ==> rest[0] != '/') && (again ==> rest != [])
        invariant Resolve(next) + Split(rest) == goal
        invariant sound ==> CacheSound(visitedDirectories, fatfs.tree)
        invariant sound && begun ==> IsDir(fatfs.tree, Resolve(next))
        invariant smooth ==> IsDir(fatfs.tree, Resolve(next))
        invariant !again ==> begun && Split(rest) == []
        decreases |rest|, again
      {
        var pos := FirstSlash(rest);
        var comp := rest[..pos];
        SplitFirst(rest);
        ResolveComponent(next, comp);
        ghost var dir, t, v := Resolve(next), fatfs.tree, visitedDirectories;
        next := next + "/" + comp;
        rest := if pos < |rest| then rest[pos + 1..] else [];
        if smooth { SmoothAgain(t0, t, visitedDirectories, dir, comp, Split(rest), goal); }
        OnTheWay(dir, comp, Split(rest), goal);
        var made := MakeDirectory(next, goal);
        DirsAddedWiden(t, fatfs.tree, Resolve(next), goal);
        DirsAddedChain(t0, t, fatfs.tree, goal);
        CacheGrowsChain(v0, v, visitedDirectories, Resolve(next), goal);
        if !made { return; }
        NoComponents();
        begun := true;
        again := rest != [];
      }
      assert Resolve(next) == goal;
    }

    /** Copies the current file to currentPath, unless something is there already. A partial copy is
        removed again when the card is full or the source cannot be read. */
    method CopyCurrentEntry()
      requires fatfs.Valid() && walk.Valid() && walk.fatfs == fatfs
      requires walk.state == IteratorState.Valid && !walk.cleanup
      modifies this`state, this`collisionPath, walk`state, fatfs`tree, fatfs`torn
      ensures fatfs.Valid() && walk.Valid() && walk.state in {IteratorState.Valid, IteratorState.Error}
      ensures OnlyNew(old(fatfs.tree), fatfs.tree, Resolve(currentPath))
      ensures state == More ==>
        Copied(old(fatfs.tree), fatfs.tree, Resolve(walk.entryFullPath), Resolve(currentPath), fatfs.torn)
      ensures old(fatfs.torn) <= fatfs.torn && (fatfs.faultless ==> fatfs.torn == old(fatfs.torn))
      ensures Resolve(currentPath) == Resolve(walk.entryFullPath) && walk.filinfo.size > 0 ==>
        state != More && (old(Blank(fatfs.tree, Resolve(currentPath))) ==> Blank(fatfs.tree, Resolve(currentPath)))
      ensures Additive(old(fatfs.tree), fatfs.tree)
      ensures old(CacheSound(visitedDirectories, fatfs.tree)) ==> CacheSound(visitedDirectories, fatfs.tree)
      ensures state in {Collision, CollisionWithDirectory} ==>
        && fatfs.tree == old(fatfs.tree) && collisionPath == currentPath
        && walk.state == IteratorState.Valid && Resolve(currentPath) in fatfs.tree
        && (state == Collision ==> fatfs.tree[Resolve(currentPath)].File?)
      ensures fatfs.faultless && state in {CardFull, IteratorError} ==> fatfs.tree == old(fatfs.tree)
      ensures state != CopyState.Done
      ensures fatfs.reliable && StatResult(old(fatfs.tree), Resolve(currentPath)) == NoFile
        && old(walk.Standing(fatfs.tree))
        ==> state == More && walk.state == IteratorState.Valid
    {
      hide Resolve, Split, Within, TreeValid, StatResult, AmputatePrefix, Anchored, AllAnchored, Admitted, AllAdmitted;
      hide RootsOf, ResolveAll, Frontier.WellFormed, OnlyNew, Copied, Appended, CreateResult, Proper, Blank;
      hide RecursiveFsIterator.Valid, Additive, CacheSound;
      ghost var t0, x, y := fatfs.tree, Resolve(walk.entryFullPath), Resolve(currentPath);
      StatFacts(t0, y);
      NothingNew(t0, y);
      NothingNewIsAdditive(t0);
      NothingIsBlank(t0, y);
      var r, fileInfo := fatfs.Stat(currentPath);
      if r == InvalidName {
        state := InvalidEntry;
        return;
      } else if r == Ok {
        state := if fileInfo.isDirectory then CollisionWithDirectory else Collision;
        collisionPath := currentPath;
        return;
      } else if r != NoFile {
        state := IoError;
        return;
      }
      if fatfs.reliable { CreateMissing(t0, y); }
      var o, file := fatfs.OpenForWrite(currentPath);
      if o == InvalidName {
        state := InvalidEntry;
        return;
      } else if o != Ok {
        state := IoError;
        return;
      }
      FillCopy(file, t0);
      CloseCopy(file, t0, x);
      OnlyNewIsAdditive(t0, fatfs.tree, y);
      if CacheSound(visitedDirectories, t0) { CacheStaysSound(visitedDirectories, t0, fatfs.tree); }
    }

    /** Reads the current entry into the file that has just been created. */
    method FillCopy(file: FileHandle, ghost before: Tree)
      requires fatfs.Valid() && walk.Valid() && walk.fatfs == fatfs
      requires walk.state == IteratorState.Valid && !walk.cleanup
      requires file.path !in before && fatfs.tree == before[file.path := File([])]
      modifies this`state, walk`state, fatfs`tree
      ensures fatfs.Valid() && walk.Valid() && walk.state in {IteratorState.Valid, IteratorState.Error}
      ensures Appended(before[file.path := File([])], fatfs.tree, file.path) && OnlyNew(before, fatfs.tree, file.path)
      ensures state in {More, CardFull, IoError, IteratorError}
      ensures state == More ==> Copied(before, fatfs.tree, Resolve(walk.entryFullPath), file.path, {})
      ensures file.path == Resolve(walk.entryFullPath) ==>
        Blank(fatfs.tree, file.path) && (walk.filinfo.size > 0 ==> state != More)
      ensures fatfs.reliable && old(walk.Standing(before)) ==> state == More && walk.state == IteratorState.Valid
    {
      hide Resolve, TreeValid, OnlyNew, Copied, Appended, RecursiveFsIterator.Valid, Anchored, AmputatePrefix, Proper;
      ghost var t1, x := fatfs.tree, Resolve(walk.entryFullPath);
      var context := new ExtractContext(file, fatfs);
      walk.ReadCurrent(context);
      AppendedCopies(before, t1, fatfs.tree, x, file.path);
      if walk.state == IteratorState.Error {
        state := IteratorError;
      } else {
        state := match context.status case WriteError => IoError case Full => CardFull case Good => More;
      }
    }

    /** deferClose: what closing says is ignored. */
    method CloseCopy(file: FileHandle, ghost before: Tree, ghost x: Path)
      requires fatfs.Valid() && file.path == Resolve(currentPath) && StatResult(before, file.path) == NoFile
      requires Appended(before[file.path := File([])], fatfs.tree, file.path) && OnlyNew(before, fatfs.tree, file.path)
      modifies fatfs`tree, fatfs`torn
      ensures fatfs.Valid() && OnlyNew(before, fatfs.tree, file.path)
      ensures state !in {CardFull, IteratorError} && Copied(before, old(fatfs.tree), x, file.path, {}) ==>
        Copied(before, fatfs.tree, x, file.path, fatfs.torn)
      ensures fatfs.faultless && state in {CardFull, IteratorError} ==> fatfs.tree == before
      ensures old(Blank(fatfs.tree, file.path)) ==> Blank(fatfs.tree, file.path)
      ensures old(fatfs.torn) <= fatfs.torn && (fatfs.faultless ==> fatfs.torn == old(fatfs.torn))
    {
      hide Resolve, TreeValid, StatResult, OnlyNew, Copied, Appended, UnlinkResult;
      ghost var y, t1, t2 := file.path, before[file.path := File([])], fatfs.tree;
      StatFacts(before, y);
      AppendedFile(t1, t2, y);
      var ignored := fatfs.Close(file);
      ghost var t3 := fatfs.tree;
      ClosedCopies(before, t1, t2, t3, x, y, fatfs.torn);
      if state == CardFull || state == IteratorError {
        PartialGone(before, t1, t3, y);
        var u := fatfs.Unlink(currentPath);
        PartialRemoved(before, t3, y);
      }
    }

    ghost predicate Valid()
      reads this, walk, fatfs
    {
      && fatfs.Valid() && walk.Valid() && walk.fatfs == fatfs && Normal(destination) == destination
      && (!deleteAfterCopy && !overwritten ==> CacheSound(visitedDirectories, fatfs.tree))
      && (state == Collision ==> Resolve(collisionPath) in fatfs.tree && fatfs.tree[Resolve(collisionPath)].File?)
      && (state in {Collision, CollisionWithDirectory} ==> walk.state == IteratorState.Valid)
    }

    /** The current entry is the next step of the plan. */
    ghost predicate AtWork(plan: Plan, done: set<Path>)
      reads this`deleteAfterCopy, this`deleteFailed, this`visitedDirectories, this`entriesSuccess, walk, fatfs
    {
      var x := Resolve(walk.entryFullPath);
      && fatfs.reliable && deleteAfterCopy == plan.cut && !deleteFailed
      && Due(plan, fatfs.tree, done, visitedDirectories, x)
      && plan.source == Resolve(walk.prefix) && plan.target == Resolve(destination)
      && walk.state == IteratorState.Valid && walk.Standing(fatfs.tree) && Rooted(destination + "/")
      && (if walk.cleanup then plan.start[x].Dir? else plan.start[x].File? && !Trailing(walk.entryFullPath))
    }

    /** Removes the source of what has just been copied, if asked to. */
    method OnAfterCopy()
      requires fatfs.Valid()
      modifies this`deleteFailed, fatfs`tree
      ensures fatfs.Valid()
      ensures !deleteAfterCopy ==> deleteFailed == old(deleteFailed)
      ensures fatfs.tree == old(fatfs.tree)
        || (deleteAfterCopy && fatfs.tree == old(fatfs.tree) - {Resolve(walk.entryFullPath)})
      ensures deleteAfterCopy && fatfs.faultless && UnlinkResult(old(fatfs.tree), Resolve(walk.entryFullPath)) == Ok ==>
        fatfs.tree == old(fatfs.tree) - {Resolve(walk.entryFullPath)} && !deleteFailed
    {
      hide TreeValid, Resolve, UnlinkResult;
      if !deleteAfterCopy { return; }
      var result := fatfs.Unlink(walk.entryFullPath);
      deleteFailed := result != Ok && result != Denied;
    }

    /** Counts the entry that has been copied; t is the tree before. */
    method Succeed(ghost t: Tree, ghost y: Path)
      requires fatfs.Valid()
      requires var x := Resolve(walk.entryFullPath);
        && Moved(t, fatfs.tree, x, y, walk.cleanup, fatfs.torn)
        && Moved(t, fatfs.tree - {x}, x, y, walk.cleanup, fatfs.torn)
      modifies this`deleteFailed, this`entriesSuccess, fatfs`tree
      ensures fatfs.Valid() && entriesSuccess == old(entriesSuccess) + 1
      ensures Moved(t, fatfs.tree, Resolve(walk.entryFullPath), y, walk.cleanup, fatfs.torn)
      ensures !deleteAfterCopy ==> fatfs.tree == old(fatfs.tree) && deleteFailed == old(deleteFailed)
      ensures deleteAfterCopy && fatfs.faultless && UnlinkResult(old(fatfs.tree), Resolve(walk.entryFullPath)) == Ok ==>
        fatfs.tree == old(fatfs.tree) - {Resolve(walk.entryFullPath)} && !deleteFailed
    {
      hide TreeValid, Resolve, UnlinkResult, Moved;
      OnAfterCopy();
      entriesSuccess := entriesSuccess + 1;
    }

    method PlaceDirectory(ghost plan: Plan, ghost done: set<Path>)
      requires Valid() && state == More && walk.state == IteratorState.Valid && walk.cleanup
      requires currentPath == Normal(destination + "/" + walk.currentEntry)
      modifies this`state, this`collisionPath, this`visitedDirectories, this`deleteFailed, this`entriesSuccess,
               fatfs`tree
      ensures Valid() && state != CopyState.Done
      ensures Moved(old(fatfs.tree), fatfs.tree, Resolve(walk.entryFullPath), Resolve(currentPath), walk.cleanup,
                    fatfs.torn)
      ensures old(fatfs.torn) <= fatfs.torn
      ensures !deleteAfterCopy ==> Additive(old(fatfs.tree), fatfs.tree) && deleteFailed == old(deleteFailed)
      ensures state in {Collision, CollisionWithDirectory} ==> Additive(old(fatfs.tree), fatfs.tree)
      ensures old(AtWork(plan, done)) ==>
        && state == More && entriesSuccess == old(entriesSuccess) + 1 && !deleteFailed
        && CacheFine(plan, visitedDirectories, fatfs.tree)
        && PlacedNow(plan, done, old(fatfs.tree), fatfs.tree, Resolve(walk.entryFullPath))
    {
      hide Resolve, Split, Within, TreeValid, CacheSound, DirsAdded, Clear, Clean, Rooted, IsDir, Additive, Moved;
      hide Anchored, AmputatePrefix, PlacedNow, Proper, Normal, Trailing, CacheFine, CacheGrows, Due, UnlinkResult;
      hide RecursiveFsIterator.Valid, FirstSlash;
      ghost var t, v, x, y := fatfs.tree, visitedDirectories, Resolve(walk.entryFullPath), Resolve(currentPath);
      NormalIdempotent(destination + "/" + walk.currentEntry);
      ghost var atWork := AtWork(plan, done);
      if atWork { DirectoryAtWork(plan, done); }
      MkdirRecursive(currentPath);
      ghost var u := fatfs.tree;
      DirsAddedMoves(t, u, x, y, true, fatfs.torn);
      if atWork { DirectoryDone(plan, v, t, visitedDirectories, u, done, x); }
      DirectoryGone(t, u, x, y, fatfs.torn);
      if state == More { Succeed(t, y); }
    }

    /** What the plan says about the directory that comes next. */
    lemma DirectoryAtWork(plan: Plan, done: set<Path>)
      requires Valid() && AtWork(plan, done) && walk.cleanup
      requires currentPath == Normal(destination + "/" + walk.currentEntry)
      ensures var x, y := Resolve(walk.entryFullPath), Resolve(currentPath);
        && x in plan.goal && plan.Grounded() && plan.start[x].Dir? && y == plan.Image(x)
        && Rooted(currentPath) && Clear(fatfs.tree, y) && FirstSlash(currentPath) + 1 < |currentPath|
        && CacheSound(visitedDirectories, fatfs.tree)
    {
      hide Resolve, Split, Within, TreeValid, CacheSound, Clear, Clean, Rooted, Frontier.WellFormed;
      hide AmputatePrefix, Plan.Feasible, Plan.Closed, Progress, Normal, Trailing, EndsWithSlash, StatResult, Admitted;
      hide CacheFine, Bottom;
      var x := Resolve(walk.entryFullPath);
      FeasibleFacts(plan, x);
      CurrentPathMeaning(walk.prefix, destination, walk.entryFullPath);
      WayIsClear(plan, fatfs.tree, done, x, Resolve(currentPath));
      DeepPath(currentPath);
      CacheFineSound(plan, visitedDirectories, fatfs.tree);
    }

    /** What the plan says about the file that comes next. */
    lemma FileAtWork(plan: Plan, done: set<Path>)
      requires Valid() && AtWork(plan, done) && !walk.cleanup
      requires currentPath == Normal(destination + "/" + walk.currentEntry)
      ensures var x, dir := Resolve(walk.entryFullPath), Resolve(Dirname(currentPath));
        && plan.Grounded() && x in plan.goal && x in plan.start && plan.start[x].File?
        && Resolve(currentPath) == plan.Image(x) && dir == Parent(plan.Image(x)) && plan.Image(x) !in fatfs.tree
        && Rooted(Dirname(currentPath)) && Clear(fatfs.tree, dir) && CacheSound(visitedDirectories, fatfs.tree)
    {
      hide Resolve, Split, Within, TreeValid, CacheSound, Clear, Clean, Rooted, Frontier.WellFormed;
      hide AmputatePrefix, Plan.Feasible, Progress, Normal, Trailing, EndsWithSlash, StatResult, Admitted, Dirname;
      hide CacheFine, Bottom, Plan.Closed;
      var x := Resolve(walk.entryFullPath);
      FeasibleFacts(plan, x);
      CurrentPathMeaning(walk.prefix, destination, walk.entryFullPath);
      DirnameIsParent(currentPath);
      WayIsClear(plan, fatfs.tree, done, x, Parent(Resolve(currentPath)));
      ImageIsFree(plan, fatfs.tree, done, x);
      CacheFineSound(plan, visitedDirectories, fatfs.tree);
    }

    /** The directory that is to hold the copy of a file. */
    method MakeParent(ghost plan: Plan, ghost done: set<Path>)
      requires Valid() && state == More && walk.state == IteratorState.Valid && !walk.cleanup
      requires currentPath == Normal(destination + "/" + walk.currentEntry)
      modifies this`state, this`collisionPath, this`visitedDirectories, fatfs`tree
      ensures Valid() && state in {More, InvalidEntry, Collision, IoError} && Additive(old(fatfs.tree), fatfs.tree)
      ensures forall p :: p !in old(fatfs.tree) ==> Blank(fatfs.tree, p)
      ensures old(AtWork(plan, done)) ==>
        var x := Resolve(walk.entryFullPath);
        && x in plan.start && plan.start[x].File? && |plan.source| <= |x| && Resolve(currentPath) == plan.Image(x)
        && state == More && Resolve(currentPath) != [] && CacheSound(visitedDirectories, fatfs.tree)
        && DirsAdded(old(fatfs.tree), fatfs.tree, Parent(Resolve(currentPath)))
        && CacheGrows(old(visitedDirectories), visitedDirectories, Parent(Resolve(currentPath)))
        && StatResult(fatfs.tree, Resolve(currentPath)) == NoFile && walk.Standing(fatfs.tree)
    {
      hide Resolve, Split, Within, TreeValid, CacheSound, DirsAdded, Clear, Clean, Rooted, IsDir, Additive, Blank;
      hide Anchored, AmputatePrefix, Proper, Normal, Trailing, CacheFine, CacheGrows, Due;
      hide EndsWithSlash, StatResult, Admitted, Dirname, RecursiveFsIterator.Valid, FirstSlash, Parent;
      ghost var t, x := fatfs.tree, Resolve(walk.entryFullPath);
      NormalIdempotent(destination + "/" + walk.currentEntry);
      DirnameClean(currentPath);
      ghost var atWork := AtWork(plan, done);
      if atWork {
        FileAtWork(plan, done);
        GroundedFacts(plan, x);
      }
      MkdirRecursive(Dirname(currentPath));
      ghost var u := fatfs.tree;
      AddedIsAdditive(t, u, Resolve(Dirname(currentPath)));
      BlankAfterDirs(t, u, Resolve(Dirname(currentPath)));
      if atWork {
        ParentIsThere(t, u, Dirname(currentPath));
        ImageStats(plan, t, u, x);
        StandingStays(t, u);
      }
    }

    method PlaceFile(ghost plan: Plan, ghost done: set<Path>)
      requires Valid() && state == More && walk.state == IteratorState.Valid && !walk.cleanup
      requires currentPath == Normal(destination + "/" + walk.currentEntry)
      modifies this`state, this`collisionPath, this`visitedDirectories, this`deleteFailed, this`entriesSuccess
      modifies walk`state, fatfs`tree, fatfs`torn
      ensures Valid() && state != CopyState.Done
      ensures Moved(old(fatfs.tree), fatfs.tree, Resolve(walk.entryFullPath), Resolve(currentPath), walk.cleanup,
                    fatfs.torn)
      ensures old(fatfs.torn) <= fatfs.torn
      ensures !deleteAfterCopy ==> Additive(old(fatfs.tree), fatfs.tree) && deleteFailed == old(deleteFailed)
      ensures state in {Collision, CollisionWithDirectory} ==> Additive(old(fatfs.tree), fatfs.tree)
      ensures old(AtWork(plan, done)) ==>
        && state == More && entriesSuccess == old(entriesSuccess) + 1 && walk.state == IteratorState.Valid
        && !deleteFailed && CacheFine(plan, visitedDirectories, fatfs.tree)
        && PlacedNow(plan, done, old(fatfs.tree), fatfs.tree, Resolve(walk.entryFullPath))
      ensures old(Misaimed() && Resolve(walk.entryFullPath) !in fatfs.tree) ==>
        state != More && Blank(fatfs.tree, old(Resolve(walk.entryFullPath)))
    {
      hide Resolve, Split, Within, TreeValid, CacheSound, DirsAdded, IsDir, Additive, Moved,
           RecursiveFsIterator.Standing;
      hide PlacedNow, Normal, OnlyNew, Copied, CacheFine, CacheGrows, Due, Blank, Misaimed, Trailing;
      hide StatResult, RecursiveFsIterator.Valid, Parent, UnlinkResult;
      MisaimedMeans();
      ghost var t, v, x, y := fatfs.tree, visitedDirectories, Resolve(walk.entryFullPath), Resolve(currentPath);
      ghost var atWork := AtWork(plan, done);
      MakeParent(plan, done);
      ghost var u := fatfs.tree;
      AdditiveMoves(t, u, x, y, false, fatfs.torn);
      if state != More { return; }
      CopyCurrentEntry();
      ghost var w := fatfs.tree;
      AdditiveChain(t, u, w);
      AdditiveMoves(t, w, x, y, false, fatfs.torn);
      if atWork { FileDone(plan, v, t, visitedDirectories, u, w, done, x); }
      if state == More {
        FileGone(t, u, w, x, y, fatfs.torn);
        Succeed(t, y);
      }
    }

    lemma StandingStays(t: Tree, u: Tree)
      requires walk.Standing(t) && Additive(t, u)
      ensures walk.Standing(u)
    {
    }

    predicate SkipCurrentEntry()
      reads this, walk
    {
      Normal(currentPath) == Normal(walk.entryFullPath)
    }

    /** The entry is a file with content and its target is the entry itself, but the test does not see it. */
    ghost predicate Misaimed()
      reads walk
    {
      var path := Normal(destination + "/" + walk.currentEntry);
      && walk.state == IteratorState.Valid && !walk.cleanup && walk.filinfo.size > 0
      && Resolve(path) == Resolve(walk.entryFullPath) && Normal(path) != Normal(walk.entryFullPath)
    }

    lemma MisaimedMeans()
      ensures Misaimed() ==>
        Resolve(Normal(destination + "/" + walk.currentEntry)) == Resolve(walk.entryFullPath) && walk.filinfo.size > 0
    {
    }

    lemma MisaimedAtEntry()
      ensures Misaimed() ==> walk.state == IteratorState.Valid
    {
    }

    /** Copies the current entry, unless it would be copied onto itself. */
    method PlaceCurrent(ghost plan: Plan, ghost done: set<Path>)
      requires Valid() && state == More && walk.state == IteratorState.Valid
      modifies this`state, this`collisionPath, this`visitedDirectories, this`deleteFailed, this`entriesSuccess
      modifies this`currentEntry, this`currentPath, walk`state, fatfs`tree, fatfs`torn
      ensures Valid() && state != CopyState.Done
      ensures Moved(old(fatfs.tree), fatfs.tree, Resolve(walk.entryFullPath), Resolve(currentPath), walk.cleanup,
                    fatfs.torn)
      ensures old(fatfs.torn) <= fatfs.torn
      ensures !deleteAfterCopy ==> Additive(old(fatfs.tree), fatfs.tree) && deleteFailed == old(deleteFailed)
      ensures state in {Collision, CollisionWithDirectory} ==> Additive(old(fatfs.tree), fatfs.tree)
      ensures old(AtWork(plan, done)) ==>
        && state == More && entriesSuccess == old(entriesSuccess) + 1 && walk.state == IteratorState.Valid
        && !deleteFailed && CacheFine(plan, visitedDirectories, fatfs.tree)
        && PlacedNow(plan, done, old(fatfs.tree), fatfs.tree, Resolve(walk.entryFullPath))
      ensures old(Misaimed() && Resolve(walk.entryFullPath) !in fatfs.tree) ==>
        state != More && Blank(fatfs.tree, old(Resolve(walk.entryFullPath)))
    {
      hide Resolve, Split, Within, TreeValid, CacheSound, Rooted, Additive, Moved;
      hide Anchored, AmputatePrefix, Plan.Feasible, Progress, PlacedNow, Proper, Normal, Trailing, Admitted;
      hide Blank;
      currentEntry := walk.currentEntry;
      currentPath := NormalizePath(destination + "/" + currentEntry);
      ghost var t, x := fatfs.tree, Resolve(walk.entryFullPath);
      if AtWork(plan, done) {
        FeasibleFacts(plan, x);
        CurrentPathMeaning(walk.prefix, destination, walk.entryFullPath);
        NotOntoItself(plan, x, currentPath, walk.entryFullPath);
      }
      NothingNewIsAdditive(t);
      AdditiveMoves(t, t, x, Resolve(currentPath), walk.cleanup, fatfs.torn);
      if SkipCurrentEntry() { return; }
      if walk.cleanup {
        PlaceDirectory(plan, done);
      } else {
        PlaceFile(plan, done);
      }
    }

    /** What holds all along a run that goes as planned, with exactly done copied so far. */
    ghost predicate Course(plan: Plan, done: set<Path>)
      reads this`deleteAfterCopy, this`deleteFailed, this`visitedDirectories, this`entriesSuccess, walk, fatfs
    {
      && fatfs.reliable && deleteAfterCopy == plan.cut && !deleteFailed && Rooted(destination + "/")
      && plan.Feasible() && plan.Closed() && CacheFine(plan, visitedDirectories, fatfs.tree)
      && plan.source == Resolve(walk.prefix) && plan.target == Resolve(destination)
      && Progress(plan, fatfs.tree, done) && entriesSuccess == |done|
      && walk.state != IteratorState.Error
      && (walk.state != IteratorState.Done ==> walk.F().Ready(fatfs.tree))
      && Selected(walk.files, walk.kept, plan.selected, plan.start)
      && walk.F().Todo(fatfs.tree) <= plan.goal
    }

    /** Between two entries: what is not copied is still to be walked. */
    ghost predicate Between(plan: Plan)
      reads this`deleteAfterCopy, this`deleteFailed, this`visitedDirectories, this`entriesSuccess, walk, fatfs
    {
      Course(plan, plan.goal - walk.F().Todo(fatfs.tree))
    }

    /** The run goes as planned. */
    ghost predicate OnTrack(plan: Plan)
      reads this, walk, fatfs
    {
      var todo := walk.F().Todo(fatfs.tree);
      var x := Resolve(walk.entryFullPath);
      && state in {More, CopyState.Done}
      && (state == CopyState.Done ==> walk.state == IteratorState.Done)
      && if walk.state == IteratorState.Valid
         then x !in todo && AtWork(plan, Behind(plan.goal, todo, x)) && Course(plan, Behind(plan.goal, todo, x))
         else Between(plan)
    }

    /** The walk has not taken up other selected paths or another skip callback. */
    ghost predicate NamesKept(names: set<string>, skip: string -> bool)
      reads walk
    {
      walk.Names() <= names && walk.skipDirectory == skip
    }

    ghost predicate WellSpelled()
      reads walk
    {
      Spelled(walk.Names(), walk.skipDirectory, destination)
    }

    lemma StaysWellSpelled(names: set<string>, skip: string -> bool)
      requires NamesKept(names, skip) && Spelled(names, skip, destination)
      ensures WellSpelled()
    {
    }

    /** The walk never holds the destination or a directory above it, so it never opens one and
        never yields one, although only selected paths are put to the skip callback. */
    lemma NeverAboveDestination(d: string)
      requires walk.Valid() && WellSpelled()
      requires d in walk.directories || Admitted(walk.kept, d)
      ensures !Within(Resolve(d), Resolve(destination))
    {
      hide Resolve, Clean, Rooted, EndsWithSlash, Proper, Frontier.WellFormed, AllAnchored, IsParentOf;
      assert Admitted(walk.kept, d);
      var s :| s in walk.kept && Within(Resolve(s), Resolve(d));
      assert s in walk.Names() && !walk.skipDirectory(s);
      if Within(Resolve(d), Resolve(destination)) {
        WithinTransitive(Resolve(s), Resolve(d), Resolve(destination));
      }
      ParentTestExact(s, destination);
    }

    /** The directories the walk has taken up are there, and so is the entry it stands at. */
    ghost predicate Steady()
      reads walk, fatfs
    {
      walk.state in {IteratorState.Initial, IteratorState.Valid} ==>
        SteadyAt(walk.F(), fatfs.tree, walk.state == IteratorState.Valid, walk.cleanup, Resolve(walk.entryFullPath))
    }

    lemma StartsSteady()
      requires walk.Valid() && walk.state == IteratorState.Initial
      ensures Steady()
    {
    }

    /** The walk has just moved on from a. */
    lemma AfterNext(a: Frontier, was: IteratorState)
      requires walk.state != IteratorState.Initial
      requires was !in {IteratorState.Done, IteratorState.Error} && walk.state == IteratorState.Valid ==>
        && walk.Standing(fatfs.tree) && Yields(a, walk.F(), fatfs.tree, Resolve(walk.entryFullPath))
        && (walk.cleanup && a.DirsThere(fatfs.tree) ==>
              Resolve(walk.entryFullPath) in fatfs.tree && fatfs.tree[Resolve(walk.entryFullPath)].Dir?)
      requires was in {IteratorState.Done, IteratorState.Error} ==> walk.state == was
      ensures a.DirsThere(fatfs.tree) ==> Steady()
    {
      hide Resolve, Yields, Frontier.Covers, Frontier.WellFormed, RootsOf, ResolveAll;
      if walk.state == IteratorState.Valid && a.DirsThere(fatfs.tree) {
        SteadyNext(a, walk.F(), fatfs.tree, Resolve(walk.entryFullPath));
      }
    }

    /** Moves the walk on. */
    method Advance(ghost plan: Plan)
      requires Valid() && state !in {Collision, CollisionWithDirectory}
      modifies walk
      ensures Valid() && NamesKept(old(walk.Names()), old(walk.skipDirectory))
      ensures old(walk.state in {IteratorState.Initial, IteratorState.Valid} && Between(plan)) ==>
        && (state == More ==> OnTrack(plan)) && walk.state != IteratorState.Initial
        && Pending() == old(walk.F().Todo(fatfs.tree))
      ensures old(walk.F().DirsThere(fatfs.tree)) ==> Steady()
    {
      hide Resolve, Within, TreeValid, Rooted, Plan.Feasible, Progress, Trailing, Yields, Silent, CacheSound;
      hide Frontier.WellFormed, Frontier.Ready, Frontier.Covers, Frontier.Todo, RootsOf, ResolveAll;
      hide Anchored, AllAnchored, AmputatePrefix, Proper, Admitted, AllAdmitted, Normal, Selected;
      ghost var t, a := fatfs.tree, walk.F();
      ghost var todo, files, kept := a.Todo(t), walk.files, walk.kept;
      ghost var planned := walk.state in {IteratorState.Initial, IteratorState.Valid} && Between(plan);
      ghost var was := walk.state;
      ReadyHasDirs(a, t);
      walk.Next();
      AfterNext(a, was);
      if planned {
        ghost var x, b := Resolve(walk.entryFullPath), walk.F();
        SelectedShrinks(files, kept, walk.files, walk.kept, plan.selected, plan.start, walk.entryFullPath);
        if walk.state == IteratorState.Valid {
          YieldsTakesOne(a, b, t, x);
          YieldsKeepsReady(a, b, t, x);
          TakenOff(plan.goal, todo, b.Todo(t), x);
          SameAsAtStart(plan, t, plan.goal - todo, x);
          BottomFirst(plan, a, b, t, x);
          assert Behind(plan.goal, b.Todo(t), x) == plan.goal - todo;
          assert AtWork(plan, plan.goal - todo);
        }
        assert Course(plan, plan.goal - todo);
      }
    }

    /** The nodes not copied yet. */
    ghost function Pending(): set<Path>
      reads walk, fatfs
    {
      walk.F().Todo(fatfs.tree) + (if walk.state == IteratorState.Valid then {Resolve(walk.entryFullPath)} else {})
    }

    lemma InsideHolds(selected: set<string>, start: Tree)
      requires walk.Valid() && Selected(walk.files, walk.kept, selected, start)
      ensures Inside(walk.F(), selected)
    {
      hide Frontier.WellFormed, AllAnchored, AllAdmitted, Selected, Inside, Resolve;
      InsideSelected(walk.F(), walk.files, walk.directories, walk.kept, selected, start);
    }

    /** How many rounds are left of a run that goes as planned. */
    ghost function Distance(): nat
      reads this, walk, fatfs
    {
      if state == CopyState.Done then 0
      else 1 + |Pending()| + (if walk.state == IteratorState.Initial then 1 else 0)
    }

    /** What stays as it is while an entry is dealt with. */
    ghost predicate Underway(plan: Plan)
      reads this`deleteAfterCopy, walk`files, walk`kept
    {
      && fatfs.reliable && deleteAfterCopy == plan.cut && Rooted(destination + "/") && plan.Feasible() && plan.Closed()
      && plan.source == Resolve(walk.prefix) && plan.target == Resolve(destination)
      && Selected(walk.files, walk.kept, plan.selected, plan.start)
    }

    /** What is on track at an entry. */
    lemma EntryOnTrack(plan: Plan)
      requires Valid() && OnTrack(plan) && walk.state == IteratorState.Valid && state == More
      ensures Distance() == 2 + |walk.F().Todo(fatfs.tree)|
      ensures var t, x, todo := fatfs.tree, Resolve(walk.entryFullPath), walk.F().Todo(fatfs.tree);
        && AtWork(plan, Behind(plan.goal, todo, x)) && Underway(plan) && entriesSuccess == |Behind(plan.goal, todo, x)|
        && todo <= plan.goal && x in plan.goal && x !in todo && x in t && (walk.files != [] ==> t[x].File?)
        && walk.F().Ready(t) && Inside(walk.F(), plan.selected)
    {
      hide Resolve, Within, TreeValid, Rooted, Plan.Feasible, Trailing, CacheSound, Selected, CacheFine, Bottom;
      hide Frontier.Ready, Frontier.Covers, Frontier.Todo, RootsOf, ResolveAll, Inside, Plan.Closed;
      hide Anchored, AllAnchored, AmputatePrefix, Admitted, AllAdmitted, Normal;
      InsideHolds(plan.selected, plan.start);
      ghost var todo, x := walk.F().Todo(fatfs.tree), Resolve(walk.entryFullPath);
      SameAsAtStart(plan, fatfs.tree, Behind(plan.goal, todo, x), x);
      if walk.files != [] { FilesFirst(walk.F()); }
      PendingAtEntry();
    }

    /** The entry x has been dealt with; t was the tree before. */
    lemma EntryPlaced(plan: Plan, t: Tree, todo: set<Path>, x: Path)
      requires Valid() && Underway(plan) && walk.state == IteratorState.Valid && !deleteFailed && TreeValid(t)
      requires todo == walk.F().Todo(t) <= plan.goal && x in t && x !in todo && (walk.files != [] ==> t[x].File?)
      requires walk.F().Ready(t) && Inside(walk.F(), plan.selected)
      requires PlacedNow(plan, Behind(plan.goal, todo, x), t, fatfs.tree, x)
      requires CacheFine(plan, visitedDirectories, fatfs.tree) && entriesSuccess == |Behind(plan.goal, todo, x)| + 1
      ensures Between(plan) && walk.F().Todo(fatfs.tree) == todo
    {
      hide Resolve, Rooted, Plan.Closed, Progress, Selected, CacheFine, Frontier.Ready, Frontier.Todo, Inside,
           TreeValid;
      hide Frontier.WellFormed, AllAnchored, AllAdmitted, RootsOf, ResolveAll, PlacedNow, RecursiveFsIterator.Valid;
      ghost var done := Behind(plan.goal, todo, x);
      WorkAfterPlacing(plan, walk.F(), t, fatfs.tree, done, x);
      PlacedIsPlanned(plan, done, t, fatfs.tree, x);
      assert done + {x} == plan.goal - todo;
    }

    lemma PendingAtEntry()
      requires walk.state == IteratorState.Valid && Resolve(walk.entryFullPath) !in walk.F().Todo(fatfs.tree)
      ensures |Pending()| == 1 + |walk.F().Todo(fatfs.tree)|
    {
      hide Resolve, Frontier.Todo;
    }

    /** Deals with the current entry. */
    method PlaceNext(ghost plan: Plan)
      requires Valid() && state == More && walk.state == IteratorState.Valid
      modifies this`state, this`collisionPath, this`visitedDirectories, this`deleteFailed, this`entriesSuccess
      modifies this`currentEntry, this`currentPath, walk`state, fatfs`tree, fatfs`torn
      ensures Valid() && state != CopyState.Done
      ensures Moved(old(fatfs.tree), fatfs.tree, Resolve(walk.entryFullPath), Resolve(currentPath), walk.cleanup,
                    fatfs.torn)
      ensures old(fatfs.torn) <= fatfs.torn
      ensures !deleteAfterCopy ==> Additive(old(fatfs.tree), fatfs.tree) && deleteFailed == old(deleteFailed)
      ensures state in {Collision, CollisionWithDirectory} ==> Additive(old(fatfs.tree), fatfs.tree)
      ensures old(OnTrack(plan)) ==>
        && state == More && walk.state == IteratorState.Valid && Between(plan)
        && walk.F().Todo(fatfs.tree) == old(walk.F().Todo(fatfs.tree))
        && old(Distance()) == 2 + |walk.F().Todo(fatfs.tree)|
      ensures old(Misaimed() && Resolve(walk.entryFullPath) !in fatfs.tree) ==>
        state != More && Blank(fatfs.tree, old(Resolve(walk.entryFullPath)))
    {
      hide Resolve, Within, TreeValid, Rooted, Plan.Feasible, Progress, Trailing, CacheSound, Additive, Moved, Selected;
      hide Frontier.WellFormed, Frontier.Ready, Frontier.Covers, Frontier.Todo, RootsOf, ResolveAll, PlacedNow, Inside;
      hide Anchored, AllAnchored, AmputatePrefix, Proper, Admitted, AllAdmitted, Normal, RecursiveFsIterator.Valid;
      hide AtWork, OnTrack, CacheFine, Plan.Closed, Distance, Course, Between, Underway, Behind;
      hide Blank, Misaimed;
      ghost var t, x := fatfs.tree, Resolve(walk.entryFullPath);
      ghost var onTrack, todo := OnTrack(plan), walk.F().Todo(t);
      if onTrack { EntryOnTrack(plan); }
      PlaceCurrent(plan, Behind(plan.goal, todo, x));
      if onTrack { EntryPlaced(plan, t, todo, x); }
    }

    /** Deals with the current entry and, unless it collides, moves the walk on. */
    method ExecuteEntry(ghost plan: Plan)
      requires Valid() && state == More && walk.state == IteratorState.Valid
      modifies this, walk, fatfs`tree, fatfs`torn
      ensures Valid() && deleteAfterCopy == old(deleteAfterCopy) && overwritten == old(overwritten)
      ensures NamesKept(old(walk.Names()), old(walk.skipDirectory))
      ensures !deleteAfterCopy ==> Additive(old(fatfs.tree), fatfs.tree) && deleteFailed == old(deleteFailed)
      ensures Moved(old(fatfs.tree), fatfs.tree, old(Resolve(walk.entryFullPath)), Resolve(currentPath),
                    old(walk.cleanup), fatfs.torn)
      ensures old(fatfs.torn) <= fatfs.torn
      ensures old(OnTrack(plan)) ==> OnTrack(plan) && Distance() < old(Distance())
      ensures old(Steady()) ==> Steady()
      ensures old(Misaimed() && Resolve(walk.entryFullPath) !in fatfs.tree) ==>
        state != More && Blank(fatfs.tree, old(Resolve(walk.entryFullPath)))
    {
      hide Resolve, Within, TreeValid, CacheSound, Additive, Moved, Course, AtWork;
      hide Frontier.WellFormed, Frontier.Todo, RootsOf, ResolveAll;
      hide Anchored, AllAnchored, AmputatePrefix, Admitted, AllAdmitted, Normal, RecursiveFsIterator.Valid;
      hide SteadyAt, Frontier.DirsThere, OnTrack, Pending;
      hide Blank, Misaimed;
      ghost var t, x, a := fatfs.tree, Resolve(walk.entryFullPath), walk.F();
      ghost var directory, steady := walk.cleanup, Steady();
      PlaceNext(plan);
      if steady { SteadyMoves(a, t, fatfs.tree, directory, x, Resolve(currentPath), fatfs.torn); }
      if state != Collision && state != CollisionWithDirectory {
        Advance(plan);
      }
    }

    /** One round: finishes, starts the walk, or deals with the current entry. */
    method ExecuteSlice(ghost plan: Plan)
      requires Valid() && state == More
      modifies this, walk, fatfs`tree, fatfs`torn
      ensures Valid() && deleteAfterCopy == old(deleteAfterCopy) && overwritten == old(overwritten)
      ensures NamesKept(old(walk.Names()), old(walk.skipDirectory))
      ensures !deleteAfterCopy ==> Additive(old(fatfs.tree), fatfs.tree) && deleteFailed == old(deleteFailed)
      ensures Moved(old(fatfs.tree), fatfs.tree, old(Resolve(walk.entryFullPath)), Resolve(currentPath),
                    old(walk.cleanup), fatfs.torn)
      ensures old(fatfs.torn) <= fatfs.torn
      ensures old(OnTrack(plan)) ==> OnTrack(plan) && Distance() < old(Distance())
      ensures old(Steady()) ==> Steady()
      ensures old(walk.state) != IteratorState.Valid ==> fatfs.tree == old(fatfs.tree)
      ensures old(Misaimed() && Resolve(walk.entryFullPath) !in fatfs.tree) ==>
        state != More && Blank(fatfs.tree, old(Resolve(walk.entryFullPath)))
    {
      hide Resolve, Within, TreeValid, CacheSound, Additive, Moved, Course, AtWork, Between, OnTrack, Pending;
      hide Frontier.WellFormed, Frontier.Todo, RootsOf, ResolveAll, RecursiveFsIterator.Names, SteadyAt,
           Frontier.DirsThere;
      hide Anchored, AllAnchored, AmputatePrefix, Admitted, AllAdmitted, Normal, RecursiveFsIterator.Valid;
      hide Blank, Misaimed;
      MisaimedAtEntry();
      NothingNewIsAdditive(fatfs.tree);
      NothingMoved(fatfs.tree);
      OnTrackBetween(plan);
      match walk.state {
        case Done =>
          state := CopyState.Done;
          EndOnTrack(plan);
        case Error => state := IteratorError;
        case Initial =>
          SteadyBegins();
          Advance(plan);
        case Valid => ExecuteEntry(plan);
      }
    }

    lemma SteadyBegins()
      requires walk.state == IteratorState.Initial
      ensures Steady() ==> walk.F().DirsThere(fatfs.tree)
    {
    }

    lemma OnTrackBetween(plan: Plan)
      ensures OnTrack(plan) && walk.state != IteratorState.Valid ==>
        Between(plan) && walk.state != IteratorState.Error && Pending() == walk.F().Todo(fatfs.tree)
    {
    }

    lemma EndOnTrack(plan: Plan)
      requires state == CopyState.Done && walk.state == IteratorState.Done
      ensures Between(plan) ==> OnTrack(plan)
    {
    }

    /** A collision that is answered with Continue skips the entry. */
    method SkipCollision()
      requires Valid() && state in {Collision, CollisionWithDirectory}
      modifies this`state, walk
      ensures Valid() && state == More && NamesKept(old(walk.Names()), old(walk.skipDirectory))
      ensures old(Steady()) ==> Steady()
    {
      hide Resolve, TreeValid, CacheSound, Normal, SteadyAt, Frontier.DirsThere, Yields;
      hide Frontier.WellFormed, RootsOf, ResolveAll, Anchored, AllAnchored, AmputatePrefix, AllAdmitted;
      ghost var a, was, x, c := walk.F(), walk.state, Resolve(walk.entryFullPath), walk.cleanup;
      SteadyHasDirs(a, fatfs.tree, c, x);
      walk.Next();
      AfterNext(a, was);
      state := More;
    }

    /** One round of the loop in Continue. */
    method Round(ghost plan: Plan, ghost start: Tree)
      requires Valid() && state == More
      modifies this, walk, fatfs`tree, fatfs`torn
      ensures Valid() && deleteAfterCopy == old(deleteAfterCopy) && overwritten == old(overwritten)
      ensures NamesKept(old(walk.Names()), old(walk.skipDirectory))
      ensures !deleteAfterCopy && Additive(start, old(fatfs.tree)) ==>
        Additive(start, fatfs.tree) && deleteFailed == old(deleteFailed)
      ensures old(fatfs.torn) <= fatfs.torn
      ensures old(Steady() && NothingLost(start, fatfs.tree, fatfs.torn)) ==>
        Steady() && NothingLost(start, fatfs.tree, fatfs.torn)
      ensures old(OnTrack(plan)) ==> OnTrack(plan) && Distance() < old(Distance())
      ensures old(Misaimed() && Resolve(walk.entryFullPath) !in fatfs.tree) ==>
        state != More && Blank(fatfs.tree, old(Resolve(walk.entryFullPath)))
    {
      hide Resolve, TreeValid, CacheSound, Additive, Moved, Normal, OnTrack, Distance, SteadyAt, NothingLost;
      hide Frontier.WellFormed, RootsOf, ResolveAll, Anchored, AllAnchored, AmputatePrefix, AllAdmitted;
      hide RecursiveFsIterator.Valid;
      hide Blank, Misaimed;
      ghost var u, x, a, directory := fatfs.tree, Resolve(walk.entryFullPath), walk.F(), walk.cleanup;
      ghost var torn := fatfs.torn;
      ghost var sure := Steady() && walk.state == IteratorState.Valid && NothingLost(start, u, torn);
      ExecuteSlice(plan);
      if !deleteAfterCopy && Additive(start, u) { AdditiveChain(start, u, fatfs.tree); }
      if Steady() && NothingLost(start, fatfs.tree, torn) { TornGrows(start, fatfs.tree, torn, fatfs.torn); }
      if sure { MovedLosesNothing(a, start, u, fatfs.tree, x, Resolve(currentPath), directory, torn, fatfs.torn); }
    }

    /** Continues the run; rounds says how many rounds the clock lets through. Without delete-after-copy
        nothing goes; with it the bytes of every file are still somewhere. */
    method Continue(rounds: nat, ghost plan: Plan)
      requires Valid()
      modifies this, walk, fatfs`tree, fatfs`torn
      ensures Valid() && deleteAfterCopy == old(deleteAfterCopy) && overwritten == old(overwritten)
      ensures NamesKept(old(walk.Names()), old(walk.skipDirectory)) && (old(WellSpelled()) ==> WellSpelled())
      ensures !deleteAfterCopy ==> Additive(old(fatfs.tree), fatfs.tree) && deleteFailed == old(deleteFailed)
      ensures old(Steady()) ==> Steady() && NothingLost(old(fatfs.tree), fatfs.tree, fatfs.torn)
      ensures old(fatfs.torn) <= fatfs.torn && (fatfs.faultless ==> fatfs.torn == {})
      ensures old(state) in {CopyState.Done, IteratorError, IoError, CardFull} || old(deleteFailed) ==>
        state == old(state) && fatfs.tree == old(fatfs.tree)
      ensures old(OnTrack(plan)) ==> OnTrack(plan) && Distance() <= old(Distance())
      ensures old(OnTrack(plan)) && old(state) == More && rounds > 0 ==> Distance() < old(Distance())
      ensures old(Misaimed() && state == More && Resolve(walk.entryFullPath) !in fatfs.tree) ==>
        Blank(fatfs.tree, old(Resolve(walk.entryFullPath)))
    {
      hide Resolve, TreeValid, CacheSound, Additive, Moved, Normal, OnTrack, Distance;
      hide Frontier.WellFormed, RootsOf, ResolveAll, Anchored, AllAnchored, AmputatePrefix, AllAdmitted;
      hide SteadyAt, NothingLost, Spelled, RecursiveFsIterator.Valid, PasteContext.Valid, PasteContext.Steady;
      ghost var t := fatfs.tree;
      NothingNewIsAdditive(t);
      NothingLostYet(t, fatfs.torn);
      OnTrackMeansWell(plan);
      FaultlessTearsNothing();
      if deleteFailed { return; }
      match state {
        case Done | IteratorError | IoError | CardFull => return;
        case Collision | CollisionWithDirectory =>
          NotWhileColliding(plan);
          SkipCollision();
        case _ =>
      }
      OnTrackMeansMore(plan);
      BackToMore();
      var round := 0;
      while round < rounds && state == More
        invariant round <= rounds && (round == 0 ==> state == More) && Valid()
        invariant deleteAfterCopy == old(deleteAfterCopy) && overwritten == old(overwritten)
        invariant NamesKept(old(walk.Names()), old(walk.skipDirectory))
        invariant !deleteAfterCopy ==> Additive(t, fatfs.tree) && deleteFailed == old(deleteFailed)
        invariant old(Steady()) ==> Steady() && NothingLost(t, fatfs.tree, fatfs.torn)
        invariant old(fatfs.torn) <= fatfs.torn
        invariant old(Misaimed() && state == More && Resolve(walk.entryFullPath) !in fatfs.tree) ==>
          if round == 0 then Misaimed() && fatfs.tree == t && walk.entryFullPath == old(walk.entryFullPath)
          else state != More && Blank(fatfs.tree, old(Resolve(walk.entryFullPath)))
        invariant old(OnTrack(plan)) ==> OnTrack(plan) && Distance() + round <= old(Distance())
        decreases rounds - round
      {
        Round(plan, t);
        round := round + 1;
      }
      FaultlessTearsNothing();
      if old(WellSpelled()) { StaysWellSpelled(old(walk.Names()), old(walk.skipDirectory)); }
    }

    lemma FaultlessTearsNothing()
      requires Valid()
      ensures fatfs.faultless ==> fatfs.torn == {}
    {
    }

    method BackToMore()
      requires Valid()
      requires state !in {CopyState.Done, IteratorError, IoError, CardFull, Collision, CollisionWithDirectory}
      modifies this`state
      ensures Valid() && state == More
      ensures forall plan: Plan :: old(OnTrack(plan)) ==> state == old(state)
    {
      state := More;
    }

    lemma NotWhileColliding(plan: Plan)
      requires state in {Collision, CollisionWithDirectory}
      ensures !OnTrack(plan)
    {
    }

    lemma OnTrackMeansWell(plan: Plan)
      ensures OnTrack(plan) ==> !deleteFailed && deleteAfterCopy == plan.cut
    {
    }

    lemma OnTrackMeansMore(plan: Plan)
      requires state != CopyState.Done
      ensures OnTrack(plan) ==> state == More
    {
    }

    /** Overwriting a file: only that file may go, and only to be replaced. */
    method ContinueWithOverwrite(rounds: nat, ghost plan: Plan)
      requires Valid()
      requires state == CollisionWithDirectory ==> deleteFailed || IsParentOf(currentPath, walk.entryFullPath)
      modifies this, walk, fatfs`tree, fatfs`torn
      ensures Valid() && deleteAfterCopy == old(deleteAfterCopy) && overwritten == old(overwritten)
      ensures NamesKept(old(walk.Names()), old(walk.skipDirectory)) && (old(WellSpelled()) ==> WellSpelled())
      ensures old(Steady() && (state == Collision ==> Resolve(collisionPath) != Resolve(walk.entryFullPath))) ==>
        && Steady()
        && NothingLost(if old(state) == Collision then old(fatfs.tree) - {old(Resolve(collisionPath))}
                       else old(fatfs.tree), fatfs.tree, fatfs.torn)
      ensures !deleteAfterCopy ==>
        forall p :: p in old(fatfs.tree) ==>
          || (p in fatfs.tree && fatfs.tree[p] == old(fatfs.tree)[p])
          || (old(state) == Collision && p == old(Resolve(collisionPath)) && old(fatfs.tree)[p].File?)
      ensures old(Misaimed() && state == Collision && Resolve(collisionPath) == Resolve(walk.entryFullPath)
                  && !deleteFailed && !IsParentOf(currentPath, walk.entryFullPath)) ==>
        Blank(fatfs.tree, old(Resolve(walk.entryFullPath))) || (!fatfs.faultless && fatfs.tree == old(fatfs.tree))
    {
      hide Resolve, TreeValid, CacheSound, Normal, OnTrack, Distance, UnlinkResult, NothingLost, SteadyAt;
      hide Frontier.WellFormed, RootsOf, ResolveAll, Anchored, AllAnchored, AmputatePrefix, AllAdmitted;
      ghost var t, c := fatfs.tree, Resolve(collisionPath);
      NothingLostYet(t, fatfs.torn);
      LessToLose(t, t, c, fatfs.torn);
      if deleteFailed { return; }
      if IsParentOf(currentPath, walk.entryFullPath) {
        Continue(rounds, plan);
        LessToLose(t, fatfs.tree, c, fatfs.torn);
        return;
      }
      if state == Collision {
        RemoveConflictingFile();
        if state != More { return; }
      }
      Continue(rounds, plan);
    }

    method RemoveConflictingFile()
      requires Valid() && state == Collision
      modifies this`state, fatfs`tree
      ensures Valid() && state in {More, InvalidEntry, IoError}
      ensures fatfs.tree == if state == More then old(fatfs.tree) - {Resolve(collisionPath)} else old(fatfs.tree)
      ensures old(Steady()) && Resolve(collisionPath) != Resolve(walk.entryFullPath) ==> Steady()
      ensures fatfs.faultless ==> state == More
    {
      hide Resolve, TreeValid, CacheSound, Normal, UnlinkResult;
      hide Frontier.WellFormed, RootsOf, ResolveAll, Anchored, AllAnchored, AmputatePrefix, AllAdmitted;
      ghost var t := fatfs.tree;
      SteadyWithout(walk.F(), t, walk.state == IteratorState.Valid, walk.cleanup, Resolve(walk.entryFullPath),
                    Resolve(collisionPath));
      FileUnlinks(t, Resolve(collisionPath));
      var r := fatfs.Unlink(collisionPath);
      if !deleteAfterCopy && !overwritten { FileGoneKeepsCache(visitedDirectories, t, Resolve(collisionPath)); }
      state := match r case InvalidName => InvalidEntry case Ok => More case _ => IoError;
    }

    /** The states a caller sees. */
    function GetState(): CopyState
      reads this, walk
    {
      if deleteFailed then IoError
      else if state == CollisionWithDirectory && IsParentOf(currentPath, walk.entryFullPath) then More
      else if state == IteratorError then IoError
      else state
    }

    method AddFile(path: string)
      requires Valid() && walk.state == IteratorState.Initial
      requires forall k :: 0 <= k < |walk.files| ==>
        !Comparable(Resolve(walk.files[k]), Resolve(walk.prefix) + Split(path))
      modifies walk`files
      ensures Valid() && walk.files == old(walk.files) + [Normal(walk.prefix + "/" + path)]
      ensures Resolve(Normal(walk.prefix + "/" + path)) == Resolve(walk.prefix) + Split(path)
    {
      hide Resolve, TreeValid, CacheSound, Normal, Frontier.WellFormed, Split, AllAnchored, AllAdmitted;
      walk.AddFile(path);
    }

    method SetDeleteAfterCopy(b: bool)
      requires Valid() && (b || overwritten || visitedDirectories == map[])
      modifies this`deleteAfterCopy
      ensures Valid() && deleteAfterCopy == b
    {
      deleteAfterCopy := b;
    }

    /** A fresh context with its files added, on a volume without faults, is on track for every feasible plan
        that copies the selected nodes. */
    lemma Launch(plan: Plan)
      requires Valid() && walk.state == IteratorState.Initial && state == More && entriesSuccess == 0 && !deleteFailed
      requires fatfs.reliable && Rooted(destination + "/") && Findable(walk.files, fatfs.tree)
      requires deleteAfterCopy || overwritten ==> visitedDirectories == map[]
      requires forall f :: f in walk.files ==> !Misspelled(f, fatfs.tree)
      requires plan == Plan(fatfs.tree,
                            (set p | p in fatfs.tree && SelectedBy(walk.files, walk.skipDirectory, fatfs.tree, p)),
                            Resolve(walk.prefix), Resolve(destination), (set f | f in walk.files), deleteAfterCopy)
      requires plan.Feasible()
      ensures OnTrack(plan)
    {
      hide Resolve, Rooted, TreeValid, CacheSound, Normal, Frontier.WellFormed, Frontier.Ready, Frontier.Todo;
      hide AllAnchored, AllAdmitted, Plan.Disjoint, Plan.CollisionFree, Misspelled, Findable, SelectedBy;
      WorkAtStart(walk, fatfs.tree);
      assert plan.goal == walk.F().Todo(fatfs.tree);
      ProgressStart(plan);
      if deleteAfterCopy || overwritten { EmptyCache(plan, fatfs.tree); }
      forall c, p | c in plan.goal && p in plan.start && Within(c, p)
        ensures p in plan.goal
      {
        TodoIsClosed(walk.F(), fatfs.tree, c, p);
      }
      assert plan.goal - walk.F().Todo(fatfs.tree) == {};
    }

    /** A run that is on track ends with everything copied, and with the sources gone if they are to go,
        however the clock cuts it up. */
    method Run(ghost plan: Plan)
      requires Valid() && OnTrack(plan)
      modifies this, walk, fatfs`tree, fatfs`torn
      ensures Valid() && GetState() == CopyState.Done
      ensures plan.Grounded() && Progress(plan, fatfs.tree, plan.goal) && entriesSuccess == |plan.goal|
      ensures plan.cut ==> forall c :: c in plan.goal ==> c !in fatfs.tree
      ensures !plan.cut ==> Additive(old(fatfs.tree), fatfs.tree)
    {
      hide Resolve, TreeValid, CacheSound, Additive, Normal, OnTrack, Distance;
      hide Frontier.WellFormed, RootsOf, ResolveAll, Anchored, AllAnchored, AmputatePrefix, AllAdmitted;
      ghost var t := fatfs.tree;
      NothingNewIsAdditive(t);
      OnTrackMeansWell(plan);
      while state == More
        invariant Valid() && OnTrack(plan) && deleteAfterCopy == plan.cut
        invariant !plan.cut ==> Additive(t, fatfs.tree)
        decreases Distance()
      {
        var rounds: nat :| rounds > 0;
        ghost var u := fatfs.tree;
        Continue(rounds, plan);
        if !plan.cut { AdditiveChain(t, u, fatfs.tree); }
      }
      AtTheEnd(plan);
    }

    lemma AtTheEnd(plan: Plan)
      requires Valid() && OnTrack(plan) && state != More
      ensures state == CopyState.Done && !deleteFailed
      ensures plan.Grounded() && Progress(plan, fatfs.tree, plan.goal) && entriesSuccess == |plan.goal|
    {
      hide Resolve, Rooted, TreeValid, CacheSound, Normal, Frontier.WellFormed, Frontier.Ready, Frontier.Todo;
      hide AllAnchored, AllAdmitted, Progress, AtWork;
      NothingLeft(walk.F(), fatfs.tree);
      assert plan.goal - walk.F().Todo(fatfs.tree) == plan.goal;
    }
  }

  // ---- what one entry does to the tree ---------------------------------------------------------------

  /** Nothing is overwritten; at most the source x is gone, and if it was a file its bytes are now at y, less
      a tail if y is a copy that could not be closed. */
  ghost predicate Moved(before: Tree, after: Tree, x: Path, y: Path, directory: bool, torn: set<Node>) {
    forall p :: p in before ==>
      if p in after then after[p] == before[p]
      else p == x && (directory || (y in after && Preserved(before[x], after[y], torn)))
  }

  /** The directories taken up are there, and so is the entry x; it is none of them. */
  ghost predicate SteadyAt(fr: Frontier, t: Tree, entry: bool, directory: bool, x: Path) {
    && fr.DirsThere(t)
    && (entry ==> x in t && (directory ==> t[x].Dir?) && forall i :: 0 <= i < |fr.dirs| ==> fr.dirs[i] != x)
  }

  /** What the walk yields is none of the directories it still holds. */
  lemma SteadyNext(a: Frontier, b: Frontier, t: Tree, x: Path)
    requires Yields(a, b, t, x) && a.DirsThere(t)
    ensures b.DirsThere(t) && forall i :: 0 <= i < |b.dirs| ==> b.dirs[i] != x
  {
    hide Frontier.Ready;
    forall i | 0 <= i < |b.dirs|
      ensures b.dirs[i] != x
    {
      assert b.DirCovers(i, b.dirs[i]) && b.Covers(t, b.dirs[i]);
    }
  }

  lemma SteadyHasDirs(fr: Frontier, t: Tree, directory: bool, x: Path)
    ensures SteadyAt(fr, t, true, directory, x) ==> fr.DirsThere(t)
  {
  }

  lemma SteadyWithout(fr: Frontier, t: Tree, entry: bool, directory: bool, x: Path, z: Path)
    requires z in t && t[z].File?
    ensures SteadyAt(fr, t, entry, directory, x) && z != x ==> SteadyAt(fr, t - {z}, entry, directory, x)
  {
  }

  lemma SteadyMoves(fr: Frontier, t: Tree, u: Tree, directory: bool, x: Path, y: Path, torn: set<Node>)
    requires SteadyAt(fr, t, true, directory, x) && Moved(t, u, x, y, directory, torn)
    ensures fr.DirsThere(u) && (Additive(t, u) ==> SteadyAt(fr, u, true, directory, x))
  {
  }

  /** There is no file with content at p. */
  ghost predicate Blank(t: Tree, p: Path) {
    p in t ==> t[p] == Dir || t[p] == File([])
  }

  /** The file /a pasted into 0:/ is to go where it is. */
  lemma MisaimedExample()
    ensures var path := Normal(Normal("0:/") + "/" + AmputatePrefix("/", "/a"));
      Resolve(path) == Resolve("/a") && Normal(path) != Normal("/a")
  {
    hide AmputatePrefix, Split;
    assert "/a"[1..] == "a" && "a"[1..] == [] && "0:/"[1..] == ":/" && ":/"[1..] == "/" && "/"[1..] == [];
    assert Normal("/a") == "/a" && Normal("0:/") == "0:/" && Normal("/") == "/";
    PlainName("a");
    SplitSeam("/", "a");
    assert "/" + "a" == "/a" && "0:/"[2..] == "/";
    BareSlash("/");
    assert "0:/"[..2] == "0:" && Resolve("0:/") == ["0:"] && Resolve("/") == ["0:"] && Resolve("/a") == ["0:", "a"];
    CurrentPathMeaning("/", "0:/", "/a");
    assert Resolve("/a")[1..] == ["a"];
    var joined := "0:/" + "/" + AmputatePrefix("/", "/a");
    NormalKeepsPrefix("0:/", joined);
    NormalIdempotent(joined);
    assert Normal(joined)[0] == '0';
  }

  lemma NothingIsBlank(t: Tree, p: Path)
    ensures p !in t ==> Blank(t, p)
  {
  }

  lemma BlankAfterDirs(t: Tree, u: Tree, q: Path)
    requires DirsAdded(t, u, q)
    ensures forall p :: p !in t ==> Blank(u, p)
  {
  }

  lemma FileUnlinks(t: Tree, p: Path)
    requires TreeValid(t) && p in t && t[p].File?
    ensures UnlinkResult(t, p) == Ok
  {
    FollowFinds(t, p);
  }

  /** Some file has these bytes. */
  ghost predicate Somewhere(t: Tree, file: Node) {
    exists q :: q in t && t[q] == file
  }

  /** The bytes of every file are still somewhere, unless it is one whose copy could not be closed. */
  ghost predicate NothingLost(before: Tree, after: Tree, torn: set<Node>) {
    forall p :: p in before && before[p].File? ==> before[p] in torn || Somewhere(after, before[p])
  }

  lemma NothingLostYet(t: Tree, torn: set<Node>)
    ensures NothingLost(t, t, torn)
  {
  }

  lemma TornGrows(t: Tree, u: Tree, torn: set<Node>, torn': set<Node>)
    requires NothingLost(t, u, torn) && torn <= torn'
    ensures NothingLost(t, u, torn')
  {
  }

  lemma LessToLose(t: Tree, u: Tree, c: Path, torn: set<Node>)
    ensures NothingLost(t, u, torn) ==> NothingLost(t - {c}, u, torn)
  {
  }

  lemma MovedLosesNothing(fr: Frontier, t: Tree, u: Tree, v: Tree, x: Path, y: Path, directory: bool,
                          torn: set<Node>, torn': set<Node>)
    requires NothingLost(t, u, torn) && torn <= torn'
    requires Moved(u, v, x, y, directory, torn') && SteadyAt(fr, u, true, directory, x)
    ensures NothingLost(t, v, torn')
  {
    forall p | p in t && t[p].File? && t[p] !in torn'
      ensures Somewhere(v, t[p])
    {
      assert Somewhere(u, t[p]);
      var q :| q in u && u[q] == t[p];
      if !(q in v && v[q] == u[q]) {
        assert y in v && v[y] == t[p];
      }
    }
  }

  /** A file of one byte is copied, closing the copy fails, and the source goes nevertheless. */
  lemma TornCopyExample(x: Path, y: Path) returns (before: Tree, copied: Tree, closed: Tree, after: Tree)
    requires x == ["0:", "a"] && y == ["0:", "b"]
    ensures before == map[["0:"] := Dir, x := File([1])] && copied == before[y := File([1])] && TreeValid(before)
    ensures Shortened(copied, closed, y) && UnlinkResult(closed, x) == Ok && after == closed - {x}
    ensures !NothingLost(before, after, {}) && NothingLost(before, after, {File([1])})
  {
    before := map[["0:"] := Dir, x := File([1])];
    copied := before[y := File([1])];
    closed := copied[y := File([])];
    after := closed - {x};
    assert Parent(x) == ["0:"] && Parent(y) == ["0:"] && x[1] == "a" && y[1] == "b";
    assert closed[y].data <= copied[y].data;
    assert Follow(closed, ["0:"]) == Ok;
    assert before[x].File? && !Somewhere(after, before[x]);
  }

  /** What has been copied when x is next and todo comes after it. */
  ghost function Behind(goal: set<Path>, todo: set<Path>, x: Path): set<Path> {
    goal - todo - {x}
  }

  /** The copy of x is in place, x is gone if it is to go, and the plan has moved on by x. */
  ghost predicate PlacedNow(plan: Plan, done: set<Path>, before: Tree, after: Tree, x: Path) {
    && plan.Feasible() && x in plan.goal && x !in done
    && Progress(plan, after, done + {x}) && exists u: Tree :: PlacedVia(plan, before, u, after, x)
  }

  /** Nothing is in the way of copying x next, and of taking it away if it is to go. */
  ghost predicate Due(plan: Plan, t: Tree, done: set<Path>, visited: map<string, bool>, x: Path) {
    && plan.Feasible() && plan.Closed() && Progress(plan, t, done)
    && x in plan.goal && x !in done && Bottom(plan, done, x) && CacheFine(plan, visited, t)
  }

  /** u is the tree between copying x and taking it away. */
  ghost predicate PlacedVia(plan: Plan, before: Tree, u: Tree, after: Tree, x: Path)
    requires |plan.source| <= |x|
  {
    TreeValid(u) && Grown(before, u, plan.Image(x)) && after == plan.Left(u, x)
  }

  /** The cache is sound, and if sources go, none of its directories can. */
  ghost predicate CacheFine(plan: Plan, visited: map<string, bool>, t: Tree) {
    && CacheSound(visited, t)
    && (plan.cut ==> forall k :: k in visited && visited[k] ==> Outside(plan.selected, Resolve(k)))
  }

  lemma CacheStaysFine(plan: Plan, v: map<string, bool>, t: Tree, w: map<string, bool>, u: Tree, y: Path, x: Path)
    requires plan.Feasible() && x in plan.goal && (y == plan.Image(x) || Within(y, plan.Image(x)))
    requires CacheFine(plan, v, t) && CacheSound(w, u) && CacheGrows(v, w, y)
    ensures CacheFine(plan, w, u)
  {
    hide Resolve, Within, CacheSound, Plan.CollisionFree;
    if plan.cut {
      assert Outside(plan.selected, plan.Image(x));
      forall k | k in w && w[k]
        ensures Outside(plan.selected, Resolve(k))
      {
        WithinItself(y);
        if Within(Resolve(k), y) {
          WithinTransitive(Resolve(k), y, plan.Image(x));
          OutsideAbove(plan.selected, Resolve(k), plan.Image(x));
        }
      }
    }
  }

  lemma CacheFineSound(plan: Plan, v: map<string, bool>, t: Tree)
    requires CacheFine(plan, v, t)
    ensures CacheSound(v, t)
  {
  }

  lemma EmptyCache(plan: Plan, t: Tree)
    ensures CacheFine(plan, map[], t)
  {
  }

  lemma CacheWithoutSource(plan: Plan, v: map<string, bool>, u: Tree, x: Path)
    requires plan.Feasible() && x in plan.goal && CacheFine(plan, v, u)
    ensures CacheFine(plan, v, plan.Left(u, x))
  {
    hide Resolve, Within, Proper, Plan.CollisionFree, Plan.Disjoint;
    if plan.cut {
      forall k | k in v && v[k]
        ensures Resolve(k) != x
      {
        var s :| s in plan.selected && Within(Resolve(s), x);
        assert Outside(plan.selected, Resolve(k));
      }
    }
  }

  /** A directory has been copied: the plan moves on, and the source can be unlinked if it is to go. */
  lemma DirectoryDone(plan: Plan, v: map<string, bool>, t: Tree, w: map<string, bool>, u: Tree, done: set<Path>,
                      x: Path)
    requires Due(plan, t, done, v, x) && x in plan.start && plan.start[x].Dir? && |plan.source| <= |x|
    requires TreeValid(u) && DirsAdded(t, u, plan.Image(x)) && IsDir(u, plan.Image(x))
    requires CacheSound(w, u) && CacheGrows(v, w, plan.Image(x))
    ensures PlacedNow(plan, done, t, plan.Left(u, x), x) && CacheFine(plan, w, plan.Left(u, x))
    ensures plan.cut ==> UnlinkResult(u, x) == Ok
  {
    hide Resolve, Within, TreeValid, CacheSound, CacheGrows, CacheFine, DirsAdded, IsDir, Progress, PlacedNow, Bottom;
    hide Plan.Disjoint, Plan.CollisionFree, Plan.Closed, UnlinkResult, Grown;
    DirectoryPlaced(plan, t, u, done, x);
    CacheStaysFine(plan, v, t, w, u, plan.Image(x), x);
    CacheWithoutSource(plan, w, u, x);
    DirsGrow(t, u, plan.Image(x));
    if plan.cut { SourceUnlinks(plan, t, u, done, x); }
  }

  /** The same for a file; u is the tree when its directory is there. */
  lemma FileDone(plan: Plan, v: map<string, bool>, t: Tree, w: map<string, bool>, u: Tree, f: Tree, done: set<Path>,
                 x: Path)
    requires Due(plan, t, done, v, x) && x in plan.start && plan.start[x].File? && |plan.source| <= |x|
    requires var y := plan.Image(x);
      y != [] && DirsAdded(t, u, Parent(y)) && OnlyNew(u, f, y) && Copied(u, f, x, y, {}) && CacheGrows(v, w, Parent(y))
    requires TreeValid(f) && CacheSound(w, f)
    ensures PlacedNow(plan, done, t, plan.Left(f, x), x) && CacheFine(plan, w, plan.Left(f, x))
    ensures plan.cut ==> UnlinkResult(f, x) == Ok
  {
    hide Resolve, Within, TreeValid, CacheSound, CacheGrows, CacheFine, DirsAdded, IsDir, Progress, PlacedNow, Bottom;
    hide Plan.Disjoint, Plan.CollisionFree, Plan.Closed, UnlinkResult, Grown, OnlyNew, Copied;
    FilePlaced(plan, t, u, f, done, x);
    CacheStaysFine(plan, v, t, w, f, Parent(plan.Image(x)), x);
    CacheWithoutSource(plan, w, f, x);
    FileHasGrown(t, u, f, plan.Image(x));
    if plan.cut { SourceUnlinks(plan, t, f, done, x); }
  }

  lemma FileHasGrown(t: Tree, u: Tree, w: Tree, y: Path)
    requires y != [] && DirsAdded(t, u, Parent(y)) && OnlyNew(u, w, y)
    ensures Grown(t, w, y)
  {
    FileGrows(t, u, w, y);
  }

  lemma FeasibleFacts(plan: Plan, x: Path)
    requires plan.Feasible() && x in plan.goal
    ensures x in plan.start && Within(plan.source, x) && |plan.source| < |x| && x != plan.source
    ensures plan.Grounded()
  {
  }

  lemma GroundedFacts(plan: Plan, x: Path)
    requires plan.Grounded() && x in plan.goal
    ensures |plan.source| <= |x| && plan.Image(x) != []
  {
  }

  lemma DirsAddedMoves(t: Tree, u: Tree, x: Path, y: Path, b: bool, torn: set<Node>)
    requires DirsAdded(t, u, y)
    ensures Additive(t, u) && Moved(t, u, x, y, b, torn)
  {
  }

  lemma DirectoryGone(t: Tree, u: Tree, x: Path, y: Path, torn: set<Node>)
    requires Additive(t, u)
    ensures Moved(t, u - {x}, x, y, true, torn)
  {
  }

  lemma ParentIsThere(t: Tree, u: Tree, dir: string)
    requires Rooted(dir) && Clear(t, Resolve(dir)) && Additive(t, u)
    requires FirstSlash(dir) + 1 < |dir| ==> IsDir(u, Resolve(dir))
    ensures IsDir(u, Resolve(dir))
  {
    hide Resolve, Split, Clear, Rooted;
    ClearDrive(t, Resolve(dir));
    IsDirStays(t, u, Resolve(dir)[..1]);
    if |Resolve(dir)| > 1 {
      DeepPath(dir);
    } else {
      assert Resolve(dir)[..1] == Resolve(dir);
    }
  }

  /** Once its directory is there, stat finds nothing under the image of a file. */
  lemma ImageStats(plan: Plan, t: Tree, u: Tree, x: Path)
    requires plan.Grounded() && x in plan.goal && TreeValid(u)
    requires var y := plan.Image(x); y !in t && DirsAdded(t, u, Parent(y)) && IsDir(u, Parent(y))
    ensures StatResult(u, plan.Image(x)) == NoFile
  {
    hide Resolve, ValidName, TreeValid;
    var y := plan.Image(x);
    FollowFinds(u, Parent(y));
    ParentAndName(plan.start, x);
    assert y[|y| - 1] == x[|x| - 1];
  }

  lemma OnlyNewIsAdditive(t: Tree, u: Tree, y: Path)
    requires OnlyNew(t, u, y)
    ensures Additive(t, u)
  {
  }

  lemma AdditiveChain(t: Tree, u: Tree, w: Tree)
    requires Additive(t, u) && Additive(u, w)
    ensures Additive(t, w)
  {
  }

  lemma AdditiveMoves(t: Tree, u: Tree, x: Path, y: Path, b: bool, torn: set<Node>)
    requires Additive(t, u)
    ensures Moved(t, u, x, y, b, torn)
  {
  }

  lemma NothingMoved(t: Tree)
    ensures forall x, y, b, torn :: Moved(t, t, x, y, b, torn)
  {
  }

  lemma FileGone(t: Tree, u: Tree, w: Tree, x: Path, y: Path, torn: set<Node>)
    requires Additive(t, u) && Additive(u, w) && Copied(u, w, x, y, torn)
    ensures Moved(t, w - {x}, x, y, false, torn)
  {
  }

  lemma FilePlaced(plan: Plan, t: Tree, u: Tree, w: Tree, done: set<Path>, x: Path)
    requires plan.Feasible() && Progress(plan, t, done) && x in plan.goal && x !in done && plan.start[x].File?
    requires var y := plan.Image(x); DirsAdded(t, u, Parent(y)) && OnlyNew(u, w, y) && Copied(u, w, x, y, {})
    requires TreeValid(w)
    ensures PlacedNow(plan, done, t, plan.Left(w, x), x)
  {
    hide Plan.Disjoint, Plan.CollisionFree, TreeValid, Resolve;
    FileHasGrown(t, u, w, plan.Image(x));
    assert Placed(plan, w, x);
    ProgressStep(plan, t, w, done, x);
    assert PlacedVia(plan, t, w, plan.Left(w, x), x);
  }

  lemma NothingNewIsAdditive(t: Tree)
    ensures Additive(t, t)
  {
  }

  /** The path of a file with a trailing slash, which the file system ignores. */
  ghost predicate Misspelled(f: string, t: Tree) {
    Trailing(f) && Resolve(f) in t && t[Resolve(f)].File?
  }

  /** The walk's own lists name selected paths only, and files without a trailing slash. */
  ghost predicate Selected(files: seq<string>, kept: set<string>, selected: set<string>, start: Tree) {
    (forall f :: f in files ==> f in selected && !Misspelled(f, start)) && kept <= selected
  }

  lemma SelectedShrinks(files: seq<string>, kept: set<string>, files': seq<string>, kept': set<string>,
                        selected: set<string>, start: Tree, entry: string)
    requires Selected(files, kept, selected, start)
    requires (forall f :: f in files' ==> f in files) && forall s :: s in kept' ==> s in kept || s in files
    ensures Selected(files', kept', selected, start)
    ensures entry in files ==> !Misspelled(entry, start)
  {
    hide Misspelled;
  }

  lemma InsideSelected(fr: Frontier, files: seq<string>, directories: seq<string>, kept: set<string>,
                       selected: set<string>, start: Tree)
    requires |fr.files| == |files| && forall k :: 0 <= k < |files| ==> fr.files[k].path == Resolve(files[k])
    requires fr.dirs == ResolveAll(directories) && AllAdmitted(kept, directories)
    requires Selected(files, kept, selected, start)
    ensures Inside(fr, selected)
  {
    hide Resolve, Trailing, Proper, ResolveAll;
    forall k | 0 <= k < |fr.files|
      ensures Beneath(selected, fr.files[k].path)
    {
      var s := files[k];
      assert s in selected && Within(Resolve(s), fr.files[k].path);
    }
    forall i | 0 <= i < |fr.dirs|
      ensures Beneath(selected, fr.dirs[i])
    {
      assert Admitted(kept, directories[i]);
      var s :| s in kept && Within(Resolve(s), Resolve(directories[i]));
      assert s in selected;
    }
  }

  lemma FileGoneKeepsCache(visited: map<string, bool>, t: Tree, f: Path)
    requires CacheSound(visited, t) && f in t && t[f].File?
    ensures CacheSound(visited, t - {f})
  {
    hide Resolve, Proper;
  }

  lemma TakenOff(goal: set<Path>, todo: set<Path>, rest: set<Path>, x: Path)
    requires todo <= goal && rest == todo - {x} && x in todo
    ensures Behind(goal, rest, x) == goal - todo && x in goal && x !in goal - todo && rest + {x} == todo
  {
  }

  lemma SameAsAtStart(plan: Plan, t: Tree, done: set<Path>, x: Path)
    requires plan.Feasible() && Progress(plan, t, done) && x in plan.goal && x !in done
    ensures x in plan.start && x in t && t[x] == plan.start[x]
  {
  }

  /** A disjoint plan never copies a node onto itself. */
  lemma NotOntoItself(plan: Plan, x: Path, path: string, full: string)
    requires plan.Feasible() && x in plan.goal && Resolve(path) == plan.Image(x) && Resolve(full) == x
    ensures Normal(path) != Normal(full)
  {
    hide Resolve, Normal, Plan.CollisionFree;
    ResolveNormal(path);
    ResolveNormal(full);
    var s :| s in plan.selected && Within(Resolve(s), x);
  }

  /** Copying one node leaves the rest of the work alone. */
  lemma WorkAfterPlacing(plan: Plan, fr: Frontier, t: Tree, v: Tree, done: set<Path>, x: Path)
    requires PlacedNow(plan, done, t, v, x) && Inside(fr, plan.selected) && fr.Ready(t)
    requires TreeValid(t) && TreeValid(v)
    requires x in t && x !in fr.Todo(t) && (fr.files != [] ==> t[x].File?)
    ensures fr.Todo(v) == fr.Todo(t) && fr.Ready(v) && Progress(plan, v, done + {x})
  {
    hide Resolve, Within, TreeValid, Inside, Frontier.Ready, Frontier.Todo, Progress, Plan.CollisionFree;
    hide Frontier.Covers;
    var u: Tree :| PlacedVia(plan, t, u, v, x);
    assert Outside(plan.selected, plan.Image(x));
    WorkUndisturbed(fr, t, u, plan.Image(x), plan.selected);
    ReadyUndisturbed(fr, t, u, plan.Image(x), plan.selected);
    assert x in u && u[x] == t[x];
    if plan.cut {
      NoWork(fr, u, x);
      WorkWithout(fr, u, x);
      ReadyWithout(fr, u, x);
    }
  }

  lemma PlacedIsPlanned(plan: Plan, done: set<Path>, t: Tree, v: Tree, x: Path)
    requires PlacedNow(plan, done, t, v, x)
    ensures plan.Feasible() && x in plan.goal && Progress(plan, v, done + {x})
  {
  }

  lemma NoWork(fr: Frontier, t: Tree, x: Path)
    requires x in t && x !in fr.Todo(t)
    ensures !fr.Covers(t, x)
  {
  }

  lemma DirectoryPlaced(plan: Plan, t: Tree, u: Tree, done: set<Path>, x: Path)
    requires plan.Feasible() && Progress(plan, t, done) && x in plan.goal && x !in done && plan.start[x].Dir?
    requires DirsAdded(t, u, plan.Image(x)) && IsDir(u, plan.Image(x)) && TreeValid(u)
    ensures PlacedNow(plan, done, t, plan.Left(u, x), x)
  {
    hide Progress, DirsAdded, Plan.Disjoint, Plan.CollisionFree, TreeValid, Resolve;
    DirsGrow(t, u, plan.Image(x));
    ProgressStep(plan, t, u, done, x);
    assert PlacedVia(plan, t, u, plan.Left(u, x), x);
  }

  lemma NormalLast(s: string)
    requires s != [] && !IsSeparator(s[|s| - 1])
    ensures Normal(s) != [] && !EndsWithSlash(Normal(s))
  {
    hide Clean;
    var slashes := |s| < 2 || s[1] != ':';
    var a, b := s[..|s| - 1], [s[|s| - 1]];
    assert s == a + b;
    NormalFromAppend(a, b, slashes);
    assert b[1..] == [];
    assert forall x: bool :: NormalFrom(b, x) == b;
  }

  /** Where the current entry is copied to. */
  lemma CurrentPathMeaning(prefix: string, destination: string, full: string)
    requires Normal(prefix) == prefix && Anchored(prefix, full) && Resolve(full) != Resolve(prefix)
    requires Normal(destination) == destination
    ensures var path := Normal(destination + "/" + AmputatePrefix(prefix, full));
      && Within(Resolve(prefix), Resolve(full))
      && Resolve(path) == Resolve(destination) + Resolve(full)[|Resolve(prefix)|..]
      && Clean(path)
      && (Rooted(destination + "/") ==> Rooted(path))
      && (!Trailing(full) ==> !EndsWithSlash(path))
  {
    hide Resolve, Split, Clean;
    var entry := AmputatePrefix(prefix, full);
    var path := Normal(destination + "/" + entry);
    EntryDenotes(prefix, full);
    JoinAnchored(destination, entry);
    NormalIdempotent(destination + "/" + entry);
    assert Resolve(full)[..|Resolve(prefix)|] == Resolve(prefix);
    assert Resolve(full)[|Resolve(prefix)|..] == Split(entry);
    assert Resolve(path) != Resolve(destination);
    if Rooted(destination + "/") { RootedJoin(destination, path); }
    if !Trailing(full) { NoTrailing(prefix, destination, full); }
  }

  lemma RootedJoin(destination: string, path: string)
    requires Normal(destination) == destination && Anchored(destination, path) && Rooted(destination + "/")
    requires destination != path && Clean(path)
    ensures Rooted(path)
  {
    NormalNonEmpty(destination);
    var d := destination + "/";
    assert |destination| >= 2 ==> d[0] == path[0] && d[1] == path[1];
    assert |destination| == 1 ==> path[0] == '/';
    assert |destination| == 2 && |path| > 2 && !IsSeparator(destination[1]) ==> path[2..][0] == '/';
    assert |destination| > 2 ==> path[2] == destination[2];
  }

  lemma NoTrailing(prefix: string, destination: string, full: string)
    requires Normal(prefix) == prefix && Anchored(prefix, full) && Resolve(full) != Resolve(prefix)
    requires !Trailing(full)
    ensures !EndsWithSlash(Normal(destination + "/" + AmputatePrefix(prefix, full)))
  {
    hide Resolve, Split, Seam;
    EntryDenotes(prefix, full);
    var rest := full[|prefix|..];
    assert full == prefix + rest;
    assert rest == [] ==> prefix + rest == prefix;
    assert rest[|rest| - 1] == full[|full| - 1];
    NormalLast(rest);
    var entry := AmputatePrefix(prefix, full);
    NormalSlashes(rest);
    var j := destination + "/" + entry;
    assert j[|j| - 1] == entry[|entry| - 1];
    NormalLast(j);
  }

  lemma NormalSlashes(s: string)
    ensures forall i :: 0 <= i < |Normal(s)| ==> Normal(s)[i] != '\\'
  {
    NormalIdempotent(s);
  }

  /** At most y is new; everything else is as before. */
  ghost predicate OnlyNew(before: Tree, after: Tree, y: Path) {
    && Additive(before, after)
    && (forall q :: q in after && q !in before ==> q == y)
  }

  /** y is a new file with the content x had, or with a part of it if the copy could not be closed. */
  ghost predicate Copied(before: Tree, after: Tree, x: Path, y: Path, torn: set<Node>) {
    && y !in before && y in after && after[y].File?
    && (x in before ==> Preserved(before[x], after[y], torn))
  }

  /** The copy is the file, or, if that could not be closed, the beginning of it. */
  ghost predicate Preserved(file: Node, copy: Node, torn: set<Node>) {
    && file.File? && copy.File? && copy.data <= file.data
    && (copy == file || file in torn)
  }

  lemma NothingNew(t: Tree, y: Path)
    ensures OnlyNew(t, t, y)
  {
  }

  lemma CreateMissing(t: Tree, y: Path)
    requires StatResult(t, y) == NoFile
    ensures CreateResult(t, y) == Ok && y !in t
  {
  }

  /** What a read of x into the new file y leaves behind. */
  lemma AppendedCopies(t0: Tree, t1: Tree, t2: Tree, x: Path, y: Path)
    requires y !in t0 && t1 == t0[y := File([])] && Appended(t1, t2, y)
    ensures OnlyNew(t0, t2, y) && y in t2 && t2[y].File?
    ensures x in t1 && t1[x].File? && t2[y].data == [] + t1[x].data ==> Copied(t0, t2, x, y, {})
  {
    if x in t1 && t1[x].File? { assert [] + t1[x].data == t1[x].data; }
  }

  lemma AppendedFile(t: Tree, u: Tree, y: Path)
    requires Appended(t, u, y)
    ensures y in u && u[y].File?
  {
  }

  /** What closing the new file leaves of it. */
  lemma ClosedCopies(t0: Tree, t1: Tree, t2: Tree, t3: Tree, x: Path, y: Path, torn: set<Node>)
    requires y !in t0 && t1 == t0[y := File([])] && Appended(t1, t2, y) && OnlyNew(t0, t2, y)
    requires Shortened(t2, t3, y) && (t3 == t2 || t2[y] in torn)
    ensures OnlyNew(t0, t3, y) && Appended(t1, t3, y)
    ensures Copied(t0, t2, x, y, {}) ==> Copied(t0, t3, x, y, torn)
  {
    assert t1[y].data <= t3[y].data;
  }

  /** The partial copy can be unlinked, and then the tree is as it was. */
  lemma PartialGone(t0: Tree, t1: Tree, t2: Tree, y: Path)
    requires TreeValid(t2) && y !in t0 && StatResult(t0, y) == NoFile && t1 == t0[y := File([])] && Appended(t1, t2, y)
    ensures UnlinkResult(t2, y) == Ok && t2 - {y} == t0
  {
    hide TreeValid, Follow;
    Lookups(t0, y);
    FollowFinds(t2, y);
  }

  lemma Lookups(t: Tree, y: Path)
    requires StatResult(t, y) == NoFile
    ensures |y| > 1
  {
  }

  lemma PartialRemoved(t0: Tree, t: Tree, y: Path)
    requires y !in t0 && OnlyNew(t0, t, y)
    ensures OnlyNew(t0, t - {y}, y)
  {
  }
}
