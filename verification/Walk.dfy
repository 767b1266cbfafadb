/** src/vfs/RecursiveFsIterator.cpp: the resumable walk over selected files and directories. */
module Walk {
  import opened Paths
  import opened FatFs
  import opened Worklists
  import opened Extract
  import opened Bytes

  datatype IteratorState = Initial | Valid | Done | Error

  const READ_BUFFER_SIZE := 1024

  /** Position of the first occurrence of needle in s at or after i; |s| + 1 if there is none. */
  function FindFrom(s: string, needle: string, i: nat): (pos: nat)
    ensures pos <= |s| ==> i <= pos && needle <= s[pos..]
    decreases |s| - i
  {
    if i > |s| then |s| + 1
    else if needle <= s[i..] then i
    else FindFrom(s, needle, i + 1)
  }

  /** Names an entry relative to the prefix. */
  function AmputatePrefix(prefix: string, path: string): string {
    var normalizedPath := Normal(path);
    var pos := FindFrom(normalizedPath, prefix, 0);
    if pos > |normalizedPath| || pos + |prefix| >= |normalizedPath| then path
    else
      NormalLength(path);
      Normal(path[pos + |prefix|..])
  }

  lemma {:induction false} NormalFromLength(s: string, slashes: bool)
    ensures |NormalFrom(s, slashes)| <= |s|
    decreases |s|
  {
    if s != [] {
      NormalFromLength(s[1..], IsSeparator(s[0]));
    }
  }

  lemma NormalLength(path: string)
    ensures |Normal(path)| <= |path| + 1
  {
    NormalFromLength(path, |path| < 2 || path[1] != ':');
  }

  /** path continues prefix at a component boundary. */
  predicate Anchored(prefix: string, path: string) {
    prefix <= path && Seam(prefix, path[|prefix|..])
  }

  /** What is yielded as an entry denotes, behind the prefix, the node itself. */
  lemma EntryDenotes(prefix: string, path: string)
    requires Normal(prefix) == prefix && Anchored(prefix, path)
    requires Resolve(path) != Resolve(prefix)
    ensures Resolve(path) == Resolve(prefix) + Split(AmputatePrefix(prefix, path))
    ensures AmputatePrefix(prefix, path) == Normal(path[|prefix|..])
  {
    var rest := path[|prefix|..];
    assert path == prefix + rest;
    NormalKeepsPrefix(prefix, path);
    assert FindFrom(Normal(path), prefix, 0) == 0 by { assert Normal(path)[0..] == Normal(path); }
    ResolveNormal(path);
    assert |Normal(path)| == |prefix| ==> Normal(path) == prefix;
    NormalNonEmpty(prefix);
    ResolveSeam(prefix, rest);
    SplitNormal(rest);
  }

  lemma SplitNormal(s: string)
    ensures Split(Normal(s)) == Split(s)
  {
    if |s| < 2 || s[1] != ':' {
      SplitNormalFrom(s, true);
      assert Normal(s)[1..] == NormalFrom(s, true);
    } else {
      SplitNormalFrom(s, false);
    }
  }

  /** A path joined below a normal prefix is anchored there. */
  lemma JoinAnchored(prefix: string, path: string)
    requires Normal(prefix) == prefix
    ensures Anchored(prefix, Normal(prefix + "/" + path))
    ensures Resolve(Normal(prefix + "/" + path)) == Resolve(prefix) + Split(path)
  {
    var j := prefix + "/" + path;
    ResolveNormal(j);
    ResolveJoin(prefix, path);
    NormalNonEmpty(prefix);
    NormalOfJoin(prefix, path);
    var last := IsSeparator(prefix[|prefix| - 1]);
    var tail := (if last then "" else "/") + NormalFrom(path, true);
    assert Normal(j)[|prefix|..] == tail;
  }

  lemma NormalFromSlash(path: string, slashes: bool)
    ensures NormalFrom("/" + path, slashes) == (if slashes then "" else "/") + NormalFrom(path, true)
  {
    assert ("/" + path)[1..] == path;
  }

  lemma NormalOfExtension(prefix: string, tail: string)
    requires Normal(prefix) == prefix && prefix != [] && (|prefix| == 1 && tail != [] ==> tail[0] != ':')
    ensures Normal(prefix + tail) == prefix + NormalFrom(tail, IsSeparator(prefix[|prefix| - 1]))
  {
    hide NormalFrom, IsSeparator;
    var j := prefix + tail;
    var slashes := |prefix| < 2 || prefix[1] != ':';
    assert (|j| < 2 || j[1] != ':') == slashes;
    NormalFromAppend(prefix, tail, slashes);
    var rest := NormalFrom(tail, IsSeparator(prefix[|prefix| - 1]));
    if slashes {
      assert "/" + (NormalFrom(prefix, true) + rest) == ("/" + NormalFrom(prefix, true)) + rest;
    }
  }

  lemma NormalOfJoin(prefix: string, path: string)
    requires Normal(prefix) == prefix && prefix != []
    ensures Normal(prefix + "/" + path)
         == prefix + ((if IsSeparator(prefix[|prefix| - 1]) then "" else "/") + NormalFrom(path, true))
  {
    assert prefix + "/" + path == prefix + ("/" + path);
    NormalOfExtension(prefix, "/" + path);
    NormalFromSlash(path, IsSeparator(prefix[|prefix| - 1]));
  }

  lemma ChildAnchored(prefix: string, dir: string, name: string)
    requires Anchored(prefix, dir) && ValidName(name)
    ensures Anchored(prefix, dir + "/" + name)
    ensures Resolve(dir + "/" + name) == Resolve(dir) + [name]
  {
    hide Resolve, Split, ValidName;
    ValidNamePlain(name);
    ResolveJoin(dir, name);
    SeamExtends(prefix, dir[|prefix|..], "/" + name);
    assert (dir + "/" + name)[|prefix|..] == dir[|prefix|..] + ("/" + name);
  }

  lemma NameNotTrailing(dir: string, name: string)
    requires ValidName(name)
    ensures !Trailing(dir + "/" + name)
  {
    assert (dir + "/" + name)[|dir + "/" + name| - 1] == name[|name| - 1];
    assert name[|name| - 1] in name;
  }

  lemma SeamExtends(a: string, b: string, c: string)
    requires Seam(a, b) && c != [] && IsSeparator(c[0])
    ensures Seam(a, b + c)
  {
  }

  lemma ValidNamePlain(name: string)
    requires ValidName(name)
    ensures Split(name) == [name]
  {
    PlainName(name);
  }

  // ---- the iterator -----------------------------------------------------------------------------

  function RootsOf(files: seq<string>, skip: string -> bool): (r: seq<Root>)
    ensures |r| == |files|
    ensures forall k :: 0 <= k < |files| ==> r[k] == Root(Resolve(files[k]), skip(files[k]))
  {
    seq(|files|, k requires 0 <= k < |files| => Root(Resolve(files[k]), skip(files[k])))
  }

  function ResolveAll(paths: seq<string>): (r: seq<Path>)
    ensures |r| == |paths|
    ensures forall k :: 0 <= k < |paths| ==> r[k] == Resolve(paths[k])
  {
    seq(|paths|, k requires 0 <= k < |paths| => Resolve(paths[k]))
  }

  /** d lies in a selected directory that the skip callback let through. */
  ghost predicate Admitted(kept: set<string>, d: string) {
    Proper(Resolve(d)) &&
    exists s :: s in kept && Within(Resolve(s), Resolve(d))
  }

  predicate AllAnchored(prefix: string, paths: seq<string>) {
    forall k :: 0 <= k < |paths| ==> Anchored(prefix, paths[k])
  }

  ghost predicate AllAdmitted(kept: set<string>, directories: seq<string>) {
    forall k :: 0 <= k < |directories| ==> Admitted(kept, directories[k])
  }

  lemma AnchoredPop(prefix: string, paths: seq<string>)
    requires AllAnchored(prefix, paths) && paths != []
    ensures AllAnchored(prefix, paths[..|paths| - 1]) && Anchored(prefix, paths[|paths| - 1])
  {
  }

  lemma AnchoredPush(prefix: string, paths: seq<string>, path: string)
    requires AllAnchored(prefix, paths) && Anchored(prefix, path)
    ensures AllAnchored(prefix, paths + [path])
  {
  }

  lemma AdmittedPush(kept: set<string>, directories: seq<string>, d: string)
    requires AllAdmitted(kept, directories) && Proper(Resolve(d))
    ensures AllAdmitted(kept + {d}, directories + [d])
  {
    assert Within(Resolve(d), Resolve(d)) && d in kept + {d};
    forall k | 0 <= k < |directories|
      ensures Admitted(kept + {d}, directories[k])
    {
      var s :| s in kept && Within(Resolve(s), Resolve(directories[k]));
      assert s in kept + {d};
    }
  }

  lemma AdmittedPop(kept: set<string>, directories: seq<string>)
    requires AllAdmitted(kept, directories) && directories != []
    ensures AllAdmitted(kept, directories[..|directories| - 1]) && Admitted(kept, directories[|directories| - 1])
  {
  }

  lemma AdmittedChild(kept: set<string>, directories: seq<string>, k: nat, name: string)
    requires AllAdmitted(kept, directories) && k < |directories|
    requires Resolve(directories[k] + "/" + name) == Resolve(directories[k]) + [name] && ValidName(name)
    ensures AllAdmitted(kept, directories + [directories[k] + "/" + name])
  {
    hide Resolve, ValidName;
    assert Admitted(kept, directories[k]);
    var s :| s in kept && Within(Resolve(s), Resolve(directories[k]));
    AboveChild(Resolve(s), Resolve(directories[k]), name);
  }

  lemma AnchoredAt(prefix: string, paths: seq<string>, k: nat)
    requires AllAnchored(prefix, paths) && k < |paths|
    ensures Anchored(prefix, paths[k])
  {
  }

  /** The path that is to be looked at first can neither be found nor be missing. */
  ghost predicate Lost(files: seq<string>, t: Tree) {
    files != [] && StatResult(t, Resolve(files[|files| - 1])) !in {Ok, NoFile}
  }

  lemma LostIsSome(files: seq<string>, t: Tree)
    ensures Lost(files, t) ==> files != []
  {
  }

  class RecursiveFsIterator {
    const fatfs: Volume
    const prefix: string

    var state: IteratorState
    var files: seq<string>
    var directories: seq<string>
    var directoryIndex: nat
    var scanning: bool
    var cleanup: bool
    var currentEntry: string
    var entryFullPath: string
    var failingPath: string
    var dir: DirHandle
    var filinfo: FileInfo
    var skipDirectory: string -> bool

    /** The selected directories that were not skipped. */
    ghost var kept: set<string>

    ghost function F(): Frontier
      reads this
    {
      Frontier(RootsOf(files, skipDirectory), ResolveAll(directories), directoryIndex,
               scanning, if scanning then dir.pending else {}, cleanup)
    }

    /** The selected paths that have not been dropped. */
    ghost function Names(): set<string>
      reads this
    {
      (set f | f in files) + kept
    }

    ghost predicate Valid()
      reads this
    {
      && Normal(prefix) == prefix
      && F().WellFormed()
      && AllAnchored(prefix, files) && AllAnchored(prefix, directories)
      && AllAdmitted(kept, directories)
      && (forall s :: s in kept ==> !skipDirectory(s))
      && (scanning ==> dir.path == Resolve(directories[directoryIndex]))
      && (state == Initial ==> directories == [] && !scanning && !cleanup && directoryIndex == 0 && kept == {})
      && (state == Done ==> files == [] && directories == [])
    }

    constructor (fatfs: Volume, prefix: string)
      ensures Valid() && fresh(this)
      ensures this.fatfs == fatfs && this.prefix == Normal(prefix)
      ensures state == Initial && files == [] && skipDirectory == (_ => false)
    {
      this.fatfs := fatfs;
      this.prefix := Normal(prefix);
      state, files, directories, directoryIndex := Initial, [], [], 0;
      scanning, cleanup := false, false;
      currentEntry, entryFullPath, failingPath := [], [], [];
      dir, filinfo := DirHandle([], {}), FileInfo(false, 0);
      skipDirectory := _ => false;
      kept := {};
      NormalIdempotent(prefix);
    }

    method AddFile(path: string)
      requires Valid()
      requires state == Initial ==>
        forall k :: 0 <= k < |files| ==> !Comparable(Resolve(files[k]), Resolve(prefix) + Split(path))
      modifies this`files
      ensures Valid()
      ensures files == if state == Initial then old(files) + [Normal(prefix + "/" + path)] else old(files)
      ensures Resolve(Normal(prefix + "/" + path)) == Resolve(prefix) + Split(path)
    {
      JoinAnchored(prefix, path);
      if state == Initial {
        var normalized := NormalizePath(prefix + "/" + path);
        files := files + [normalized];
      }
    }

    method SetSkipDirectory(skip: string -> bool)
      requires Valid() && state == Initial
      modifies this`skipDirectory
      ensures Valid() && skipDirectory == skip
    {
      skipDirectory := skip;
      assert forall i, j :: 0 <= i < j < |files| ==> !Comparable(F().files[i].path, F().files[j].path) by {
        assert forall i :: 0 <= i < |files| ==> F().files[i].path == old(F()).files[i].path;
      }
    }

    /** What holds of the node just yielded, x, and of the work left. */
    ghost predicate Standing(t: Tree)
      reads this
    {
      var x := Resolve(entryFullPath);
      && Anchored(prefix, entryFullPath)
      && currentEntry == AmputatePrefix(prefix, entryFullPath)
      && Proper(x)
      && (cleanup ==> files == [] && Admitted(kept, entryFullPath))
      && (!cleanup ==> x in t && t[x].File? && filinfo == InfoOf(t[x]))
    }

    /** Reads an open file to its end, handing each chunk to the callback. */
    method ReadChunks(source: FileHandle, sink: ExtractContext) returns (r: FResult, bytesReadTotal: nat)
      requires fatfs.Valid() && sink.fatfs == fatfs && source.position == 0
      requires sink.file.path in fatfs.tree && fatfs.tree[sink.file.path].File?
      requires source.path in fatfs.tree && fatfs.tree[source.path].File?
      requires source.path == sink.file.path ==> fatfs.tree[source.path].data == []
      modifies sink`status, fatfs`tree
      ensures fatfs.Valid() && Appended(old(fatfs.tree), fatfs.tree, sink.file.path)
      ensures r == Ok && sink.status == Good ==>
        fatfs.tree[sink.file.path].data == old(fatfs.tree[sink.file.path].data + fatfs.tree[source.path].data)
      ensures r == Ok ==> bytesReadTotal == |old(fatfs.tree[source.path].data)|
      ensures source.path == sink.file.path ==> fatfs.tree == old(fatfs.tree)
      ensures fatfs.faultless ==> r == Ok
      ensures fatfs.reliable && old(sink.status) == Good ==> sink.status == Good
    {
      hide TreeValid, Appended;
      AppendedSelf(fatfs.tree, sink.file.path);
      ghost var t0, x, d := fatfs.tree, source.path, sink.file.path;
      ghost var content := t0[x].data;
      var file := source;
      bytesReadTotal := 0;
      while true
        invariant fatfs.Valid() && Appended(t0, fatfs.tree, d)
        invariant d in fatfs.tree && fatfs.tree[d].File? && x in fatfs.tree && fatfs.tree[x] == t0[x]
        invariant file == FileHandle(x, bytesReadTotal) && bytesReadTotal <= |content|
        invariant sink.status == Good ==> fatfs.tree[d].data == t0[d].data + content[..bytesReadTotal]
        invariant x == d ==> fatfs.tree == t0
        invariant fatfs.reliable && old(sink.status) == Good ==> sink.status == Good
        decreases |content| - bytesReadTotal
      {
        var result, buffer, next := fatfs.Read(file, READ_BUFFER_SIZE);
        if result != Ok { return result, bytesReadTotal; }
        if |buffer| == 0 { break; }
        ghost var t1 := fatfs.tree;
        sink.OnExtract(buffer);
        AppendedChain(t0, t1, fatfs.tree, d);
        AppendedElsewhere(t1, fatfs.tree, d, x);
        assert content[..bytesReadTotal] + buffer == content[..bytesReadTotal + |buffer|];
        file := next;
        bytesReadTotal := bytesReadTotal + |buffer|;
      }
      assert content[..bytesReadTotal] == content;
      r := Ok;
    }

    /** Hands the content of the current file to the callback. */
    method ReadCurrent(sink: ExtractContext)
      requires Valid() && fatfs.Valid() && sink.fatfs == fatfs
      requires sink.file.path in fatfs.tree && fatfs.tree[sink.file.path].File?
      requires sink.file.path == Resolve(entryFullPath) ==> fatfs.tree[sink.file.path].data == []
      modifies this`state, sink`status, fatfs`tree
      ensures Valid() && fatfs.Valid() && Appended(old(fatfs.tree), fatfs.tree, sink.file.path)
      ensures state == old(state) || state == Error
      ensures sink.file.path == Resolve(entryFullPath) ==> fatfs.tree == old(fatfs.tree)
      ensures state == IteratorState.Valid && !cleanup ==>
        && Resolve(entryFullPath) in old(fatfs.tree) && old(fatfs.tree)[Resolve(entryFullPath)].File?
        && |old(fatfs.tree)[Resolve(entryFullPath)].data| == filinfo.size
      ensures state == IteratorState.Valid && sink.status == Good && !cleanup ==>
        && Resolve(entryFullPath) in old(fatfs.tree) && old(fatfs.tree)[Resolve(entryFullPath)].File?
        && fatfs.tree[sink.file.path].data
           == old(fatfs.tree)[sink.file.path].data + old(fatfs.tree)[Resolve(entryFullPath)].data
      ensures fatfs.faultless && old(Standing(fatfs.tree)) ==> state == old(state)
      ensures fatfs.reliable && old(sink.status) == Good ==> sink.status == Good
    {
      hide TreeValid, Resolve, Frontier.WellFormed, AmputatePrefix, Anchored, AllAnchored, Admitted, AllAdmitted,
           Proper;
      hide RootsOf, ResolveAll, Appended;
      AppendedSelf(fatfs.tree, sink.file.path);
      if state != IteratorState.Valid || cleanup { return; }
      if Resolve(entryFullPath) in fatfs.tree { FollowFinds(fatfs.tree, Resolve(entryFullPath)); }
      var r, file := fatfs.OpenForRead(entryFullPath);
      if r != Ok {
        state := Error;
        return;
      }
      var result, bytesReadTotal := ReadChunks(file, sink);
      if result != Ok || bytesReadTotal != filinfo.size { state := Error; }
    }

    method TakeDirectory(fullPath: string, ghost f: Frontier)
      requires f.WellFormed() && f.files != [] && F() == f.PopFile() && fatfs.Valid()
      requires f.files[|f.files| - 1] == Root(Resolve(fullPath), skipDirectory(fullPath))
      requires Resolve(fullPath) in fatfs.tree && fatfs.tree[Resolve(fullPath)].Dir? && Proper(Resolve(fullPath))
      requires Anchored(prefix, fullPath) && AllAnchored(prefix, directories) && AllAdmitted(kept, directories)
      modifies this`directories, this`kept
      ensures F().WellFormed() && Silent(f, F(), fatfs.tree)
      ensures AllAnchored(prefix, directories) && AllAdmitted(kept, directories)
      ensures kept == if skipDirectory(fullPath) then old(kept) else old(kept) + {fullPath}
    {
      hide Frontier.WellFormed, Frontier.Covers, Frontier.Ready, Silent, SameCover, Proper;
      hide TreeValid, Resolve, Within, Anchored, AllAnchored, Admitted, AllAdmitted;
      if skipDirectory(fullPath) {
        DropRoot(f, fatfs.tree);
      } else {
        AcceptRoot(f, fatfs.tree);
        AnchoredPush(prefix, directories, fullPath);
        AdmittedPush(kept, directories, fullPath);
        directories := directories + [fullPath];
        kept := kept + {fullPath};
        assert F() == f.Accept() by { assert ResolveAll(directories) == f.dirs + [Resolve(fullPath)]; }
      }
    }

    method TakeRootFile(fullPath: string, ghost f: Frontier)
      requires f.WellFormed() && f.files != [] && F() == f.PopFile() && fatfs.Valid() && !cleanup
      requires f.files[|f.files| - 1] == Root(Resolve(fullPath), skipDirectory(fullPath))
      requires var x := Resolve(fullPath); x in fatfs.tree && fatfs.tree[x].File? && filinfo == InfoOf(fatfs.tree[x])
      requires Anchored(prefix, fullPath) && Proper(Resolve(fullPath))
      modifies this`entryFullPath, this`currentEntry
      ensures F() == f.PopFile() && F().WellFormed() && Standing(fatfs.tree) && entryFullPath == fullPath
      ensures Yields(f, F(), fatfs.tree, Resolve(entryFullPath))
    {
      hide Frontier.WellFormed, Frontier.Covers, Frontier.Ready, Yields, SameCover, Proper, AmputatePrefix;
      hide TreeValid, Resolve, Within, Anchored, AllAnchored, Admitted, RootsOf, ResolveAll;
      YieldRoot(f, fatfs.tree);
      entryFullPath := fullPath;
      currentEntry := AmputatePrefix(prefix, entryFullPath);
    }

    method PopFile() returns (stop: bool)
      requires Valid() && fatfs.Valid() && state == IteratorState.Valid && files != []
      modifies this
      ensures Valid() && files == old(files)[..|old(files)| - 1]
      ensures skipDirectory == old(skipDirectory)
      ensures kept == old(kept) || kept == old(kept) + {old(files)[|old(files)| - 1]}
      ensures stop && state == IteratorState.Valid ==>
        Standing(fatfs.tree) && !cleanup && Yields(old(F()), F(), fatfs.tree, Resolve(entryFullPath))
      ensures stop && state == IteratorState.Valid ==> entryFullPath == old(files)[|old(files)| - 1]
      ensures !stop ==> state == IteratorState.Valid && Silent(old(F()), F(), fatfs.tree)
      ensures state == IteratorState.Valid || (state == Error && stop)
      ensures fatfs.faultless && old(F()).Ready(fatfs.tree) ==> state == IteratorState.Valid
      ensures Lost(old(files), fatfs.tree) ==> state == Error
    {
      hide Frontier.WellFormed, Frontier.Covers, Frontier.Ready, Frontier.Open, Yields, Silent, SameCover, Proper;
      hide TreeValid, Resolve, Within, AmputatePrefix, Anchored, AllAnchored, Admitted, AllAdmitted;
      hide Follow, RootsOf, ResolveAll, RootCovers, Normal, StatResult, Frontier.DirsThere, Trailing;
      ghost var f, t := F(), fatfs.tree;
      FilesFirst(f);
      AnchoredPop(prefix, files);
      ReadyMeansStat(f, t);
      var fullPath := files[|files| - 1];
      files := files[..|files| - 1];
      assert F() == f.PopFile() by { assert RootsOf(files, skipDirectory) == f.files[..|files|]; }
      StatFacts(t, Resolve(fullPath));
      var r, info := fatfs.Stat(fullPath);
      if r == NoFile {
        DropRoot(f, t);
        return false;
      }
      if r != Ok {
        PopKeepsWellFormed(f);
        state := Error;
        failingPath := AmputatePrefix(prefix, fullPath);
        return true;
      }
      filinfo := info;
      InTreeProper(t, Resolve(fullPath));
      if filinfo.isDirectory {
        TakeDirectory(fullPath, f);
        return false;
      }
      TakeRootFile(fullPath, f);
      return true;
    }

    method TakeSubdirectory(name: string, ghost f: Frontier)
      requires f.WellFormed() && f.scanning && f.files == [] && name in f.pending && fatfs.Valid()
      requires F() == f.Read(name) && directoryIndex < |directories| && ValidName(name)
      requires var c := f.dirs[f.index] + [name]; c in fatfs.tree && fatfs.tree[c].Dir?
      requires AllAnchored(prefix, directories) && AllAdmitted(kept, directories)
      modifies this`directories
      ensures F().WellFormed() && Silent(f, F(), fatfs.tree)
      ensures |OpenWork(F(), fatfs.tree)| < |OpenWork(f, fatfs.tree)|
      ensures AllAnchored(prefix, directories) && AllAdmitted(kept, directories)
      ensures directories == old(directories) + [old(directories)[directoryIndex] + "/" + name]
    {
      hide Frontier.WellFormed, Frontier.Covers, Frontier.Ready, Silent, SameCover, OpenWork, Proper;
      hide TreeValid, Resolve, Within, Anchored, AllAnchored, Admitted, AllAdmitted;
      var parent := directories[directoryIndex];
      AnchoredAt(prefix, directories, directoryIndex);
      ChildAnchored(prefix, parent, name);
      DescendInto(f, fatfs.tree, name);
      DescendWellFormed(f, name);
      OpenWorkDescending(f, fatfs.tree, name);
      AnchoredPush(prefix, directories, parent + "/" + name);
      AdmittedChild(kept, directories, directoryIndex, name);
      directories := directories + [parent + "/" + name];
      assert F() == f.Descend(name) by {
        assert ResolveAll(directories) == f.dirs + [Resolve(parent + "/" + name)];
      }
    }

    method TakeFile(name: string, ghost f: Frontier)
      requires f.WellFormed() && f.scanning && f.files == [] && name in f.pending && fatfs.Valid()
      requires F() == f.Read(name) && directoryIndex < |directories| && ValidName(name) && !cleanup
      requires var c := f.dirs[f.index] + [name];
        c in fatfs.tree && fatfs.tree[c].File? && filinfo == InfoOf(fatfs.tree[c])
      requires AllAnchored(prefix, directories)
      modifies this`entryFullPath, this`currentEntry
      ensures F() == f.Read(name) && F().WellFormed() && Standing(fatfs.tree) && !Trailing(entryFullPath)
      ensures Yields(f, F(), fatfs.tree, Resolve(entryFullPath))
    {
      hide Frontier.WellFormed, Frontier.Covers, Frontier.Ready, Yields, SameCover, Proper, AmputatePrefix;
      hide TreeValid, Resolve, Within, Anchored, AllAnchored, Admitted, RootsOf;
      var parent := directories[directoryIndex];
      AnchoredAt(prefix, directories, directoryIndex);
      ChildAnchored(prefix, parent, name);
      NameNotTrailing(parent, name);
      YieldEntry(f, fatfs.tree, name);
      InTreeProper(fatfs.tree, f.dirs[f.index] + [name]);
      entryFullPath := parent + "/" + name;
      currentEntry := AmputatePrefix(prefix, entryFullPath);
    }

    /** The end of a directory: the next one is up. */
    method CloseDir(ghost f: Frontier)
      requires f.WellFormed() && f.scanning && f.files == [] && fatfs.Valid() && f.dirs[f.index] != []
      requires forall n :: n in f.pending && n != [] ==> f.dirs[f.index] + [n] !in fatfs.tree
      requires F() == f && directoryIndex < |directories| && !cleanup
      modifies this`scanning, this`directoryIndex
      ensures F() == f.Closed() && F().WellFormed() && Silent(f, F(), fatfs.tree) && !scanning
      ensures directoryIndex == old(directoryIndex) + 1
      ensures |OpenWork(F(), fatfs.tree)| <= |OpenWork(f, fatfs.tree)|
    {
      hide Frontier.WellFormed, Frontier.Covers, Frontier.Ready, Silent, SameCover, OpenWork, TreeValid, RootsOf;
      hide ResolveAll;
      CloseDirectory(f, fatfs.tree);
      OpenWorkClosing(f, fatfs.tree);
      scanning := false;
      directoryIndex := directoryIndex + 1;
    }

    /** One readdir of the directory being scanned. */
    method ReadEntry() returns (stop: bool)
      requires Valid() && fatfs.Valid() && state == IteratorState.Valid && files == [] && scanning
      modifies this
      ensures Valid() && files == [] && skipDirectory == old(skipDirectory) && kept == old(kept)
      ensures stop && state == IteratorState.Valid ==>
        Standing(fatfs.tree) && !cleanup && Yields(old(F()), F(), fatfs.tree, Resolve(entryFullPath))
      ensures stop && state == IteratorState.Valid ==> !Trailing(entryFullPath)
      ensures !stop ==> state == IteratorState.Valid && Silent(old(F()), F(), fatfs.tree) && !cleanup
      ensures !stop && scanning ==> |OpenWork(F(), fatfs.tree)| < |OpenWork(old(F()), fatfs.tree)|
      ensures !stop && !scanning ==>
        && |OpenWork(F(), fatfs.tree)| <= |OpenWork(old(F()), fatfs.tree)|
        && directories == old(directories) && directoryIndex == old(directoryIndex) + 1
      ensures state == IteratorState.Valid || (state == Error && stop)
      ensures fatfs.faultless ==> state == IteratorState.Valid
    {
      hide Frontier.WellFormed, Frontier.Covers, Frontier.Ready, Frontier.Open, Yields, Silent, SameCover, OpenWork,
           Proper;
      hide TreeValid, Resolve, Within, AmputatePrefix, Anchored, AllAnchored, Admitted, AllAdmitted;
      hide RootsOf, ResolveAll, Normal, StatResult, Frontier.DirsThere, Trailing, Follow;
      ghost var f, t := F(), fatfs.tree;
      ScanningInside(f);
      var parent := directories[directoryIndex];
      AnchoredAt(prefix, directories, directoryIndex);
      var r, rest, name, info := fatfs.ReadDir(dir);
      if r != Ok {
        state := Error;
        failingPath := AmputatePrefix(prefix, parent);
        return true;
      }
      filinfo := info;
      if name == [] {
        CloseDir(f);
        return false;
      }
      EntryName(t, dir.path, name);
      ChildAnchored(prefix, parent, name);
      dir := rest;
      if filinfo.isDirectory {
        TakeSubdirectory(name, f);
        return false;
      }
      TakeFile(name, f);
      return true;
    }

    /** Opens the next directory. */
    method OpenNext() returns (stop: bool)
      requires Valid() && fatfs.Valid() && state == IteratorState.Valid && files == [] && !scanning && !cleanup
      requires directoryIndex < |directories|
      modifies this
      ensures Valid() && files == [] && skipDirectory == old(skipDirectory) && kept == old(kept)
      ensures directories == old(directories) && directoryIndex == old(directoryIndex) && cleanup == old(cleanup)
      ensures !stop ==>
        && state == IteratorState.Valid && scanning && Silent(old(F()), F(), fatfs.tree)
        && |OpenWork(F(), fatfs.tree)| <= |OpenWork(old(F()), fatfs.tree)|
      ensures stop ==> state == Error
      ensures fatfs.faultless && old(F()).Ready(fatfs.tree) ==> !stop
    {
      hide Frontier.WellFormed, Frontier.Covers, Frontier.Open, Yields, Silent, SameCover, OpenWork, Proper;
      hide TreeValid, Resolve, Within, AmputatePrefix, Anchored, AllAnchored, Admitted, AllAdmitted;
      hide RootsOf, ResolveAll, Follow;
      ghost var f, t := F(), fatfs.tree;
      var path := directories[directoryIndex];
      if Resolve(path) in t { FollowFinds(t, Resolve(path)); }
      var r, handle := fatfs.OpenDir(path);
      if r != Ok {
        failingPath := AmputatePrefix(prefix, path);
        state := Error;
        return true;
      }
      OpenDirectory(f, t);
      OpenWorkOpening(f, handle.pending, t);
      dir := handle;
      scanning := true;
      assert F() == f.Opened(handle.pending);
      return false;
    }

    /** Yields the last directory of the list. */
    method PopDirectory()
      requires Valid() && state == IteratorState.Valid && files == [] && cleanup
      modifies this
      ensures Valid() && files == [] && cleanup && skipDirectory == old(skipDirectory) && kept == old(kept)
      ensures state == if old(directories) == [] then Done else IteratorState.Valid
      ensures state == Done ==> F() == old(F())
      ensures forall t: Tree :: state == IteratorState.Valid ==>
        Standing(t) && Yields(old(F()), F(), t, Resolve(entryFullPath))
        && (old(F()).DirsThere(t) ==> Resolve(entryFullPath) in t && t[Resolve(entryFullPath)].Dir?)
    {
      hide Frontier.WellFormed, Frontier.Covers, Frontier.Open, Yields, Proper;
      hide Resolve, Within, AmputatePrefix, Anchored, AllAnchored, Admitted, AllAdmitted;
      hide RootsOf, ResolveAll;
      if directories == [] {
        state := Done;
        return;
      }
      ghost var f := F();
      AnchoredPop(prefix, directories);
      AdmittedPop(kept, directories);
      NotScanningInCleanup(f);
      entryFullPath := directories[|directories| - 1];
      currentEntry := AmputatePrefix(prefix, entryFullPath);
      directories := directories[..|directories| - 1];
      assert F() == f.PopDir() by { assert ResolveAll(directories) == f.dirs[..|f.dirs| - 1]; }
      YieldDirectory(f, map[]);
      forall t: Tree
        ensures Yields(f, F(), t, Resolve(entryFullPath))
      {
        YieldDirectory(f, t);
      }
    }

    /** How many directories are still to be opened or read. */
    function DirectoriesLeft(): int
      reads this
    {
      2 * (|directories| - directoryIndex) + (if scanning then 0 else 1)
    }

    /** One round of the loop in Next. */
    method Round() returns (stop: bool)
      requires Valid() && fatfs.Valid() && state == IteratorState.Valid
      modifies this
      ensures Valid() && skipDirectory == old(skipDirectory) && state != Initial
      ensures forall s :: s in kept ==> s in old(kept) || s in old(files)
      ensures forall f :: f in files ==> f in old(files)
      ensures stop && state == IteratorState.Valid ==>
        Standing(fatfs.tree) && Yields(old(F()), F(), fatfs.tree, Resolve(entryFullPath))
      ensures stop && state == IteratorState.Valid && !cleanup ==>
        entryFullPath in old(files) || !Trailing(entryFullPath)
      ensures stop && state == IteratorState.Valid && cleanup && old(F()).DirsThere(fatfs.tree) ==>
        Resolve(entryFullPath) in fatfs.tree && fatfs.tree[Resolve(entryFullPath)].Dir?
      ensures state == Done ==> F() == old(F()) && F().Todo(fatfs.tree) == {}
      ensures fatfs.faultless && old(F()).Ready(fatfs.tree) ==> state != Error
      ensures Lost(old(files), fatfs.tree) ==> state == Error && stop
      ensures !stop ==> state == IteratorState.Valid && Silent(old(F()), F(), fatfs.tree)
      ensures !stop ==>
        || |files| < |old(files)|
        || (|files| == |old(files)| && |OpenWork(F(), fatfs.tree)| < |OpenWork(old(F()), fatfs.tree)|)
        || (&& |files| == |old(files)| && |OpenWork(F(), fatfs.tree)| <= |OpenWork(old(F()), fatfs.tree)|
            && (|| (DirectoriesLeft() < old(DirectoriesLeft()) && old(DirectoriesLeft()) >= 0)
                || (DirectoriesLeft() == old(DirectoriesLeft()) && cleanup && !old(cleanup))))
    {
      hide Frontier.WellFormed, Frontier.Covers, Frontier.Ready, Frontier.DirsThere, Frontier.Open, Yields, Silent;
      hide OpenWork, Frontier.Todo, TreeValid, Resolve, Within, AmputatePrefix, Anchored, AllAnchored, Admitted;
      hide AllAdmitted;
      hide RootsOf, ResolveAll, Lost;
      LostIsSome(files, fatfs.tree);
      ghost var g, t := F(), fatfs.tree;
      BoundedIndex(g);
      if |files| > 0 {
        stop := PopFile();
      } else if scanning {
        stop := ReadEntry();
      } else if cleanup {
        PopDirectory();
        if state == Done { NothingLeft(g, t); }
        stop := true;
      } else if directoryIndex >= |directories| {
        StartCleanup(g, t);
        OpenWorkCleaning(g, t);
        cleanup := true;
        assert F() == g.CleaningUp();
        stop := false;
      } else {
        stop := OpenNext();
      }
      BoundedIndex(F());
    }

    /** Advances to the next file or, once all files are through, to the next directory. */
    method Next()
      requires Valid() && fatfs.Valid()
      modifies this
      ensures Valid() && skipDirectory == old(skipDirectory)
      ensures forall s :: s in kept ==> s in old(kept) || s in old(files)
      ensures forall f :: f in files ==> f in old(files)
      ensures state == IteratorState.Valid && old(state) !in {Done, Error} && !cleanup ==>
        entryFullPath in old(files) || !Trailing(entryFullPath)
      ensures old(state) in {Done, Error} ==> state == old(state) && F() == old(F())
      ensures state != Initial
      ensures old(state) !in {Done, Error} && state == IteratorState.Valid ==>
        Standing(fatfs.tree) && Yields(old(F()), F(), fatfs.tree, Resolve(entryFullPath))
      ensures old(state) !in {Done, Error} && state == IteratorState.Valid && cleanup ==>
        old(F()).DirsThere(fatfs.tree) ==>
        Resolve(entryFullPath) in fatfs.tree && fatfs.tree[Resolve(entryFullPath)].Dir?
      ensures state == Done ==> F().Todo(fatfs.tree) == {} && old(F()).Todo(fatfs.tree) == {}
      ensures old(state) !in {Done, Error} && fatfs.faultless && old(F()).Ready(fatfs.tree) ==> state != Error
      ensures old(state) !in {Done, Error} && Lost(old(files), fatfs.tree) ==> state == Error
    {
      hide Frontier.WellFormed, Frontier.Covers, Frontier.Ready, Frontier.DirsThere, Frontier.Open, Yields, Silent;
      hide OpenWork, Frontier.Todo, TreeValid, Resolve, RootsOf, ResolveAll, RecursiveFsIterator.Standing, Lost;
      ghost var t, f := fatfs.tree, F();
      if state == Done { AtTheEnd(t); }
      if state == Initial { BeginValid(); }
      if state != IteratorState.Valid { return; }
      SilentSelf(f, t);
      while true
        invariant Valid() && state == IteratorState.Valid && skipDirectory == old(skipDirectory)
        invariant forall s :: s in kept ==> s in old(kept) || s in old(files)
        invariant forall k :: k in files ==> k in old(files)
        invariant Silent(f, F(), t)
        invariant Lost(old(files), t) ==> files == old(files)
        decreases |files|, |OpenWork(F(), t)|, DirectoriesLeft(), if cleanup then 0 else 1
      {
        hide RecursiveFsIterator.Valid;
        ghost var g := F();
        SilentKeepsReady(f, g, t);
        var stop := Round();
        if stop {
          if state == Done { SilentToTheEnd(f, g, t); }
          if state == IteratorState.Valid { SilentThenYields(f, g, F(), t, Resolve(entryFullPath)); }
          return;
        }
        SilentChain(f, g, F(), t);
      }
    }

    lemma AtTheEnd(t: Tree)
      requires Valid() && state == Done
      ensures F().Todo(t) == {}
    {
      hide Frontier.WellFormed, AllAnchored, AllAdmitted;
      NothingLeft(F(), t);
    }

    /** The first call. */
    method BeginValid()
      requires Valid() && state == Initial
      modifies this`state
      ensures Valid() && state == IteratorState.Valid && F() == old(F())
    {
      state := IteratorState.Valid;
    }
  }

  // ---- a whole walk -----------------------------------------------------------------------------

  /** No path is at or below an earlier one: nothing is listed twice, and a directory comes after
      everything it contains. */
  ghost predicate BottomUp(log: seq<Path>) {
    forall i, j :: 0 <= i < j < |log| ==> !Within(log[i], log[j])
  }

  /** The log so far and the work left split the original work. */
  ghost predicate Accounted(f: Frontier, g: Frontier, t: Tree, log: seq<Path>) {
    && BottomUp(log)
    && (forall p :: p in t ==> (f.Covers(t, p) <==> p in log || g.Covers(t, p)))
    && (forall i :: 0 <= i < |log| ==> log[i] in t)
    && (forall i, p :: 0 <= i < |log| && p in t && g.Covers(t, p) ==> !Within(log[i], p))
  }

  lemma AccountedStep(f: Frontier, g: Frontier, h: Frontier, t: Tree, log: seq<Path>, x: Path)
    requires Accounted(f, g, t, log) && Yields(g, h, t, x) && x in t
    ensures Accounted(f, h, t, log + [x])
  {
    hide Frontier.Covers, Frontier.Ready, Within;
    var log' := log + [x];
    forall p | p in t
      ensures f.Covers(t, p) <==> p in log' || h.Covers(t, p)
    {
    }
  }

  lemma AccountedEnd(f: Frontier, g: Frontier, t: Tree, log: seq<Path>)
    requires Accounted(f, g, t, log) && g.Todo(t) == {}
    ensures BottomUp(log)
    ensures forall p :: p in log <==> p in f.Todo(t)
  {
    hide Frontier.Covers, BottomUp;
    assert forall p :: p in t && g.Covers(t, p) ==> p in g.Todo(t);
  }

  /** p lies at or below a selected path that is not a skipped directory. */
  ghost predicate SelectedBy(files: seq<string>, skip: string -> bool, t: Tree, p: Path) {
    exists k :: 0 <= k < |files| && Within(Resolve(files[k]), p)
      && !(skip(files[k]) && Resolve(files[k]) in t && t[Resolve(files[k])].Dir?)
  }

  /** No selected path has a bad name or lacks the directory it should be in; it may be missing itself. */
  predicate Findable(files: seq<string>, t: Tree) {
    forall k :: 0 <= k < |files| ==>
      StatResult(t, Resolve(files[k])) == Ok || StatResult(t, Resolve(files[k])) == NoFile
  }

  lemma WorkAtStart(walk: RecursiveFsIterator, t: Tree)
    requires walk.Valid() && walk.state == IteratorState.Initial
    ensures forall p :: p in walk.F().Todo(t) <==> p in t && SelectedBy(walk.files, walk.skipDirectory, t, p)
    ensures walk.F().Ready(t) <==> Findable(walk.files, t)
  {
    hide Resolve, Within, StatResult, Frontier.WellFormed, AllAnchored, AllAdmitted, Frontier.Todo, Frontier.Covers;
    var fr := walk.F();
    forall p
      ensures p in fr.Todo(t) <==> p in t && SelectedBy(walk.files, walk.skipDirectory, t, p)
    {
      InitialTodo(fr, t, p);
      if SelectedBy(walk.files, walk.skipDirectory, t, p) {
        var k :| 0 <= k < |walk.files| && Within(Resolve(walk.files[k]), p)
          && !(walk.skipDirectory(walk.files[k]) && Resolve(walk.files[k]) in t && t[Resolve(walk.files[k])].Dir?);
        assert RootCovers(fr.files[k], t, p);
      }
    }
  }

  /** A walk ends. It lists nodes under the selected paths only, each once, a directory after everything in
      it; if it is done it has listed all of them, and without I/O errors it is done. */
  method Enumerate(walk: RecursiveFsIterator) returns (log: seq<Path>)
    requires walk.Valid() && walk.fatfs.Valid() && walk.state == IteratorState.Initial
    modifies walk
    ensures walk.Valid() && walk.state in {IteratorState.Done, IteratorState.Error}
    ensures BottomUp(log)
    ensures forall p :: p in log ==>
      p in walk.fatfs.tree && SelectedBy(old(walk.files), old(walk.skipDirectory), walk.fatfs.tree, p)
    ensures walk.state == IteratorState.Done ==>
      forall p :: p in walk.fatfs.tree && SelectedBy(old(walk.files), old(walk.skipDirectory), walk.fatfs.tree, p) ==>
        p in log
    ensures walk.fatfs.faultless && old(Findable(walk.files, walk.fatfs.tree)) ==> walk.state == IteratorState.Done
  {
    hide Findable, SelectedBy;
    WorkAtStart(walk, walk.fatfs.tree);
    log := List(walk);
  }

  /** Lists the work of a walk. */
  method List(walk: RecursiveFsIterator) returns (log: seq<Path>)
    requires walk.Valid() && walk.fatfs.Valid() && walk.state == IteratorState.Initial
    modifies walk
    ensures walk.Valid() && walk.state in {IteratorState.Done, IteratorState.Error}
    ensures BottomUp(log)
    ensures forall p :: p in log ==> p in old(walk.F().Todo(walk.fatfs.tree))
    ensures walk.state == IteratorState.Done ==> forall p :: p in old(walk.F().Todo(walk.fatfs.tree)) ==> p in log
    ensures walk.fatfs.faultless && old(walk.F().Ready(walk.fatfs.tree)) ==> walk.state == IteratorState.Done
  {
    hide Frontier.WellFormed, Frontier.Covers, Frontier.Ready, Frontier.DirsThere, Frontier.Todo, Yields, BottomUp;
    hide Accounted;
    hide TreeValid, Resolve, AmputatePrefix, Anchored, AllAnchored, Admitted, AllAdmitted, RootsOf, ResolveAll;
    ghost var f, t := walk.F(), walk.fatfs.tree;
    log := [];
    AccountedStart(f, t);
    ghost var g := f;
    ReadyHasDirs(f, t);
    NoDirsYet(f, t);
    walk.Next();
    while walk.state == IteratorState.Valid
      invariant walk.Valid() && walk.state in {IteratorState.Valid, IteratorState.Done, IteratorState.Error}
      invariant Accounted(f, g, t, log) && g.DirsThere(t)
      invariant walk.fatfs.faultless && f.Ready(t) ==> g.Ready(t) && walk.state != IteratorState.Error
      invariant walk.state == IteratorState.Valid ==>
        && walk.Standing(t) && Yields(g, walk.F(), t, Resolve(walk.entryFullPath))
        && Resolve(walk.entryFullPath) in t
      invariant walk.state == IteratorState.Done ==> g.Todo(t) == {}
      decreases |g.Todo(t)|, walk.state == IteratorState.Valid
    {
      var x := Resolve(walk.entryFullPath);
      log := log + [x];
      ghost var h := walk.F();
      AccountedStep(f, g, h, t, log[..|log| - 1], x);
      YieldsTakesOne(g, h, t, x);
      SmallerSet(h.Todo(t), g.Todo(t));
      YieldsKeepsReady(g, h, t, x);
      g := h;
      assert log[..|log| - 1] + [x] == log;
      walk.Next();
    }
    AccountedSoFar(f, g, t, log);
    if walk.state == IteratorState.Done { AccountedEnd(f, g, t, log); }
  }

  lemma NoDirsYet(f: Frontier, t: Tree)
    ensures f.dirs == [] ==> f.DirsThere(t)
  {
  }

  lemma AccountedSoFar(f: Frontier, g: Frontier, t: Tree, log: seq<Path>)
    requires Accounted(f, g, t, log)
    ensures BottomUp(log) && forall p :: p in log ==> p in f.Todo(t)
  {
    hide Frontier.Covers, BottomUp;
  }

  lemma AccountedStart(f: Frontier, t: Tree)
    ensures Accounted(f, f, t, [])
  {
  }
}
