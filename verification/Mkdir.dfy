/** MkdirRecursive of src/vfs/GenericCopyContext.cpp, with its cache of visited directories. */
module Mkdir {
  import opened Paths
  import opened FatFs

  datatype CopyState = More | Done | Collision | InvalidEntry | CollisionWithDirectory
                     | IoError | IteratorError | CardFull

  function FirstSlash(s: string): (pos: nat)
    ensures pos <= |s| && (pos < |s| ==> s[pos] == '/') && forall i :: 0 <= i < pos ==> s[i] != '/'
  {
    if s == [] || s[0] == '/' then 0 else 1 + FirstSlash(s[1..])
  }

  predicate IsDir(t: Tree, p: Path) {
    p in t && t[p].Dir?
  }

  /** Everything there was is still there, unchanged. */
  ghost predicate Additive(before: Tree, after: Tree) {
    forall p :: p in before ==> p in after && after[p] == before[p]
  }

  /** Only directories on the way to p are new. */
  ghost predicate DirsAdded(before: Tree, after: Tree, p: Path) {
    && Additive(before, after)
    && (forall q :: q in after && q !in before ==> after[q].Dir? && Within(q, p))
  }

  lemma DirsAddedChain(a: Tree, b: Tree, c: Tree, p: Path)
    requires DirsAdded(a, b, p) && DirsAdded(b, c, p)
    ensures DirsAdded(a, c, p)
  {
    hide Within;
  }

  /** What the cache says is so: true entries are directories, false entries cannot exist. */
  ghost predicate CacheSound(visited: map<string, bool>, t: Tree) {
    forall k :: k in visited ==> if visited[k] then IsDir(t, Resolve(k)) else !Proper(Resolve(k))
  }

  /** Only paths on the way to p have been added to the cache. */
  ghost predicate CacheGrows(before: map<string, bool>, after: map<string, bool>, p: Path) {
    forall k :: k in after ==> (k in before && after[k] == before[k]) || Within(Resolve(k), p)
  }

  lemma CacheGrowsChain(a: map<string, bool>, b: map<string, bool>, c: map<string, bool>, p: Path, q: Path)
    requires CacheGrows(a, b, q) && CacheGrows(b, c, p) && Within(p, q)
    ensures CacheGrows(a, c, q)
  {
    hide Resolve, Within;
    forall k | k in c
      ensures (k in a && c[k] == a[k]) || Within(Resolve(k), q)
    {
      if Within(Resolve(k), p) { WithinTransitive(Resolve(k), p, q); }
    }
  }

  lemma CacheGrowsBy(v: map<string, bool>, k: string, b: bool)
    ensures CacheGrows(v, v, Resolve(k)) && CacheGrows(v, v[k := b], Resolve(k))
  {
    hide Resolve;
    assert Within(Resolve(k), Resolve(k));
  }

  lemma CacheUnchanged(v: map<string, bool>, p: Path)
    ensures CacheGrows(v, v, p)
  {
  }

  lemma CacheStaysSound(visited: map<string, bool>, before: Tree, after: Tree)
    requires CacheSound(visited, before) && Additive(before, after)
    ensures CacheSound(visited, after)
  {
    hide Resolve, Proper;
  }

  /** Nothing stands in the way of making p a directory. */
  ghost predicate Clear(t: Tree, p: Path) {
    && p != [] && [p[0]] in t
    && (forall i :: 1 <= i < |p| ==> ValidName(p[i]))
    && (forall q :: q in t && q != [] && Within(q, p) ==> t[q].Dir?)
  }

  lemma ClearStays(before: Tree, after: Tree, p: Path, q: Path)
    requires Clear(before, p) && DirsAdded(before, after, q)
    ensures Clear(after, p)
  {
    hide Within, ValidName;
  }

  /** A name that is refused cannot be the name of any node. */
  lemma {:induction false} RefusedNames(t: Tree, p: Path)
    requires Follow(t, p) == InvalidName
    ensures !Proper(p)
    decreases |p|
  {
    hide ValidName;
    if |p| > 1 && Follow(t, Parent(p)) == InvalidName {
      RefusedNames(t, Parent(p));
      assert |p| > 2;
      assert forall i :: 1 <= i < |p| - 1 ==> Parent(p)[i] == p[i];
    }
  }

  /** On a clear way, below an existing directory, stat finds a directory or nothing. */
  lemma ClearLookup(t: Tree, p: Path, q: Path)
    requires TreeValid(t) && Clear(t, p) && Within(q, p) && |q| > 1 && IsDir(t, Parent(q))
    ensures if q in t then StatResult(t, q) == Ok && t[q].Dir?
            else StatResult(t, q) == NoFile && MkdirResult(t, q) == Ok
  {
    hide ValidName;
    assert q[|q| - 1] == p[..|q|][|q| - 1] == p[|q| - 1];
    FollowFinds(t, Parent(q));
    if q in t { FollowFinds(t, q); }
  }

  /** The first component of what is left of a path, and the rest behind its slash. */
  lemma SplitFirst(path: string)
    requires Clean(path) && path != [] && path[0] != '/'
    ensures var pos := FirstSlash(path);
      var tail := if pos < |path| then path[pos + 1..] else [];
      && pos > 0 && Split(path[..pos]) == [path[..pos]]
      && Split(path) == [path[..pos]] + Split(tail)
      && Clean(tail) && (tail != [] ==> tail[0] != '/')
  {
    var pos := FirstSlash(path);
    var tail := if pos < |path| then path[pos + 1..] else [];
    PlainName(path[..pos]);
    assert path == path[..pos] + path[pos..];
    SplitSeam(path[..pos], path[pos..]);
    if pos < |path| {
      assert path[pos..][1..] == tail;
      assert tail != [] ==> tail[0] == path[pos + 1];
    }
  }

  lemma ResolveComponent(next: string, comp: string)
    requires Split(comp) == [comp]
    ensures Resolve(next + "/" + comp) == Resolve(next) + [comp]
  {
    ResolveJoin(next, comp);
  }

  lemma CutAtSlash(path: string, pos: nat)
    requires pos < |path| && path[pos] == '/'
    ensures path[..pos] + "/" + path[pos + 1..] == path
  {
    assert "/" == [path[pos]];
  }

  /** A path before its first slash and behind it. */
  lemma HeadAndRest(path: string)
    requires FirstSlash(path) < |path|
    ensures Resolve(path) == Resolve(path[..FirstSlash(path)]) + Split(path[FirstSlash(path) + 1..])
  {
    hide Resolve, Split, FirstSlash;
    var pos := FirstSlash(path);
    CutAtSlash(path, pos);
    ResolveJoin(path[..pos], path[pos + 1..]);
  }

  lemma HeadIsDrive(path: string)
    requires FirstSlash(path) < |path| && Rooted(path)
    ensures |Resolve(path[..FirstSlash(path)])| == 1
  {
    var pos := FirstSlash(path);
    if HasDrive(path) {
      assert path[2] == '/' && path[0] != '/' && path[1] != '/';
      assert path[..2][2..] == [];
    } else {
      assert pos == 0;
    }
  }

  lemma RestIsClean(path: string)
    requires FirstSlash(path) < |path| && Clean(path)
    ensures Clean(path[FirstSlash(path) + 1..])
    ensures FirstSlash(path) + 1 < |path| ==> path[FirstSlash(path) + 1] != '/'
  {
  }

  // ---- one round of the loop, on values -----------------------------------------------------------

  lemma CacheSays(visited: map<string, bool>, t: Tree, k: string)
    requires CacheSound(visited, t) && k in visited
    ensures if visited[k] then IsDir(t, Resolve(k)) else !Proper(Resolve(k))
  {
  }

  lemma CacheAdd(visited: map<string, bool>, t: Tree, k: string, b: bool)
    requires CacheSound(visited, t) && if b then IsDir(t, Resolve(k)) else !Proper(Resolve(k))
    ensures CacheSound(visited[k := b], t)
  {
    hide Resolve, Proper;
  }

  lemma Refused(t: Tree, p: Path)
    requires StatResult(t, p) == InvalidName || MkdirResult(t, p) == InvalidName
    ensures !Proper(p)
  {
    if Follow(t, p) == InvalidName { RefusedNames(t, p); }
  }

  lemma ClearIsProper(t: Tree, goal: Path, p: Path)
    requires Clear(t, goal) && Within(p, goal) && |p| > 1
    ensures Proper(p)
  {
    assert forall i :: 1 <= i < |p| ==> p[i] == goal[..|p|][i] == goal[i];
  }

  lemma MkdirAdds(t: Tree, p: Path)
    requires p !in t
    ensures DirsAdded(t, t[p := Dir], p)
  {
    assert Within(p, p);
  }

  lemma NothingAdded(t: Tree, p: Path)
    ensures DirsAdded(t, t, p)
  {
  }

  lemma AddedIsAdditive(t: Tree, u: Tree, p: Path)
    requires DirsAdded(t, u, p)
    ensures Additive(t, u)
  {
  }

  /** The tree and the cache before and after a call that was to make p a directory. */
  ghost predicate Advanced(t0: Tree, v0: map<string, bool>, t1: Tree, v1: map<string, bool>, p: Path, made: bool) {
    && DirsAdded(t0, t1, p)
    && (CacheSound(v0, t0) ==> CacheSound(v1, t1) && (made ==> IsDir(t1, p)))
  }

  /** next is the next directory on a way to goal on which nothing can fail. */
  ghost predicate Smooth(t: Tree, v: map<string, bool>, next: Path, goal: Path) {
    CacheSound(v, t) && Clear(t, goal) && Within(next, goal) && |next| > 1 && IsDir(t, Parent(next))
  }

  /** Smooth going means: cached as a directory, or found as one, or made. */
  lemma SmoothRound(t: Tree, v: map<string, bool>, next: string, goal: Path)
    requires TreeValid(t) && Smooth(t, v, Resolve(next), goal)
    ensures next in v ==> v[next]
    ensures StatResult(t, Resolve(next)) in {Ok, NoFile}
    ensures StatResult(t, Resolve(next)) == Ok ==> t[Resolve(next)].Dir?
    ensures StatResult(t, Resolve(next)) == NoFile ==> MkdirResult(t, Resolve(next)) == Ok
  {
    hide Resolve, Within, Clear, TreeValid, StatResult, MkdirResult, Proper;
    ClearLookup(t, goal, Resolve(next));
    ClearIsProper(t, goal, Resolve(next));
  }

  lemma DirsAddedWiden(t: Tree, u: Tree, p: Path, q: Path)
    requires DirsAdded(t, u, p) && Within(p, q)
    ensures DirsAdded(t, u, q)
  {
    forall r | r in u && r !in t
      ensures Within(r, q)
    {
      WithinTransitive(r, p, q);
    }
  }

  lemma IsDirStays(t: Tree, u: Tree, p: Path)
    requires IsDir(t, p) && Additive(t, u)
    ensures IsDir(u, p)
  {
  }

  /** The way is still smooth one component further on. */
  lemma SmoothAgain(t0: Tree, t: Tree, v: map<string, bool>, dir: Path, comp: string, left: Path, goal: Path)
    requires Clear(t0, goal) && DirsAdded(t0, t, goal) && CacheSound(v, t) && IsDir(t, dir)
    requires dir + ([comp] + left) == goal && dir != []
    ensures Smooth(t, v, dir + [comp], goal)
  {
    hide CacheSound, Clear, DirsAdded;
    ClearStays(t0, t, goal, goal);
    assert goal[..|dir| + 1] == dir + [comp];
    assert Parent(dir + [comp]) == dir;
  }

  lemma ClearDrive(t: Tree, goal: Path)
    requires Clear(t, goal)
    ensures IsDir(t, goal[..1])
  {
    assert goal[..1] == [goal[0]];
  }

  lemma OnTheWay(dir: Path, comp: string, left: Path, goal: Path)
    requires dir + ([comp] + left) == goal
    ensures Within(dir + [comp], goal) && (dir + [comp]) + left == goal
  {
    assert (dir + [comp]) + left == dir + ([comp] + left);
  }

  lemma RootedHasSlash(path: string)
    ensures Rooted(path) ==> FirstSlash(path) < |path|
  {
    if Rooted(path) && HasDrive(path) { assert path[2] == '/'; }
  }

  lemma NoComponents()
    ensures Split([]) == []
  {
  }

  lemma NothingBehind(path: string, pos: nat)
    requires pos < |path|
    ensures pos + 1 == |path| ==> Split(path[pos + 1..]) == []
  {
  }

  lemma DeepPath(path: string)
    requires Rooted(path) && |Resolve(path)| > 1
    ensures FirstSlash(path) + 1 < |path|
  {
    hide Resolve, Split;
    RootedHasSlash(path);
    HeadAndRest(path);
    HeadIsDrive(path);
    NothingBehind(path, FirstSlash(path));
  }

  // ---- dirname ------------------------------------------------------------------------------------

  function LastSlash(s: string): (pos: int)
    ensures -1 <= pos < |s| && (pos >= 0 ==> s[pos] == '/') && forall i :: pos < i < |s| ==> s[i] != '/'
  {
    if s == [] then -1
    else if s[|s| - 1] == '/' then |s| - 1
    else LastSlash(s[..|s| - 1])
  }

  /** Everything up to and including the last slash. */
  function Dirname(path: string): string {
    var pos := LastSlash(path);
    if pos < 0 then "/" else path[..pos + 1]
  }

  lemma CleanPart(path: string, n: nat)
    requires Clean(path) && n <= |path|
    ensures Clean(path[..n]) && Clean(path[n..])
  {
    assert forall i :: 0 <= i < |path| - n ==> path[n..][i] == path[n + i];
  }

  lemma DirnameClean(path: string)
    requires Clean(path)
    ensures Clean(Dirname(path))
  {
    CleanPart(path, if LastSlash(path) < 0 then 0 else LastSlash(path) + 1);
  }

  /** Cut behind a slash, a rooted path stays rooted. */
  lemma KeepsRoot(path: string, n: nat)
    requires Rooted(path) && FirstSlash(path) < n <= |path|
    ensures Rooted(path[..n])
  {
  }

  /** Where the last slash of such a path stands. */
  lemma LastSlashStands(path: string)
    requires Clean(path) && Rooted(path) && !EndsWithSlash(path)
    ensures FirstSlash(path) <= LastSlash(path) < |path| - 1 && path[LastSlash(path)] == '/'
    ensures forall i :: LastSlash(path) < i < |path| ==> !IsSeparator(path[i])
  {
    hide FirstSlash, LastSlash;
    RootedHasSlash(path);
  }

  /** A plain name behind a slash is one component more. */
  lemma NameBehind(dir: string, name: string)
    requires Rooted(dir) && EndsWithSlash(dir) && name != [] && forall c :: c in name ==> !IsSeparator(c)
    ensures |Resolve(dir + name)| > 1 && Parent(Resolve(dir + name)) == Resolve(dir)
  {
    hide Resolve, Split;
    PlainName(name);
    ResolveSeam(dir, name);
    assert Parent(Resolve(dir) + [name]) == Resolve(dir);
  }

  /** Without a trailing slash the directory part denotes the parent. */
  lemma DirnameIsParent(path: string)
    requires Clean(path) && Rooted(path) && !EndsWithSlash(path)
    ensures Rooted(Dirname(path)) && |Resolve(path)| > 1 && Resolve(Dirname(path)) == Parent(Resolve(path))
  {
    hide Resolve, FirstSlash, LastSlash, Clean, Rooted, Parent;
    LastSlashStands(path);
    var pos := LastSlash(path);
    var dir, name := path[..pos + 1], path[pos + 1..];
    KeepsRoot(path, pos + 1);
    forall c | c in name
      ensures !IsSeparator(c)
    {
      var i :| 0 <= i < |name| && name[i] == c;
      assert path[pos + 1 + i] == c;
    }
    NameBehind(dir, name);
    assert path == dir + name;
  }

  /** The first slash of this path is its last character, so nothing is made; it denotes a directory of
      drive 2 that need not exist. */
  lemma SlashAtTheEndExample()
    ensures Clean("2:a/") && FirstSlash("2:a/") + 1 == |"2:a/"| && Resolve("2:a/") == ["2:", "a"]
  {
    PlainName("a");
    assert "2:a/"[2..] == "a" + "/" && "2:a/"[..2] == "2:";
    SplitSeam("a", "/");
    BareSlash("/");
    assert FirstSlash("2:a/"[1..][1..][1..]) == 0;
  }
}
