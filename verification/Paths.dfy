/** Path strings of src/vfs: the normal form of VfsUtil.cpp, what a path string means to the
    file system (a sequence of components below a drive), and the ancestor test of PasteContext.cpp. */
module Paths {

  type Path = seq<string>

  predicate IsSeparator(c: char) {
    c == '/' || c == '\\'
  }

  /** The components of a path: its maximal runs of characters other than separators. */
  function Split(s: string): (r: Path)
    ensures s != [] && !IsSeparator(s[0]) ==> |r| > 0
  {
    if s == [] then []
    else
      var rest := Split(s[1..]);
      if IsSeparator(s[0]) then rest
      else if |s| > 1 && !IsSeparator(s[1]) then [[s[0]] + rest[0]] + rest[1..]
      else [[s[0]]] + rest
  }

  predicate HasDrive(s: string) {
    |s| >= 2 && '0' <= s[0] <= '9' && s[1] == ':'
  }

  /** What the file system looks up for a path string: the drive ("0:" when none is given),
      then the components. Repeated and trailing separators do not matter. */
  function Resolve(s: string): (r: Path)
    ensures |r| >= 1
  {
    if HasDrive(s) then [s[..2]] + Split(s[2..]) else ["0:"] + Split(s)
  }

  /** p is root itself or lies below it. */
  predicate Within(root: Path, p: Path) {
    |root| <= |p| && p[..|root|] == root
  }

  predicate Comparable(a: Path, b: Path) {
    Within(a, b) || Within(b, a)
  }

  lemma WithinTransitive(a: Path, b: Path, c: Path)
    requires Within(a, b) && Within(b, c)
    ensures Within(a, c)
  {
    assert c[..|a|] == c[..|b|][..|a|];
  }

  lemma AboveChild(a: Path, d: Path, n: string)
    ensures Within(a, d + [n]) <==> Within(a, d) || a == d + [n]
  {
    if |a| <= |d| {
      assert (d + [n])[..|a|] == d[..|a|];
    } else if |a| == |d| + 1 {
      assert (d + [n])[..|a|] == d + [n];
    }
  }

  lemma BelowChild(d: Path, n: string, p: Path)
    ensures Within(d + [n], p) <==> Within(d, p) && |d| < |p| && p[|d|] == n
  {
    var c := d + [n];
    if |c| <= |p| {
      assert p[..|c|] == p[..|d|] + [p[|d|]];
      assert c[..|d|] == d && c[|d|] == n;
    }
  }

  // ---- normalizePath --------------------------------------------------------------------------

  function NormalFrom(s: string, slashes: bool): string {
    if s == [] then []
    else if IsSeparator(s[0]) then (if slashes then [] else "/") + NormalFrom(s[1..], true)
    else [s[0]] + NormalFrom(s[1..], false)
  }

  /** The normal form of a path string. */
  function Normal(path: string): string {
    if |path| < 2 || path[1] != ':' then "/" + NormalFrom(path, true) else NormalFrom(path, false)
  }

  method NormalizePath(path: string) returns (normalizedPath: string)
    ensures normalizedPath == Normal(path)
  {
    hide NormalFrom;
    normalizedPath := [];
    var slashes := false;
    if |path| < 2 || path[1] != ':' {
      normalizedPath := normalizedPath + ['/'];
      slashes := true;
    }
    assert path[0..] == path;
    for i := 0 to |path|
      invariant Normal(path) == normalizedPath + NormalFrom(path[i..], slashes)
    {
      NormalFromStep(path, i, slashes, normalizedPath);
      if IsSeparator(path[i]) {
        if !slashes { normalizedPath := normalizedPath + ['/']; }
        slashes := true;
      } else {
        slashes := false;
        normalizedPath := normalizedPath + [path[i]];
      }
    }
    NormalOfNothing(slashes);
    assert path[|path|..] == [];
  }

  lemma NormalFromStep(path: string, i: nat, slashes: bool, done: string)
    requires i < |path|
    ensures done + NormalFrom(path[i..], slashes)
         == if IsSeparator(path[i])
            then (if slashes then done else done + ['/']) + NormalFrom(path[i + 1..], true)
            else done + [path[i]] + NormalFrom(path[i + 1..], false)
  {
    assert path[i..][1..] == path[i + 1..];
  }

  // ---- what joining and normalising do to the meaning of a path ---------------------------------

  lemma {:induction false} SplitJoin(a: string, b: string)
    ensures Split(a + "/" + b) == Split(a) + Split(b)
  {
    if a == [] {
      assert (a + "/" + b)[1..] == b;
    } else {
      assert (a + "/" + b)[1..] == a[1..] + "/" + b;
      SplitJoin(a[1..], b);
    }
  }

  lemma {:induction false} SplitNormalFrom(s: string, slashes: bool)
    ensures Split(NormalFrom(s, slashes)) == Split(s)
    ensures s != [] && !IsSeparator(s[0]) ==> NormalFrom(s, slashes)[0] == s[0]
    ensures s != [] && IsSeparator(s[0]) && !slashes ==> NormalFrom(s, slashes)[0] == '/'
    ensures |s| > 0 && !IsSeparator(s[0]) ==> NormalFrom(s, slashes) != []
    decreases |s|
  {
    if s != [] {
      var rest := s[1..];
      if IsSeparator(s[0]) {
        SplitNormalFrom(rest, true);
        assert !slashes ==> NormalFrom(s, slashes)[1..] == NormalFrom(rest, true);
        assert slashes ==> NormalFrom(s, slashes) == NormalFrom(rest, true);
      } else {
        SplitNormalFrom(rest, false);
        assert NormalFrom(s, slashes)[1..] == NormalFrom(rest, false);
        assert rest != [] ==> NormalFrom(rest, false)[0] == (if IsSeparator(rest[0]) then '/' else rest[0]);
      }
    }
  }

  /** Joining two path strings with a slash appends the components of the second. */
  lemma ResolveJoin(a: string, b: string)
    ensures Resolve(a + "/" + b) == Resolve(a) + Split(b)
  {
    hide Split, Resolve, HasDrive;
    var j := a + "/" + b;
    ResolveParts(a);
    ResolveParts(j);
    SameDrive(a, b);
    if HasDrive(a) {
      var d, rest := [a[..2]], a[2..];
      SplitJoin(rest, b);
      assert d + (Split(rest) + Split(b)) == d + Split(rest) + Split(b);
    } else {
      SplitJoin(a, b);
      assert ["0:"] + (Split(a) + Split(b)) == ["0:"] + Split(a) + Split(b);
    }
  }

  lemma SameDrive(a: string, b: string)
    ensures var j := a + "/" + b;
      && (HasDrive(j) <==> HasDrive(a))
      && (HasDrive(a) ==> j[2..] == a[2..] + "/" + b && j[..2] == a[..2])
  {
    var j := a + "/" + b;
    assert |a| == 1 ==> j[1] == '/';
    assert |a| == 0 ==> j[0] == '/';
  }

  lemma ResolveParts(a: string)
    ensures HasDrive(a) ==> |a| >= 2
    ensures Resolve(a) == if HasDrive(a) then [a[..2]] + Split(a[2..]) else ["0:"] + Split(a)
  {
    hide Split;
  }

  /** Normalising does not change what a path string denotes. */
  lemma ResolveNormal(path: string)
    ensures Resolve(Normal(path)) == Resolve(path)
  {
    if |path| < 2 || path[1] != ':' {
      SplitNormalFrom(path, true);
      assert Normal(path)[1..] == NormalFrom(path, true);
    } else {
      SplitNormalFrom(path, false);
      var rest := path[1..];
      SplitNormalFrom(rest, false);
      if HasDrive(path) {
        SplitNormalFrom(rest[1..], false);
        assert rest[1..] == path[2..];
        assert Normal(path) == [path[0]] + ([':'] + NormalFrom(path[2..], false));
        assert Normal(path)[2..] == NormalFrom(path[2..], false);
        assert Normal(path)[..2] == path[..2];
      }
    }
  }

  // ---- the shape of a normal form ---------------------------------------------------------------

  /** No backslash and no two slashes in a row. */
  predicate Clean(s: string) {
    forall i :: 0 <= i < |s| ==> s[i] != '\\' && (s[i] == '/' && i + 1 < |s| ==> s[i + 1] != '/')
  }

  lemma {:induction false} NormalFromClean(s: string, slashes: bool)
    ensures Clean(NormalFrom(s, slashes))
    ensures slashes && NormalFrom(s, slashes) != [] ==> NormalFrom(s, slashes)[0] != '/'
    ensures Clean(s) && (slashes && s != [] ==> s[0] != '/') ==> NormalFrom(s, slashes) == s
    decreases |s|
  {
    if s != [] {
      NormalFromClean(s[1..], IsSeparator(s[0]));
      assert s == [s[0]] + s[1..];
      if Clean(s) {
        assert forall i :: 0 <= i < |s| - 1 ==> s[1..][i] == s[i + 1];
      }
    }
  }

  /** Normal forms have single forward slashes only, and normalising again changes nothing. */
  lemma NormalIdempotent(path: string)
    ensures Clean(Normal(path))
    ensures Normal(Normal(path)) == Normal(path)
  {
    var n := Normal(path);
    if |path| < 2 || path[1] != ':' {
      var rest := NormalFrom(path, true);
      NormalFromClean(path, true);
      assert n == ['/'] + rest && n[1..] == rest;
      if |n| >= 2 && n[1] == ':' {
        NormalFromClean(n, false);
      } else {
        NormalFromClean(rest, true);
        assert NormalFrom(n, true) == NormalFrom(rest, true);
      }
    } else {
      NormalFromClean(path, false);
      NormalFromClean(n, false);
      var rest := path[1..];
      assert n == (if IsSeparator(path[0]) then "/" else [path[0]]) + NormalFrom(rest, IsSeparator(path[0]));
      assert NormalFrom(rest, IsSeparator(path[0]))[0] == ':';
    }
  }

  lemma NormalOfNothing(slashes: bool)
    ensures NormalFrom([], slashes) == []
  {
  }

  lemma NormalCons(c: char, rest: string, slashes: bool)
    ensures NormalFrom([c] + rest, slashes)
         == (if !IsSeparator(c) then [c] else if slashes then [] else "/") + NormalFrom(rest, IsSeparator(c))
  {
    assert ([c] + rest)[1..] == rest;
  }

  lemma {:induction false} NormalFromAppend(a: string, b: string, slashes: bool)
    ensures NormalFrom(a + b, slashes)
         == NormalFrom(a, slashes) + NormalFrom(b, if a == [] then slashes else IsSeparator(a[|a| - 1]))
    decreases |a|
  {
    hide NormalFrom, IsSeparator;
    if a == [] {
      assert a + b == b && NormalFrom(a, slashes) == [] by { NormalOfNothing(slashes); }
    } else {
      var rest := a[1..];
      assert a == [a[0]] + rest && a + b == [a[0]] + (rest + b);
      NormalCons(a[0], rest, slashes);
      NormalCons(a[0], rest + b, slashes);
      NormalFromAppend(rest, b, IsSeparator(a[0]));
    }
  }

  lemma NormalNonEmpty(s: string)
    ensures |Normal(s)| >= 1
    ensures |Normal(s)| == 1 ==> Normal(s) == "/"
  {
    if !(|s| < 2 || s[1] != ':') {
      assert !IsSeparator(s[1..][0]);
      assert |NormalFrom(s[1..], IsSeparator(s[0]))| >= 1;
    }
  }

  /** Whatever follows a normal prefix, the normal form still starts with that prefix. */
  lemma NormalKeepsPrefix(prefix: string, path: string)
    requires Normal(prefix) == prefix && prefix <= path
    ensures prefix <= Normal(path)
  {
    var rest := path[|prefix|..];
    assert path == prefix + rest;
    NormalNonEmpty(prefix);
    if |prefix| == 1 {
      assert path[0] == '/';
    } else {
      NormalFromAppend(prefix, rest, |path| < 2 || path[1] != ':');
    }
  }

  // ---- where a string may be cut without changing its components ----------------------------------

  /** a + b has a component boundary between a and b. */
  predicate Seam(a: string, b: string) {
    a == [] || b == [] || IsSeparator(a[|a| - 1]) || IsSeparator(b[0])
  }

  lemma {:induction false} SplitSeam(a: string, b: string)
    requires Seam(a, b)
    ensures Split(a + b) == Split(a) + Split(b)
    decreases |a|
  {
    if a == [] {
      assert a + b == b;
    } else {
      var c, rest := a[0], a[1..];
      assert a == [c] + rest && a + b == [c] + (rest + b);
      SplitSeam(rest, b);
      hide Split;
      SplitCons(c, rest);
      SplitCons(c, rest + b);
    }
  }

  /** What one character in front does to the components. */
  lemma SplitCons(c: char, s: string)
    ensures Split([c] + s) ==
      if IsSeparator(c) then Split(s)
      else if s != [] && !IsSeparator(s[0]) then [[c] + Split(s)[0]] + Split(s)[1..]
      else [[c]] + Split(s)
  {
    assert ([c] + s)[1..] == s;
  }

  lemma ResolveSeam(a: string, b: string)
    requires Seam(a, b) && (HasDrive(a) || !HasDrive(a + b))
    ensures Resolve(a + b) == Resolve(a) + Split(b)
  {
    hide Split, Resolve;
    ResolveParts(a);
    ResolveParts(a + b);
    if HasDrive(a) {
      var t := a[2..];
      assert (a + b)[2..] == t + b && (a + b)[..2] == a[..2];
      SplitSeam(t, b);
      Associate(a[..2], Split(t), Split(b));
    } else {
      SplitSeam(a, b);
      Associate("0:", Split(a), Split(b));
    }
  }

  lemma Associate(drive: string, x: Path, y: Path)
    ensures [drive] + (x + y) == ([drive] + x) + y
  {
  }

  lemma {:induction false} PlainName(name: string)
    requires name != [] && forall c :: c in name ==> !IsSeparator(c)
    ensures Split(name) == [name]
  {
    if |name| > 1 {
      PlainName(name[1..]);
      assert name[1] in name;
      assert Split(name)[0] == name;
      assert name == [name[0]] + name[1..];
    } else {
      assert name[1..] == [] && name == [name[0]] && name[0] in name;
    }
  }

  // ---- isParentOf ---------------------------------------------------------------------------------

  predicate IsParentOf(parent: string, child: string) {
    parent <= child && (|child| == |parent| || child[|parent|] == '/')
  }

  predicate Rooted(s: string) {
    var t := if HasDrive(s) then s[2..] else s;
    t != [] && t[0] == '/'
  }

  predicate EndsWithSlash(s: string) {
    s != [] && s[|s| - 1] == '/'
  }

  predicate Trailing(s: string) {
    s != [] && IsSeparator(s[|s| - 1])
  }

  function Run(s: string): (n: nat)
    ensures n <= |s| && (forall i :: 0 <= i < n ==> !IsSeparator(s[i])) && (n < |s| ==> IsSeparator(s[n]))
  {
    if s == [] || IsSeparator(s[0]) then 0 else 1 + Run(s[1..])
  }

  lemma {:induction false} SplitRun(s: string)
    requires s != [] && !IsSeparator(s[0])
    ensures Split(s) == [s[..Run(s)]] + Split(s[Run(s)..])
  {
    var rest := s[1..];
    if rest != [] && !IsSeparator(rest[0]) {
      SplitRun(rest);
      assert s[..Run(s)] == [s[0]] + rest[..Run(rest)];
      assert s[Run(s)..] == rest[Run(rest)..];
    } else {
      assert Run(s) == 1 && s[..1] == [s[0]];
    }
  }

  /** The first component below a slash, and the rest. */
  lemma SplitSlash(u: string) returns (c: string, rest: string)
    requires u != [] && u[0] == '/' && Clean(u) && |u| > 1
    ensures u == (['/'] + c) + rest && |rest| < |u|
    ensures Split(u) == [c] + Split(rest)
    ensures Clean(rest) && (rest != [] ==> rest[0] == '/')
    ensures EndsWithSlash(rest) ==> EndsWithSlash(u)
    ensures Split(rest) == [] && rest != [] ==> EndsWithSlash(u)
  {
    var r := u[1..];
    assert r[0] == u[1] && !IsSeparator(r[0]);
    assert Split(u) == Split(r);
    var n := Run(r);
    SplitRun(r);
    c, rest := r[..n], r[n..];
    assert rest == u[1 + n..];
    if |rest| > 1 {
      assert rest[1] == u[n + 2] && !IsSeparator(rest[1]);
    }
  }

  lemma BareSlash(v: string)
    requires v != [] && v[0] == '/'
    ensures |v| == 1 ==> Split(v) == []
  {
    if |v| == 1 {
      assert v[1..] == [];
    }
  }

  lemma SameHeadSplit(x: string, xs: Path, y: string, ys: Path)
    requires Within([x] + xs, [y] + ys)
    ensures x == y && Within(xs, ys)
  {
    assert ([y] + ys)[..1 + |xs|][0] == y;
    assert ([y] + ys)[..1 + |xs|][1..] == ys[..|xs|];
    assert ([x] + xs)[1..] == xs;
  }

  lemma ParentOfBehind(h: string, x: string, y: string)
    requires IsParentOf(x, y)
    ensures IsParentOf(h + x, h + y)
  {
    assert (h + y)[..|h + x|] == h + y[..|x|];
  }

  /** For clean strings below a slash, component-wise containment is the string test. */
  lemma {:induction false} ParentOfComponents(u: string, v: string)
    requires Clean(u) && Clean(v) && u != [] && v != [] && u[0] == '/' && v[0] == '/'
    requires !EndsWithSlash(u)
    requires Within(Split(u), Split(v))
    ensures IsParentOf(u, v)
    decreases |u|
  {
    var c, u' := SplitSlash(u);
    BareSlash(v);
    var d, v' := SplitSlash(v);
    SameHeadSplit(c, Split(u'), d, Split(v'));
    if u' != [] {
      BareSlash(u');
      assert v' != [];
      ParentOfComponents(u', v');
    }
    ParentOfBehind(['/'] + c, u', v');
  }

  lemma ParentOfMeansWithin(a: string, b: string)
    requires Clean(b) && Rooted(a) && IsParentOf(a, b)
    ensures Within(Resolve(a), Resolve(b)) && HasDrive(a) == HasDrive(b)
    ensures a == b || !EndsWithSlash(a)
  {
    var rest := b[|a|..];
    assert b == a + rest;
    assert |a| < |b| ==> b[|a| - 1] == a[|a| - 1];
    assert |a| == 1 ==> a[0] == '/';
    assert HasDrive(a) == HasDrive(b);
    ResolveSeam(a, rest);
    assert (Resolve(a) + Split(rest))[..|Resolve(a)|] == Resolve(a);
  }

  lemma WithinMeansParentOf(a: string, b: string)
    requires Clean(a) && Clean(b) && Rooted(a) && Rooted(b)
    requires Within(Resolve(a), Resolve(b)) && HasDrive(a) == HasDrive(b) && !EndsWithSlash(a)
    ensures IsParentOf(a, b)
  {
    hide Split, Clean, IsParentOf, Within, Resolve;
    var k := if HasDrive(a) then 2 else 0;
    var u, v := a[k..], b[k..];
    var d, e := if HasDrive(a) then a[..2] else "0:", if HasDrive(b) then b[..2] else "0:";
    ResolveParts(a);
    ResolveParts(b);
    SameHeadSplit(d, Split(u), e, Split(v));
    CleanTail(a, k);
    CleanTail(b, k);
    assert !EndsWithSlash(u) by { assert u[|u| - 1] == a[|a| - 1]; }
    ParentOfComponents(u, v);
    assert a[..k] == b[..k];
    ParentOfBehind(a[..k], u, v);
    assert a == a[..k] + u && b == a[..k] + v;
  }

  lemma CleanTail(a: string, k: nat)
    requires Clean(a) && k <= |a|
    ensures Clean(a[k..])
  {
    assert forall i :: 0 <= i < |a| - k ==> a[k..][i] == a[k + i];
  }

  /** The string test of the paste context says exactly: the first path denotes the second or an
      ancestor of it, both are spelled with a drive or both without, and the first one does not
      end with a slash (unless the strings are equal). */
  lemma ParentTestExact(a: string, b: string)
    requires Clean(a) && Clean(b) && Rooted(a) && Rooted(b)
    ensures IsParentOf(a, b)
        <==> Within(Resolve(a), Resolve(b)) && HasDrive(a) == HasDrive(b) && (a == b || !EndsWithSlash(a))
  {
    if IsParentOf(a, b) {
      ParentOfMeansWithin(a, b);
    }
    if Within(Resolve(a), Resolve(b)) && HasDrive(a) == HasDrive(b) && !EndsWithSlash(a) {
      WithinMeansParentOf(a, b);
    }
  }

  lemma OnlySlash(u: string)
    requires u != [] && u[0] == '/' && Clean(u) && Split(u) == []
    ensures |u| == 1
  {
    if |u| > 1 { var c, rest := SplitSlash(u); }
  }

  lemma ShortRoot(a: string)
    requires Rooted(a)
    ensures |a| == (if HasDrive(a) then 3 else 1) ==> |Resolve(a)| == 1
  {
    BareSlash(if HasDrive(a) then a[2..] else a);
  }

  /** A rooted path that ends with a slash and goes on behind its root, without that slash. */
  lemma WithoutSlash(a: string)
    requires Clean(a) && Rooted(a) && EndsWithSlash(a) && |Resolve(a)| > 1
    ensures var b := a[..|a| - 1];
      && a == b + "/" && Clean(b) && Rooted(b) && !EndsWithSlash(b) && HasDrive(b) == HasDrive(a)
      && Resolve(b) == Resolve(a)
  {
    var b := a[..|a| - 1];
    assert a == b + "/";
    BareSlash("/");
    ShortRoot(a);
    ResolveSeam(b, "/");
  }

  lemma RootIsShort(a: string)
    requires Clean(a) && Rooted(a) && |Resolve(a)| == 1
    ensures a == (if HasDrive(a) then Resolve(a)[0] + "/" else "/")
  {
    var t := if HasDrive(a) then a[2..] else a;
    CleanTail(a, if HasDrive(a) then 2 else 0);
    OnlySlash(t);
    assert t == "/";
    assert HasDrive(a) ==> a == a[..2] + t;
  }

  lemma SameWithoutSlash(a: string, b: string)
    requires Clean(a) && Clean(b) && Rooted(a) && Rooted(b) && !EndsWithSlash(a) && !EndsWithSlash(b)
    requires Resolve(a) == Resolve(b) && HasDrive(a) == HasDrive(b)
    ensures a == b
  {
    hide Resolve, Clean, Rooted, HasDrive, EndsWithSlash;
    assert Within(Resolve(a), Resolve(b)) && Within(Resolve(b), Resolve(a));
    ParentTestExact(a, b);
    ParentTestExact(b, a);
  }

  /** Two clean rooted strings are the same exactly if they denote the same node, both with a drive or both
      without, and both end with a slash or neither does. */
  lemma SkipTestExact(a: string, b: string)
    requires Clean(a) && Clean(b) && Rooted(a) && Rooted(b)
    ensures a == b
      <==> Resolve(a) == Resolve(b) && HasDrive(a) == HasDrive(b) && EndsWithSlash(a) == EndsWithSlash(b)
  {
    hide Clean, Rooted, Resolve;
    if Resolve(a) == Resolve(b) && HasDrive(a) == HasDrive(b) && EndsWithSlash(a) == EndsWithSlash(b) {
      if |Resolve(a)| == 1 {
        RootIsShort(a);
        RootIsShort(b);
      } else if EndsWithSlash(a) {
        WithoutSlash(a);
        WithoutSlash(b);
        SameWithoutSlash(a[..|a| - 1], b[..|b| - 1]);
      } else {
        SameWithoutSlash(a, b);
      }
    }
  }

  /** A trailing slash, or a drive on one side only, hides that two strings denote the same node. */
  lemma SameNodeExamples()
    ensures Resolve("/a/") == Resolve("/a") && !IsParentOf("/a/", "/a")
    ensures Resolve("0:/a") == Resolve("/a") && !IsParentOf("0:/a", "/a")
  {
    PlainName("a");
    assert "/a/" == "/a" + "/" && "/a" == "/" + "a" && "0:/a"[..2] == "0:" && "0:/a"[2..] == "/a";
    SplitSeam("/a", "/");
    SplitSeam("/", "a");
    BareSlash("/");
    assert Split("/a") == ["a"] && Split("/a/") == ["a"];
  }
}
