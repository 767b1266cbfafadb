/** The work a RecursiveFsIterator still has to do, as a value: which nodes of the tree its two
    worklists cover, and what each kind of step does to that cover. */
module Worklists {
  import opened Paths
  import opened FatFs

  /** A selected path; skip says whether it is left out if it turns out to be a directory. */
  datatype Root = Root(path: Path, skip: bool)

  datatype Frontier = Frontier(files: seq<Root>, dirs: seq<Path>, index: nat,
                               scanning: bool, pending: set<string>, cleanup: bool)
  {
    /** Directories not yet opened. */
    predicate Open(i: int) {
      !cleanup && (index < i || (index == i && !scanning))
    }

    /** The worklists never overlap: selected paths are unrelated to each other and to every
        directory, no directory sits below an unopened directory or below an entry not yet read,
        and a directory always stands after its ancestors. */
    ghost predicate WellFormed() {
      && (forall i, j :: 0 <= i < j < |files| ==> !Comparable(files[i].path, files[j].path))
      && (files != [] ==> index == 0 && !scanning && !cleanup)
      && (forall k, i :: 0 <= k < |files| && 0 <= i < |dirs| ==> !Comparable(files[k].path, dirs[i]))
      && (forall i, j :: 0 <= i < j < |dirs| ==> !Within(dirs[j], dirs[i]))
      && (forall i, j :: 0 <= i < |dirs| && 0 <= j < |dirs| && i != j && Open(i) ==> !Within(dirs[i], dirs[j]))
      && (scanning ==> index < |dirs| && !cleanup)
      && (scanning ==> forall n, j :: n in pending && 0 <= j < |dirs| ==> !Within(dirs[index] + [n], dirs[j]))
      && (!cleanup ==> index <= |dirs|)
    }

    /** Strictly below something that is still to be opened or read. */
    ghost predicate Ahead(i: int, p: Path)
      requires 0 <= i < |dirs|
    {
      && |dirs[i]| < |p| && Within(dirs[i], p)
      && (Open(i) || (i == index && scanning && p[|dirs[i]|] in pending))
    }

    ghost predicate DirCovers(i: int, p: Path)
      requires 0 <= i < |dirs|
    {
      p == dirs[i] || Ahead(i, p)
    }

    ghost predicate Covers(t: Tree, p: Path) {
      || (exists k :: 0 <= k < |files| && RootCovers(files[k], t, p))
      || (exists i :: 0 <= i < |dirs| && DirCovers(i, p))
    }

    /** The nodes still to be yielded. */
    ghost function Todo(t: Tree): set<Path> {
      set p | p in t && Covers(t, p)
    }

    /** No step can fail for want of a directory or because of a name. */
    ghost predicate Ready(t: Tree) {
      && (forall k :: 0 <= k < |files| ==> StatResult(t, files[k].path) == Ok || StatResult(t, files[k].path) == NoFile)
      && DirsThere(t)
    }

    /** Every directory taken up is still there. */
    ghost predicate DirsThere(t: Tree) {
      forall i :: 0 <= i < |dirs| ==> dirs[i] in t && t[dirs[i]].Dir?
    }

    function PopFile(): Frontier
      requires files != []
    {
      this.(files := files[..|files| - 1])
    }

    function Accept(): Frontier
      requires files != []
    {
      PopFile().(dirs := dirs + [files[|files| - 1].path])
    }

    function Opened(names: set<string>): Frontier {
      this.(scanning := true, pending := names)
    }

    function Read(n: string): Frontier {
      this.(pending := pending - {n})
    }

    function Descend(n: string): Frontier
      requires index < |dirs|
    {
      Read(n).(dirs := dirs + [dirs[index] + [n]])
    }

    function Closed(): Frontier {
      this.(scanning := false, pending := {}, index := index + 1)
    }

    function CleaningUp(): Frontier {
      this.(cleanup := true)
    }

    function PopDir(): Frontier
      requires dirs != []
    {
      this.(dirs := dirs[..|dirs| - 1])
    }
  }

  ghost predicate RootCovers(r: Root, t: Tree, p: Path) {
    Within(r.path, p) && !(r.skip && r.path in t && t[r.path].Dir?)
  }

  ghost predicate SameCover(a: Frontier, b: Frontier, t: Tree) {
    forall p :: p in t ==> (a.Covers(t, p) <==> b.Covers(t, p))
  }

  /** A step that yields nothing. */
  ghost predicate Silent(a: Frontier, b: Frontier, t: Tree) {
    && SameCover(a, b, t)
    && (a.Ready(t) ==> b.Ready(t)) && (a.DirsThere(t) ==> b.DirsThere(t))
  }

  /** x is done, everything else is as it was, and nothing that is left lies below x. */
  ghost predicate Yields(a: Frontier, b: Frontier, t: Tree, x: Path) {
    && (a.Ready(t) ==> b.Ready(t)) && (a.DirsThere(t) ==> b.DirsThere(t))
    && (x in t ==> a.Covers(t, x))
    && (forall p :: p in t ==> (b.Covers(t, p) <==> a.Covers(t, p) && p != x))
    && (forall p :: p in t && b.Covers(t, p) ==> !Within(x, p))
  }

  // ---- selected paths ---------------------------------------------------------------------------

  lemma SameLength(a: Path, p: Path)
    ensures Within(a, p) ==> |a| <= |p| && (|p| == |a| ==> p == a)
    ensures Within(a, a)
  {
  }

  lemma PoppedCover(fr: Frontier, t: Tree, p: Path)
    requires fr.files != []
    ensures fr.Covers(t, p) <==> fr.PopFile().Covers(t, p) || RootCovers(fr.files[|fr.files| - 1], t, p)
  {
    var g := fr.PopFile();
    assert forall i :: 0 <= i < |fr.dirs| ==> (fr.DirCovers(i, p) <==> g.DirCovers(i, p));
    assert forall k :: 0 <= k < |g.files| ==> g.files[k] == fr.files[k];
    if k :| 0 <= k < |fr.files| && RootCovers(fr.files[k], t, p) {
      assert k < |g.files| ==> RootCovers(g.files[k], t, p);
    }
    if k :| 0 <= k < |g.files| && RootCovers(g.files[k], t, p) {
      assert RootCovers(fr.files[k], t, p);
    }
  }

  lemma PopKeepsWellFormed(fr: Frontier)
    requires fr.WellFormed() && fr.files != []
    ensures fr.PopFile().WellFormed()
  {
  }

  lemma FilesFirst(fr: Frontier)
    requires fr.WellFormed() && fr.files != []
    ensures fr.index == 0 && !fr.scanning && !fr.cleanup
  {
  }

  lemma ScanningInside(fr: Frontier)
    requires fr.WellFormed() && fr.scanning
    ensures fr.index < |fr.dirs| && !fr.cleanup
  {
  }

  lemma NotScanningInCleanup(fr: Frontier)
    requires fr.WellFormed() && fr.cleanup
    ensures !fr.scanning && fr.files == []
  {
  }

  lemma EntryName(t: Tree, d: Path, name: string)
    requires TreeValid(t) && d != [] && d + [name] in t
    ensures ValidName(name)
  {
    assert (d + [name])[|d|] == name;
  }

  lemma ReadyMeansStat(fr: Frontier, t: Tree)
    requires fr.files != []
    ensures fr.Ready(t) ==> StatResult(t, fr.files[|fr.files| - 1].path) in {Ok, NoFile}
  {
  }

  lemma ReadyHasDirs(fr: Frontier, t: Tree)
    ensures fr.Ready(t) ==> fr.DirsThere(t)
  {
  }

  lemma ReadyAfterPop(fr: Frontier, t: Tree)
    requires fr.files != []
    ensures fr.Ready(t) ==> fr.PopFile().Ready(t)
  {
  }

  /** Dropping a selected path that is missing or skipped. */
  lemma DropRoot(fr: Frontier, t: Tree)
    requires fr.WellFormed() && TreeValid(t) && fr.files != []
    requires var r := fr.files[|fr.files| - 1]; r.path != [] && (r.path !in t || (t[r.path].Dir? && r.skip))
    ensures fr.PopFile().WellFormed() && Silent(fr, fr.PopFile(), t)
  {
    var r := fr.files[|fr.files| - 1];
    forall p | p in t
      ensures fr.Covers(t, p) <==> fr.PopFile().Covers(t, p)
    {
      PoppedCover(fr, t, p);
      if Within(r.path, p) { AncestorsAreDirectories(t, r.path, p); }
    }
  }

  /** A selected file is yielded at once. */
  lemma YieldRoot(fr: Frontier, t: Tree)
    requires fr.WellFormed() && TreeValid(t) && fr.files != []
    requires var r := fr.files[|fr.files| - 1]; r.path in t && t[r.path].File?
    ensures fr.PopFile().WellFormed() && Yields(fr, fr.PopFile(), t, fr.files[|fr.files| - 1].path)
  {
    hide Frontier.Ready;
    var r, g := fr.files[|fr.files| - 1], fr.PopFile();
    ReadyAfterPop(fr, t);
    forall p | p in t && Within(r.path, p)
      ensures fr.Covers(t, p) && !g.Covers(t, p) && p == r.path
    {
      NothingBelowAFile(t, r.path, p);
      PoppedCover(fr, t, p);
      forall k | 0 <= k < |g.files|
        ensures !RootCovers(g.files[k], t, p)
      {
        assert !Comparable(fr.files[k].path, r.path);
      }
      forall i | 0 <= i < |g.dirs|
        ensures !g.DirCovers(i, p)
      {
        assert !Comparable(r.path, fr.dirs[i]);
      }
    }
    forall p | p in t
      ensures g.Covers(t, p) <==> fr.Covers(t, p) && p != r.path
    {
      PoppedCover(fr, t, p);
    }
  }

  /** Taking up a directory covers what the selected path covered. */
  lemma AcceptedCover(fr: Frontier, t: Tree, p: Path)
    requires fr.WellFormed() && fr.files != []
    requires var r := fr.files[|fr.files| - 1]; r.path in t && t[r.path].Dir? && !r.skip
    ensures fr.Covers(t, p) <==> fr.Accept().Covers(t, p)
  {
    hide Within, Frontier.WellFormed;
    var r, g, h := fr.files[|fr.files| - 1], fr.Accept(), fr.PopFile();
    var n := |fr.dirs|;
    PoppedCover(fr, t, p);
    NothingOpened(fr);
    assert forall i :: 0 <= i < n ==> (g.DirCovers(i, p) <==> h.DirCovers(i, p));
    SameLength(r.path, p);
    assert g.DirCovers(n, p) <==> Within(r.path, p);
    if h.Covers(t, p) {
      if k :| 0 <= k < |h.files| && RootCovers(h.files[k], t, p) {
        assert RootCovers(g.files[k], t, p);
      } else {
        var i :| 0 <= i < n && h.DirCovers(i, p);
        assert g.DirCovers(i, p);
      }
    }
    if g.Covers(t, p) && !g.DirCovers(n, p) {
      if k :| 0 <= k < |g.files| && RootCovers(g.files[k], t, p) {
        assert RootCovers(h.files[k], t, p);
      } else {
        var i :| 0 <= i < |g.dirs| && g.DirCovers(i, p);
        assert i < n && h.DirCovers(i, p);
      }
    }
  }

  lemma NothingOpened(fr: Frontier)
    requires fr.WellFormed() && fr.files != []
    ensures fr.index == 0 && !fr.scanning && !fr.cleanup
  {
  }

  /** A selected directory moves to the other worklist. */
  lemma AcceptRoot(fr: Frontier, t: Tree)
    requires fr.WellFormed() && fr.files != []
    requires var r := fr.files[|fr.files| - 1]; r.path in t && t[r.path].Dir? && !r.skip
    ensures fr.Accept().WellFormed() && Silent(fr, fr.Accept(), t)
  {
    hide Within, Frontier.Covers;
    var r, g := fr.files[|fr.files| - 1], fr.Accept();
    var n := |fr.dirs|;
    assert forall i :: 0 <= i < n ==> g.dirs[i] == fr.dirs[i];
    forall i | 0 <= i < n
      ensures !Comparable(r.path, g.dirs[i])
    {
    }
    forall k | 0 <= k < |g.files|
      ensures !Comparable(g.files[k].path, r.path)
    {
      assert g.files[k] == fr.files[k];
    }
    forall p | p in t
      ensures fr.Covers(t, p) <==> g.Covers(t, p)
    {
      AcceptedCover(fr, t, p);
    }
  }

  // ---- directories ------------------------------------------------------------------------------

  /** Without selected paths, covering is a matter of the directories alone. */
  lemma DirsDecide(a: Frontier, b: Frontier, t: Tree)
    requires a.files == [] && b.files == [] && a.dirs == b.dirs
    requires forall i, p :: 0 <= i < |a.dirs| && p in t ==> (a.DirCovers(i, p) <==> b.DirCovers(i, p))
    ensures SameCover(a, b, t)
  {
    forall p | p in t
      ensures a.Covers(t, p) <==> b.Covers(t, p)
    {
      if i :| 0 <= i < |a.dirs| && a.DirCovers(i, p) { assert b.DirCovers(i, p); }
      if i :| 0 <= i < |b.dirs| && b.DirCovers(i, p) { assert a.DirCovers(i, p); }
    }
  }

  lemma FirstStepBelow(t: Tree, d: Path, p: Path)
    requires TreeValid(t) && p in t && d != [] && Within(d, p) && |d| < |p|
    ensures d + [p[|d|]] in t && Within(d + [p[|d|]], p) && p[|d|] in ChildNames(t, d) && p[|d|] != []
  {
    var c := d + [p[|d|]];
    assert p[..|c|] == c;
    AncestorsAreDirectories(t, c, p);
    assert c[|d|] in ChildNames(t, d);
  }

  /** Opening a directory replaces everything below it by its entries. */
  lemma OpenDirectory(fr: Frontier, t: Tree)
    requires fr.WellFormed() && TreeValid(t) && fr.files == [] && !fr.scanning && !fr.cleanup
    requires fr.index < |fr.dirs| && fr.dirs[fr.index] != []
    ensures var g := fr.Opened(ChildNames(t, fr.dirs[fr.index])); g.WellFormed() && Silent(fr, g, t)
  {
    var d := fr.dirs[fr.index];
    var g := fr.Opened(ChildNames(t, d));
    forall i, p | 0 <= i < |fr.dirs| && p in t
      ensures fr.DirCovers(i, p) <==> g.DirCovers(i, p)
    {
      if i == fr.index && Within(d, p) && |d| < |p| { FirstStepBelow(t, d, p); }
      if i == fr.index && Within(d, p) && |d| == |p| { assert p == d; }
    }
    DirsDecide(fr, g, t);
    forall n, j | n in g.pending && 0 <= j < |g.dirs|
      ensures !Within(g.dirs[g.index] + [n], g.dirs[j])
    {
      if Within(d + [n], g.dirs[j]) {
        assert Within(d, d + [n]);
        WithinTransitive(d, d + [n], g.dirs[j]);
      }
    }
  }

  /** A pending subdirectory moves to the end of the list. */
  lemma DescendInto(fr: Frontier, t: Tree, n: string)
    requires fr.WellFormed() && fr.scanning && n in fr.pending && fr.files == []
    requires var c := fr.dirs[fr.index] + [n]; c in t && t[c].Dir?
    ensures Silent(fr, fr.Descend(n), t)
  {
    var d := fr.dirs[fr.index];
    var c, g, last := d + [n], fr.Descend(n), |fr.dirs|;
    assert forall i :: 0 <= i < last ==> g.dirs[i] == fr.dirs[i];
    forall p | p in t
      ensures fr.Covers(t, p) <==> g.Covers(t, p)
    {
      BelowChild(d, n, p);
      assert g.DirCovers(last, p) <==> Within(c, p) by {
        if Within(c, p) && |p| == |c| { assert p == c; }
      }
      assert forall i :: 0 <= i < last && i != fr.index ==> (fr.DirCovers(i, p) <==> g.DirCovers(i, p));
      assert fr.DirCovers(fr.index, p) <==> g.DirCovers(fr.index, p) || Within(c, p);
      if i :| 0 <= i < |fr.dirs| && fr.DirCovers(i, p) {
        assert g.DirCovers(i, p) || g.DirCovers(last, p);
      }
      if i :| 0 <= i < |g.dirs| && g.DirCovers(i, p) {
        assert fr.DirCovers(if i == last then fr.index else i, p);
      }
    }
  }

  lemma DescendWellFormed(fr: Frontier, n: string)
    requires fr.WellFormed() && fr.scanning && n in fr.pending && fr.files == []
    ensures fr.Descend(n).WellFormed()
  {
    var d := fr.dirs[fr.index];
    var c, g, last := d + [n], fr.Descend(n), |fr.dirs|;
    assert forall i :: 0 <= i < last ==> g.dirs[i] == fr.dirs[i];
    forall i | 0 <= i < last && g.Open(i)
      ensures !Within(g.dirs[i], c)
    {
      AboveChild(g.dirs[i], d, n);
      assert !Within(c, g.dirs[i]) && Within(c, c);
    }
    forall m, j | m in g.pending && 0 <= j < |g.dirs|
      ensures !Within(g.dirs[g.index] + [m], g.dirs[j])
    {
      BelowChild(d, m, g.dirs[j]);
    }
  }

  /** What is pending is covered by nothing else. */
  lemma PendingOnlyOnce(fr: Frontier, n: string, i: nat)
    requires fr.WellFormed() && fr.scanning && n in fr.pending && i < |fr.dirs|
    ensures !fr.Read(n).DirCovers(i, fr.dirs[fr.index] + [n])
  {
    var d := fr.dirs[fr.index];
    var c, g := d + [n], fr.Read(n);
    assert c[|d|] == n && Within(c, c) && !Within(c, g.dirs[i]);
    AboveChild(g.dirs[i], d, n);
  }

  lemma ReadKeepsReady(fr: Frontier, t: Tree, n: string)
    ensures fr.Read(n).Ready(t) == fr.Ready(t) && fr.Read(n).DirsThere(t) == fr.DirsThere(t)
  {
  }

  /** A pending file is yielded. */
  lemma YieldEntry(fr: Frontier, t: Tree, n: string)
    requires fr.WellFormed() && TreeValid(t) && fr.scanning && n in fr.pending && fr.files == []
    requires var c := fr.dirs[fr.index] + [n]; c in t && t[c].File?
    ensures fr.Read(n).WellFormed() && Yields(fr, fr.Read(n), t, fr.dirs[fr.index] + [n])
  {
    hide TreeValid, Frontier.Ready, Frontier.DirsThere;
    var d := fr.dirs[fr.index];
    var c, g := d + [n], fr.Read(n);
    ReadKeepsReady(fr, t, n);
    assert fr.DirCovers(fr.index, c) && fr.Covers(t, c);
    forall i | 0 <= i < |g.dirs|
      ensures !g.DirCovers(i, c)
    {
      PendingOnlyOnce(fr, n, i);
    }
    forall p | p in t
      ensures g.Covers(t, p) <==> fr.Covers(t, p) && p != c
      ensures Within(c, p) ==> p == c
    {
      if Within(c, p) { NothingBelowAFile(t, c, p); }
      BelowChild(d, n, p);
      if p != c {
        assert forall i :: 0 <= i < |g.dirs| ==> (fr.DirCovers(i, p) <==> g.DirCovers(i, p));
        if i :| 0 <= i < |fr.dirs| && fr.DirCovers(i, p) { assert g.DirCovers(i, p); }
        if i :| 0 <= i < |g.dirs| && g.DirCovers(i, p) { assert fr.DirCovers(i, p); }
      }
    }
  }

  /** The end of a listing: none of the names that are left is still there. */
  lemma CloseDirectory(fr: Frontier, t: Tree)
    requires fr.WellFormed() && TreeValid(t) && fr.scanning && fr.files == []
    requires fr.dirs[fr.index] != []
    requires forall n :: n in fr.pending && n != [] ==> fr.dirs[fr.index] + [n] !in t
    ensures fr.Closed().WellFormed() && Silent(fr, fr.Closed(), t)
  {
    var d, g := fr.dirs[fr.index], fr.Closed();
    forall i, p | 0 <= i < |fr.dirs| && p in t
      ensures fr.DirCovers(i, p) <==> g.DirCovers(i, p)
    {
      if i == fr.index && Within(d, p) && |d| < |p| { FirstStepBelow(t, d, p); }
    }
    DirsDecide(fr, g, t);
  }

  lemma StartCleanup(fr: Frontier, t: Tree)
    requires fr.WellFormed() && fr.files == [] && !fr.scanning && fr.index >= |fr.dirs|
    ensures fr.CleaningUp().WellFormed() && Silent(fr, fr.CleaningUp(), t)
  {
    DirsDecide(fr, fr.CleaningUp(), t);
  }

  /** In the cleanup phase directories are yielded from the back, the deepest of a line first. */
  lemma YieldDirectory(fr: Frontier, t: Tree)
    requires fr.WellFormed() && fr.cleanup && fr.dirs != []
    ensures fr.PopDir().WellFormed() && Yields(fr, fr.PopDir(), t, fr.dirs[|fr.dirs| - 1])
  {
    var g, last := fr.PopDir(), |fr.dirs| - 1;
    var x := fr.dirs[last];
    assert fr.DirCovers(last, x);
    assert forall i :: 0 <= i < last ==> g.dirs[i] == fr.dirs[i];
    forall p | p in t
      ensures g.Covers(t, p) <==> fr.Covers(t, p) && p != x
      ensures g.Covers(t, p) ==> !Within(x, p)
    {
      if i :| 0 <= i < |fr.dirs| && fr.DirCovers(i, p) {
        if p != x { assert g.DirCovers(i, p); }
      }
      if i :| 0 <= i < |g.dirs| && g.DirCovers(i, p) {
        assert fr.DirCovers(i, p) && p == fr.dirs[i];
        assert Within(x, x);
      }
    }
  }

  lemma NothingLeft(fr: Frontier, t: Tree)
    requires fr.files == [] && fr.dirs == []
    ensures fr.Todo(t) == {}
  {
  }

  // ---- a measure --------------------------------------------------------------------------------

  /** The nodes that opening and reading directories can still bring up. */
  ghost function OpenWork(fr: Frontier, t: Tree): set<Path> {
    set p | p in t && exists i :: 0 <= i < |fr.dirs| && fr.Ahead(i, p)
  }

  lemma SmallerSet<T>(a: set<T>, b: set<T>)
    ensures a <= b ==> |a| <= |b|
    ensures a < b ==> |a| < |b|
  {
    if a <= b {
      assert b == a + (b - a);
    }
  }

  lemma OpenWorkShrinks(fr: Frontier, g: Frontier, t: Tree)
    requires g.dirs == fr.dirs
    requires forall i, p :: 0 <= i < |fr.dirs| && p in t && g.Ahead(i, p) ==> fr.Ahead(i, p)
    ensures |OpenWork(g, t)| <= |OpenWork(fr, t)|
  {
    forall p | p in OpenWork(g, t)
      ensures p in OpenWork(fr, t)
    {
      var i :| 0 <= i < |g.dirs| && g.Ahead(i, p);
      assert fr.Ahead(i, p);
    }
    SmallerSet(OpenWork(g, t), OpenWork(fr, t));
  }

  lemma OpenWorkOpening(fr: Frontier, names: set<string>, t: Tree)
    requires !fr.scanning && !fr.cleanup && fr.index < |fr.dirs|
    ensures |OpenWork(fr.Opened(names), t)| <= |OpenWork(fr, t)|
  {
    OpenWorkShrinks(fr, fr.Opened(names), t);
  }

  lemma OpenWorkClosing(fr: Frontier, t: Tree)
    requires fr.scanning
    ensures |OpenWork(fr.Closed(), t)| <= |OpenWork(fr, t)|
  {
    OpenWorkShrinks(fr, fr.Closed(), t);
  }

  lemma OpenWorkDescending(fr: Frontier, t: Tree, n: string)
    requires fr.WellFormed() && fr.scanning && n in fr.pending && fr.files == []
    requires fr.dirs[fr.index] + [n] in t
    ensures |OpenWork(fr.Descend(n), t)| < |OpenWork(fr, t)|
  {
    var d := fr.dirs[fr.index];
    var c, g, last := d + [n], fr.Descend(n), |fr.dirs|;
    assert forall i :: 0 <= i < last ==> g.dirs[i] == fr.dirs[i];
    assert fr.Ahead(fr.index, c) && c in OpenWork(fr, t);
    forall p | p in OpenWork(g, t)
      ensures p in OpenWork(fr, t) && p != c
    {
      var i :| 0 <= i < |g.dirs| && g.Ahead(i, p);
      BelowChild(d, n, p);
      if i == last {
        assert fr.Ahead(fr.index, p);
      } else {
        PendingOnlyOnce(fr, n, i);
        assert fr.Ahead(i, p);
      }
    }
    SmallerSet(OpenWork(g, t), OpenWork(fr, t));
  }

  lemma SilentChain(a: Frontier, b: Frontier, c: Frontier, t: Tree)
    requires Silent(a, b, t) && Silent(b, c, t)
    ensures Silent(a, c, t)
  {
    hide Frontier.Covers, Frontier.Ready;
  }

  lemma SilentThenYields(a: Frontier, b: Frontier, c: Frontier, t: Tree, x: Path)
    requires Silent(a, b, t) && Yields(b, c, t, x)
    ensures Yields(a, c, t, x)
  {
    hide Frontier.Covers, Frontier.Ready;
  }

  lemma SilentToTheEnd(a: Frontier, b: Frontier, t: Tree)
    requires Silent(a, b, t) && b.files == [] && b.dirs == []
    ensures a.Todo(t) == {}
  {
  }

  /** One node is taken off what is left to do. */
  lemma YieldsTakesOne(a: Frontier, b: Frontier, t: Tree, x: Path)
    requires Yields(a, b, t, x)
    ensures b.Todo(t) == a.Todo(t) - {x}
    ensures x in t ==> x in a.Todo(t)
  {
    hide Frontier.Covers, Frontier.Ready;
  }

  lemma SilentSelf(a: Frontier, t: Tree)
    ensures Silent(a, a, t)
  {
  }

  lemma SilentKeepsReady(a: Frontier, b: Frontier, t: Tree)
    requires Silent(a, b, t)
    ensures (a.Ready(t) ==> b.Ready(t)) && (a.DirsThere(t) ==> b.DirsThere(t))
  {
  }

  lemma BoundedIndex(fr: Frontier)
    requires fr.WellFormed()
    ensures !fr.cleanup ==> fr.index <= |fr.dirs|
    ensures fr.scanning ==> fr.index < |fr.dirs|
  {
  }

  lemma OpenWorkCleaning(fr: Frontier, t: Tree)
    requires !fr.scanning && fr.index >= |fr.dirs|
    ensures |OpenWork(fr.CleaningUp(), t)| <= |OpenWork(fr, t)|
  {
    OpenWorkShrinks(fr, fr.CleaningUp(), t);
  }

  lemma YieldsKeepsReady(a: Frontier, b: Frontier, t: Tree, x: Path)
    requires Yields(a, b, t, x)
    ensures (a.Ready(t) ==> b.Ready(t)) && (a.DirsThere(t) ==> b.DirsThere(t))
  {
  }

  /** Before the first step the work is what lies at or below the selected paths. */
  lemma InitialTodo(fr: Frontier, t: Tree, p: Path)
    requires fr.dirs == []
    ensures p in fr.Todo(t) <==> p in t && exists k :: 0 <= k < |fr.files| && RootCovers(fr.files[k], t, p)
  {
  }
}
