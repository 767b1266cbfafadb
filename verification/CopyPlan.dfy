/** What a copy run is to achieve, and how far it has come, as values. */
module CopyPlan {
  import opened Paths
  import opened FatFs
  import opened Worklists
  import opened Mkdir

  /** The tree at the start, the nodes to copy, where they are copied from and to, the selected path
      strings, and whether each source goes once it is copied. */
  datatype Plan = Plan(start: Tree, goal: set<Path>, source: Path, target: Path, selected: set<string>, cut: bool)
  {
    /** The sources that are gone when done has been copied. */
    ghost function Gone(done: set<Path>): set<Path> {
      if cut then done else {}
    }

    /** The tree when x has been copied. */
    ghost function Left(t: Tree, x: Path): Tree {
      if cut then t - {x} else t
    }

    /** Everything below a node to copy is to be copied. */
    ghost predicate Closed() {
      forall c, p :: c in goal && p in start && Within(c, p) ==> p in goal
    }

    /** Where a node goes. */
    function Image(c: Path): Path
      requires |source| <= |c|
    {
      target + c[|source|..]
    }

    /** Every node to copy lies under a selected path, strictly below the source prefix. */
    ghost predicate Grounded() {
      && TreeValid(start) && source != [] && target != []
      && (forall c :: c in goal ==> c in start && Within(source, c) && |source| < |c|)
      && (forall c :: c in goal ==> Beneath(selected, c))
    }

    /** No image lies under a selected path. */
    ghost predicate Disjoint()
      requires Grounded()
    {
      forall c, s :: c in goal && s in selected ==> !Within(Resolve(s), Image(c))
    }

    /** No image of a file exists, and no file stands where a directory is needed. */
    ghost predicate CollisionFree()
      requires Grounded()
    {
      && (forall c :: c in goal && start[c].File? ==> Image(c) !in start && Clear(start, Parent(Image(c))))
      && (forall c :: c in goal && start[c].Dir? ==> Clear(start, Image(c)))
    }

    ghost predicate Feasible() {
      Grounded() && Disjoint() && CollisionFree()
    }
  }

  /** Exactly the nodes in done have been copied, the rest is as it was, and nothing else is new. */
  ghost predicate Progress(plan: Plan, t: Tree, done: set<Path>)
    requires plan.Grounded()
  {
    && done <= plan.goal
    && Kept(plan.start, t, plan.Gone(done))
    && (forall c :: c in done ==> Placed(plan, t, c))
    && (forall q :: q in t && q !in plan.start ==> Explained(plan, t, done, q))
  }

  /** Exactly the nodes in gone are missing, the others are unchanged. */
  ghost predicate Kept(before: Tree, after: Tree, gone: set<Path>) {
    && (forall p :: p in before && p !in gone ==> p in after && after[p] == before[p])
    && (forall p :: p in gone ==> p !in after)
  }

  ghost predicate Placed(plan: Plan, t: Tree, c: Path)
    requires plan.Grounded() && c in plan.goal
  {
    plan.Image(c) in t && if plan.start[c].File? then t[plan.Image(c)] == plan.start[c] else t[plan.Image(c)].Dir?
  }

  /** A new node is the image of something copied, or a directory on the way to one. */
  ghost predicate Explained(plan: Plan, t: Tree, done: set<Path>, q: Path)
    requires plan.Grounded() && done <= plan.goal && q in t
  {
    exists c :: c in done && Within(q, plan.Image(c)) && (t[q].Dir? || q == plan.Image(c))
  }

  /** New nodes only on the way to y, or y itself. */
  ghost predicate Grown(before: Tree, after: Tree, y: Path) {
    && Additive(before, after)
    && (forall q :: q in after && q !in before ==> Within(q, y) && (after[q].Dir? || q == y))
  }

  // ---- images -----------------------------------------------------------------------------------

  /** Taking images keeps and reflects the ancestor relation. */
  lemma ImageOrder(plan: Plan, a: Path, b: Path)
    requires Within(plan.source, a) && Within(plan.source, b)
    ensures Within(plan.Image(a), plan.Image(b)) <==> Within(a, b)
  {
    var n, m := |plan.source|, |plan.target|;
    if |a| <= |b| {
      assert plan.Image(b)[..|plan.Image(a)|] == plan.target + b[n..|a|];
      if Within(a, b) {
        assert b[n..|a|] == a[n..];
      }
      if Within(plan.Image(a), plan.Image(b)) {
        assert a[n..] == plan.Image(a)[m..] == (plan.target + b[n..|a|])[m..] == b[n..|a|];
        assert b[..|a|] == b[..n] + b[n..|a|] && a == a[..n] + a[n..];
      }
    }
  }

  /** In a valid tree only x itself is at or above x and a file, and only x is at or below a file. */
  lemma FileAlone(t: Tree, f: Path, p: Path)
    requires TreeValid(t) && f in t && p in t && t[f].File? && Within(f, p)
    ensures f == p
  {
    NothingBelowAFile(t, f, p);
  }

  /** The way to the image of a node not yet copied is clear. */
  lemma WayIsClear(plan: Plan, t: Tree, done: set<Path>, x: Path, y: Path)
    requires plan.Feasible() && Progress(plan, t, done) && x in plan.goal && x !in done
    requires if plan.start[x].File? then y == Parent(plan.Image(x)) else y == plan.Image(x)
    ensures Clear(t, y)
  {
    hide TreeValid, Follow, ValidName, Resolve;
    assert Clear(plan.start, y);
    assert [y[0]] !in plan.Gone(done);
    forall q | q in t && q != [] && Within(q, y)
      ensures t[q].Dir?
    {
      if q !in plan.start {
        var c :| c in done && Within(q, plan.Image(c)) && (t[q].Dir? || q == plan.Image(c));
        if q == plan.Image(c) {
          assert Placed(plan, t, c);
          WithinTransitive(q, y, plan.Image(x));
          ImageOrder(plan, c, x);
          if plan.start[c].File? { FileAlone(plan.start, c, x); }
        }
      }
    }
  }

  /** The image of a file not yet copied does not exist. */
  lemma ImageIsFree(plan: Plan, t: Tree, done: set<Path>, x: Path)
    requires plan.Feasible() && Progress(plan, t, done) && x in plan.goal && x !in done && plan.start[x].File?
    ensures plan.Image(x) !in t
  {
    hide TreeValid, Follow, ValidName, Resolve, Clear;
    var y := plan.Image(x);
    if y in t {
      assert y !in plan.start && Explained(plan, t, done, y);
      var c :| c in done && Within(y, plan.Image(c));
      ImageOrder(plan, x, c);
      FileAlone(plan.start, x, c);
    }
  }

  /** No source lies on the way to an image. */
  lemma OffTheWay(plan: Plan, c: Path, x: Path, q: Path)
    requires plan.Grounded() && plan.Disjoint() && c in plan.goal && x in plan.goal && Within(q, plan.Image(c))
    ensures !Within(x, q)
  {
    hide Resolve, TreeValid;
    var s :| s in plan.selected && Within(Resolve(s), x);
    if Within(x, q) {
      WithinTransitive(Resolve(s), x, q);
      WithinTransitive(Resolve(s), q, plan.Image(c));
    }
  }

  lemma WithinItself(p: Path)
    ensures Within(p, p)
  {
  }

  lemma KeptStep(plan: Plan, t: Tree, u: Tree, done: set<Path>, x: Path)
    requires plan.Grounded() && plan.Disjoint() && Progress(plan, t, done) && x in plan.goal && x !in done
    requires Grown(t, u, plan.Image(x))
    ensures Kept(plan.start, plan.Left(u, x), plan.Gone(done + {x}))
  {
    hide TreeValid, Resolve, Within, Plan.Disjoint;
    forall p | p in plan.Gone(done + {x})
      ensures p !in plan.Left(u, x)
    {
      if p in u && p != x {
        OffTheWay(plan, x, p, p);
        WithinItself(p);
      }
    }
  }

  /** One more node copied, and gone if it is to go. */
  lemma ProgressStep(plan: Plan, t: Tree, u: Tree, done: set<Path>, x: Path)
    requires plan.Grounded() && plan.Disjoint() && Progress(plan, t, done) && x in plan.goal && x !in done
    requires Grown(t, u, plan.Image(x)) && Placed(plan, u, x)
    ensures Progress(plan, plan.Left(u, x), done + {x})
  {
    hide TreeValid, Resolve, Plan.Disjoint;
    var v := plan.Left(u, x);
    KeptStep(plan, t, u, done, x);
    forall c | c in done + {x}
      ensures Placed(plan, v, c)
    {
      if c != x { assert Placed(plan, t, c); }
      WithinItself(x);
      WithinItself(plan.Image(c));
      OffTheWay(plan, c, x, plan.Image(c));
    }
    forall q | q in v && q !in plan.start
      ensures Explained(plan, v, done + {x}, q)
    {
      if q in t {
        assert Explained(plan, t, done, q);
        var c :| c in done && Within(q, plan.Image(c)) && (t[q].Dir? || q == plan.Image(c));
        assert c in done + {x};
      } else {
        assert x in done + {x};
      }
    }
  }

  lemma ProgressStart(plan: Plan)
    requires plan.Grounded()
    ensures Progress(plan, plan.start, {})
  {
  }

  // ---- copying does not disturb the walk ------------------------------------------------------------

  /** The walk only looks under the selected paths. */
  ghost predicate Inside(fr: Frontier, selected: set<string>) {
    && (forall k :: 0 <= k < |fr.files| ==> Beneath(selected, fr.files[k].path))
    && (forall i :: 0 <= i < |fr.dirs| ==> Beneath(selected, fr.dirs[i]))
  }

  /** p lies at or under a selected path. */
  ghost predicate Beneath(selected: set<string>, p: Path) {
    exists s :: s in selected && Within(Resolve(s), p)
  }

  lemma CoveredIsSelected(fr: Frontier, t: Tree, selected: set<string>, q: Path)
    requires Inside(fr, selected) && fr.Covers(t, q)
    ensures exists s :: s in selected && Within(Resolve(s), q)
  {
    hide Resolve;
    if k :| 0 <= k < |fr.files| && RootCovers(fr.files[k], t, q) {
      var s :| s in selected && Within(Resolve(s), fr.files[k].path);
      WithinTransitive(Resolve(s), fr.files[k].path, q);
    } else {
      var i :| 0 <= i < |fr.dirs| && fr.DirCovers(i, q);
      var s :| s in selected && Within(Resolve(s), fr.dirs[i]);
      assert Within(fr.dirs[i], q);
      WithinTransitive(Resolve(s), fr.dirs[i], q);
    }
  }

  /** y does not lie under a selected path. */
  ghost predicate Outside(selected: set<string>, y: Path) {
    forall s :: s in selected ==> !Within(Resolve(s), y)
  }

  lemma OutsideAbove(selected: set<string>, q: Path, y: Path)
    requires Outside(selected, y) && Within(q, y)
    ensures Outside(selected, q)
  {
    hide Resolve;
    forall s | s in selected
      ensures !Within(Resolve(s), q)
    {
      if Within(Resolve(s), q) { WithinTransitive(Resolve(s), q, y); }
    }
  }

  /** A selected path is there after the growth exactly if it was there before. */
  lemma RootsUndisturbed(fr: Frontier, t: Tree, u: Tree, y: Path, selected: set<string>, k: nat)
    requires Grown(t, u, y) && Inside(fr, selected) && Outside(selected, y) && k < |fr.files|
    ensures fr.files[k].path in u <==> fr.files[k].path in t
  {
    hide Resolve;
    var r := fr.files[k].path;
    var s :| s in selected && Within(Resolve(s), r);
    if Within(r, y) { WithinTransitive(Resolve(s), r, y); }
  }

  /** Growing outside the selected paths leaves the remaining work as it was. */
  lemma WorkUndisturbed(fr: Frontier, t: Tree, u: Tree, y: Path, selected: set<string>)
    requires Grown(t, u, y) && Inside(fr, selected) && Outside(selected, y)
    ensures fr.Todo(u) == fr.Todo(t)
  {
    hide Resolve, Within, Frontier.DirCovers, Inside, Outside;
    forall p | p in u
      ensures p in fr.Todo(u) <==> p in fr.Todo(t)
    {
      if p !in t {
        OutsideAbove(selected, p, y);
        NotCovered(fr, u, selected, p);
      } else {
        forall k | 0 <= k < |fr.files|
          ensures RootCovers(fr.files[k], u, p) <==> RootCovers(fr.files[k], t, p)
        {
          RootsUndisturbed(fr, t, u, y, selected, k);
        }
        SameWhenRootsAgree(fr, t, u, p);
      }
    }
  }

  lemma NotCovered(fr: Frontier, t: Tree, selected: set<string>, q: Path)
    requires Inside(fr, selected) && Outside(selected, q)
    ensures !fr.Covers(t, q)
  {
    hide Resolve, Within, Frontier.Covers, Inside;
    if fr.Covers(t, q) { CoveredIsSelected(fr, t, selected, q); }
  }

  lemma SameWhenRootsAgree(fr: Frontier, t: Tree, u: Tree, p: Path)
    requires forall k :: 0 <= k < |fr.files| ==> (RootCovers(fr.files[k], u, p) <==> RootCovers(fr.files[k], t, p))
    ensures fr.Covers(t, p) <==> fr.Covers(u, p)
  {
    hide RootCovers, Frontier.DirCovers;
    if k :| 0 <= k < |fr.files| && RootCovers(fr.files[k], t, p) { assert RootCovers(fr.files[k], u, p); }
    if k :| 0 <= k < |fr.files| && RootCovers(fr.files[k], u, p) { assert RootCovers(fr.files[k], t, p); }
  }

  lemma ReadyUndisturbed(fr: Frontier, t: Tree, u: Tree, y: Path, selected: set<string>)
    requires Grown(t, u, y) && Inside(fr, selected) && Outside(selected, y) && fr.Ready(t)
    requires TreeValid(t) && TreeValid(u)
    ensures fr.Ready(u)
  {
    hide Resolve, Within, Inside, Outside, TreeValid;
    forall k | 0 <= k < |fr.files|
      ensures StatResult(u, fr.files[k].path) in {Ok, NoFile}
    {
      RootsUndisturbed(fr, t, u, y, selected, k);
      StatStays(t, u, fr.files[k].path);
    }
  }

  lemma StatStays(t: Tree, u: Tree, r: Path)
    requires TreeValid(t) && TreeValid(u) && Additive(t, u) && (r in u <==> r in t)
    requires StatResult(t, r) in {Ok, NoFile}
    ensures StatResult(u, r) == StatResult(t, r)
  {
    hide TreeValid, ValidName;
    if StatResult(t, r) == Ok {
      FollowFinds(u, r);
    } else {
      FollowFinds(u, Parent(r));
    }
  }

  // ---- a source goes ----------------------------------------------------------------------------------

  /** Whatever is to be copied below x has been copied. */
  ghost predicate Bottom(plan: Plan, done: set<Path>, x: Path) {
    forall p :: p in plan.goal && Within(x, p) ==> p in done + {x}
  }

  lemma BottomFirst(plan: Plan, a: Frontier, b: Frontier, t: Tree, x: Path)
    requires Yields(a, b, t, x)
    ensures Bottom(plan, plan.goal - a.Todo(t), x)
  {
    hide Frontier.Covers, Frontier.Ready;
    forall p | p in plan.goal && Within(x, p) && p in a.Todo(t)
      ensures p == x
    {
      assert p != x ==> b.Covers(t, p);
    }
  }

  /** A new node does not lie under x. */
  lemma NothingNewBelow(plan: Plan, t: Tree, w: Tree, done: set<Path>, x: Path, c: Path)
    requires plan.Grounded() && plan.Disjoint() && Progress(plan, t, done) && x in plan.goal
    requires Grown(t, w, plan.Image(x)) && c in w && c !in plan.start
    ensures !Within(x, c)
  {
    hide TreeValid, Resolve, Within, Plan.Disjoint;
    if c in t {
      assert Explained(plan, t, done, c);
      var d :| d in done && Within(c, plan.Image(d));
      OffTheWay(plan, d, x, c);
    } else {
      OffTheWay(plan, x, x, c);
    }
  }

  /** Once x is copied nothing is left below it. */
  lemma BelowIsGone(plan: Plan, t: Tree, w: Tree, done: set<Path>, x: Path, c: Path)
    requires plan.Grounded() && plan.Disjoint() && plan.Closed() && plan.cut && Progress(plan, t, done)
    requires x in plan.goal && Bottom(plan, done, x) && Grown(t, w, plan.Image(x))
    requires Within(x, c) && c != x
    ensures c !in w
  {
    hide TreeValid, Resolve, Within, Plan.Disjoint, Plan.Grounded, Plan.Closed;
    if c !in plan.start {
      if c in w { NothingNewBelow(plan, t, w, done, x, c); }
    } else {
      ClosedAt(plan, x, c);
      if c in w {
        OffTheWay(plan, x, c, c);
        WithinItself(c);
      }
    }
  }

  /** So it can be unlinked. */
  lemma SourceUnlinks(plan: Plan, t: Tree, w: Tree, done: set<Path>, x: Path)
    requires plan.Grounded() && plan.Disjoint() && plan.Closed() && plan.cut && Progress(plan, t, done)
    requires x in plan.goal && x !in done && Bottom(plan, done, x)
    requires Grown(t, w, plan.Image(x)) && TreeValid(w)
    ensures x in w && UnlinkResult(w, x) == Ok
  {
    hide TreeValid, Resolve, Within, Follow, Bottom, Plan.Disjoint, Plan.Grounded, Plan.Closed;
    GoalFacts(plan, x);
    FollowFinds(w, x);
    forall c | c in w && |c| == |x| + 1
      ensures !Within(x, c)
    {
      if Within(x, c) { BelowIsGone(plan, t, w, done, x, c); }
    }
  }

  lemma GoalFacts(plan: Plan, x: Path)
    requires plan.Grounded() && x in plan.goal
    ensures x in plan.start && |x| > 1
  {
  }

  lemma ClosedAt(plan: Plan, x: Path, c: Path)
    requires plan.Closed() && x in plan.goal && c in plan.start && Within(x, c)
    ensures c in plan.goal
  {
  }

  /** A source that is no work any more can go without changing the work. */
  lemma WorkWithout(fr: Frontier, u: Tree, x: Path)
    requires x in u && !fr.Covers(u, x) && (fr.files != [] ==> u[x].File?)
    ensures fr.Todo(u - {x}) == fr.Todo(u)
  {
    hide Frontier.DirCovers;
    WithinItself(x);
    forall k | 0 <= k < |fr.files|
      ensures fr.files[k].path != x
    {
      assert !RootCovers(fr.files[k], u, x);
    }
    forall p
      ensures fr.Covers(u - {x}, p) <==> fr.Covers(u, p)
    {
      SameWhenRootsAgree(fr, u, u - {x}, p);
    }
  }

  lemma ReadyWithout(fr: Frontier, u: Tree, x: Path)
    requires TreeValid(u) && TreeValid(u - {x}) && fr.Ready(u)
    requires x in u && !fr.Covers(u, x) && (fr.files != [] ==> u[x].File?)
    ensures fr.Ready(u - {x})
  {
    hide TreeValid, StatResult;
    WithinItself(x);
    forall k | 0 <= k < |fr.files|
      ensures StatResult(u - {x}, fr.files[k].path) in {Ok, NoFile}
    {
      assert !RootCovers(fr.files[k], u, x);
      StatWithout(u, x, fr.files[k].path);
    }
    forall i | 0 <= i < |fr.dirs|
      ensures fr.dirs[i] != x
    {
      assert !fr.DirCovers(i, x);
    }
  }

  /** At the start the work is closed downwards. */
  lemma TodoIsClosed(fr: Frontier, t: Tree, c: Path, p: Path)
    requires fr.dirs == [] && c in fr.Todo(t) && p in t && Within(c, p)
    ensures p in fr.Todo(t)
  {
    hide Within;
    var k :| 0 <= k < |fr.files| && RootCovers(fr.files[k], t, c);
    WithinTransitive(fr.files[k].path, c, p);
    assert RootCovers(fr.files[k], t, p);
  }

  // ---- growth from the pieces of a copy ---------------------------------------------------------------

  lemma DirsGrow(t: Tree, u: Tree, y: Path)
    requires DirsAdded(t, u, y)
    ensures Grown(t, u, y)
  {
    hide Within;
  }

  /** The directories above y first, then y itself. */
  lemma FileGrows(t: Tree, u: Tree, v: Tree, y: Path)
    requires y != [] && DirsAdded(t, u, Parent(y)) && Additive(u, v) && (forall q :: q in v && q !in u ==> q == y)
    ensures Grown(t, v, y)
  {
    forall q | q in v && q !in t
      ensures Within(q, y) && (v[q].Dir? || q == y)
    {
      if q in u { WithinTransitive(q, Parent(y), y); }
    }
  }

  /** The result of a finished copy does not depend on how it was reached. */
  lemma FinishedIsDetermined(plan: Plan, t: Tree, u: Tree)
    requires plan.Grounded() && Progress(plan, t, plan.goal) && Progress(plan, u, plan.goal)
    requires TreeValid(t) && TreeValid(u)
    ensures t == u
  {
    hide TreeValid, Resolve, Progress, Plan.Grounded;
    forall q
      ensures q in t ==> q in u && t[q] == u[q]
      ensures q in u ==> q in t
    {
      if q in t { FinishedNode(plan, t, u, q); }
      if q in u { FinishedNode(plan, u, t, q); }
    }
  }

  lemma FinishedNode(plan: Plan, t: Tree, u: Tree, q: Path)
    requires plan.Grounded() && Progress(plan, t, plan.goal) && Progress(plan, u, plan.goal)
    requires TreeValid(t) && TreeValid(u) && q in t
    ensures q in u && u[q] == t[q]
  {
    hide Resolve, Within;
    if q !in plan.start {
      assert Explained(plan, t, plan.goal, q);
      var c :| c in plan.goal && Within(q, plan.Image(c)) && (t[q].Dir? || q == plan.Image(c));
      assert Placed(plan, t, c) && Placed(plan, u, c);
      AncestorsAreDirectories(u, q, plan.Image(c));
      AncestorsAreDirectories(t, q, plan.Image(c));
    }
  }
}
