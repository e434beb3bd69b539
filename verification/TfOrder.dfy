/** What the transform tree shows, in terms of the dictionary's entries alone: which
    frames, how deep, in which order, and as which text. */
module TfOrder {
  import opened Sorting
  import opened TfTree

  // ---- Chains of entries ----

  /** q leads from a frame that is some entry's parent and no entry's child down to its
      last frame, entry by entry. */
  ghost predicate Chain(es: Edges, q: seq<Frame>) {
    q != [] && IsRoot(es, q[0]) && forall i :: 0 <= i < |q| - 1 ==> Edge(q[i + 1], q[i]) in es
  }

  /** Some chain of d entries ends in n. */
  ghost predicate Reached(es: Edges, n: Frame, d: nat) {
    exists q :: Chain(es, q) && |q| == d + 1 && q[d] == n
  }

  lemma {:induction false} ChainAtDepth(es: Edges, q: seq<Frame>)
    requires UniqueKeys(es) && Chain(es, q)
    ensures AtDepth(es, q[|q| - 1], |q| - 1) && PathTo(es, q[|q| - 1], |q| - 1) == q
  {
    var d := |q| - 1;
    RootsAre(es, q[0]);
    if d > 0 {
      ChainAtDepth(es, q[..d]);
      assert Edge(q[d - 1 + 1], q[d - 1]) in es;
      ParentUnique(es, q[d], q[d - 1]);
      assert q == q[..d] + [q[d]];
    }
  }

  lemma {:induction false} PathIsChain(es: Edges, n: Frame, d: nat)
    requires AtDepth(es, n, d)
    ensures Chain(es, PathTo(es, n, d))
    decreases d
  {
    var q := PathTo(es, n, d);
    if d == 0 {
      RootsAre(es, n);
    } else {
      var p := ParentOf(es, n).value;
      PathIsChain(es, p, d - 1);
      var r := PathTo(es, p, d - 1);
      forall i | 0 <= i < |q| - 1 ensures Edge(q[i + 1], q[i]) in es {
        if i < d - 1 {
          assert q[i + 1] == r[i + 1] && q[i] == r[i];
        } else {
          assert q[i] == p && q[i + 1] == n;
        }
      }
    }
  }

  lemma ChainExactly(es: Edges, n: Frame, d: nat)
    requires UniqueKeys(es)
    ensures AtDepth(es, n, d) <==> Reached(es, n, d)
  {
    if AtDepth(es, n, d) {
      PathIsChain(es, n, d);
    }
    if q :| Chain(es, q) && |q| == d + 1 && q[d] == n {
      ChainAtDepth(es, q);
    }
  }

  /** The panel shows, for every dictionary, exactly the frames that a chain of entries
      from a root reaches, each once, indented by the length of that chain; frames on or
      below a cycle are not shown. */
  lemma RenderExactly(es: Edges, roots: seq<Frame>)
    requires UniqueKeys(es) && (forall r :: r in roots <==> IsRoot(es, r))
    requires forall i, j :: 0 <= i < j < |roots| ==> roots[i] != roots[j]
    ensures forall r | r in roots :: r in Roots(es)
    ensures DistinctFrames(Render(es, roots))
    ensures forall n, d :: Line(n, d) in Render(es, roots) <==> Reached(es, n, d)
  {
    forall r ensures r in Roots(es) <==> r in roots {
      RootsAre(es, r);
    }
    hide Reached, IsRoot;
    RenderMembers(es, roots, "", 0);
    forall n, d ensures Line(n, d) in Render(es, roots) <==> Reached(es, n, d) {
      ChainExactly(es, n, d);
      RenderMembers(es, roots, n, d);
      if AtDepth(es, n, d) {
        PathPrefix(es, n, d, 0);
      }
    }
  }

  // ---- The order of the lines ----

  /** Lines i and j are indented alike with nothing less indented between them. */
  predicate Siblings(ls: seq<Line>, i: int, j: int) {
    0 <= i < j < |ls| && ls[i].depth == ls[j].depth && forall k :: i < k < j ==> ls[k].depth >= ls[i].depth
  }

  /** The entry of a stands before that of b in the dictionary. */
  ghost predicate Before(es: Edges, a: Frame, b: Frame) {
    exists k, m :: 0 <= k < m < |es| && es[k].child == a && es[m].child == b
  }

  /** Below a common parent, lines follow the dictionary. */
  ghost predicate InDictOrder(es: Edges, ls: seq<Line>) {
    forall i, j | Siblings(ls, i, j) && ls[i].depth > 0 :: Before(es, ls[i].frame, ls[j].frame)
  }

  /** ls begins at depth base and is nowhere less deep; what is at base are children of
      entries from the lo-th on. */
  ghost predicate FromBase(es: Edges, ls: seq<Line>, base: nat, lo: nat) {
    && (ls != [] ==> ls[0].depth == base)
    && (forall i | 0 <= i < |ls| :: ls[i].depth >= base)
    && (forall i | 0 <= i < |ls| && ls[i].depth == base :: ChildFrom(es, ls[i].frame, lo))
  }

  ghost predicate ChildFrom(es: Edges, f: Frame, lo: nat) {
    exists k :: lo <= k < |es| && es[k].child == f
  }

  /** ls begins at depth base and goes deeper at once. */
  predicate UnderHead(ls: seq<Line>, base: nat) {
    ls != [] && ls[0].depth == base && forall i | 0 < i < |ls| :: ls[i].depth > base
  }

  /** A subtree in front of the subtrees of later entries. */
  lemma OrderJoin(es: Edges, a: seq<Line>, b: seq<Line>, base: nat, k: nat)
    requires UnderHead(a, base) && k < |es| && a[0].frame == es[k].child
    requires FromBase(es, b, base, k + 1) && InDictOrder(es, a) && InDictOrder(es, b)
    ensures FromBase(es, a + b, base, k) && InDictOrder(es, a + b)
  {
    var ls := a + b;
    forall i | 0 <= i < |ls| && ls[i].depth == base ensures ChildFrom(es, ls[i].frame, k) {
      if i >= |a| {
        assert ls[i] == b[i - |a|] && ChildFrom(es, b[i - |a|].frame, k + 1);
      }
    }
    forall i, j | Siblings(ls, i, j) && ls[i].depth > 0 ensures Before(es, ls[i].frame, ls[j].frame) {
      OrderPair(es, a, b, base, k, i, j);
    }
  }

  lemma OrderPair(es: Edges, a: seq<Line>, b: seq<Line>, base: nat, k: nat, i: nat, j: nat)
    requires UnderHead(a, base) && k < |es| && a[0].frame == es[k].child
    requires FromBase(es, b, base, k + 1) && InDictOrder(es, a) && InDictOrder(es, b)
    requires Siblings(a + b, i, j) && (a + b)[i].depth > 0
    ensures Before(es, (a + b)[i].frame, (a + b)[j].frame)
  {
    var ls := a + b;
    if j < |a| {
      forall m | i < m < j ensures a[m].depth >= a[i].depth {
        assert ls[m] == a[m];
      }
      assert Siblings(a, i, j);
    } else if i >= |a| {
      forall m | i - |a| < m < j - |a| ensures b[m].depth >= b[i - |a|].depth {
        assert ls[m + |a|] == b[m];
      }
      assert Siblings(b, i - |a|, j - |a|);
    } else {
      assert ls[|a|] == b[0] && ls[j] == b[j - |a|];
      assert ls[i].depth <= base;
      assert i == 0 && ChildFrom(es, b[j - |a|].frame, k + 1);
      var m :| k + 1 <= m < |es| && es[m].child == ls[j].frame;
      assert es[k].child == ls[i].frame;
    }
  }

  /** A line in front of the lines of its subtree. */
  lemma OrderUnder(es: Edges, f: Frame, ls: seq<Line>, base: nat)
    requires (forall i | 0 <= i < |ls| :: ls[i].depth > base) && InDictOrder(es, ls)
    ensures UnderHead([Line(f, base)] + ls, base) && InDictOrder(es, [Line(f, base)] + ls)
  {
    var all := [Line(f, base)] + ls;
    forall i, j | Siblings(all, i, j) && all[i].depth > 0 ensures Before(es, all[i].frame, all[j].frame) {
      assert i > 0;
      forall m | i - 1 < m < j - 1 ensures ls[m].depth >= ls[i - 1].depth {
        assert all[m + 1] == ls[m];
      }
      assert Siblings(ls, i - 1, j - 1);
    }
  }

  lemma {:induction false} WalkOrdered(es: Edges, q: seq<Frame>)
    requires Path(es, q)
    ensures UnderHead(Walk(es, q), |q| - 1) && Walk(es, q)[0].frame == q[|q| - 1] && InDictOrder(es, Walk(es, q))
    decreases |es| + 1 - |q|, |es| + 1
  {
    hide InDictOrder, Path;
    WalkBounds(es, q);
    WalkFromOrdered(es, q, 0);
    OrderUnder(es, q[|q| - 1], WalkFrom(es, q, 0), |q| - 1);
  }

  lemma {:induction false} WalkFromOrdered(es: Edges, q: seq<Frame>, i: nat)
    requires Path(es, q) && i <= |es|
    ensures FromBase(es, WalkFrom(es, q, i), |q|, i) && InDictOrder(es, WalkFrom(es, q, i))
    decreases |es| + 1 - |q|, |es| - i
  {
    hide Path, PathTo;
    WalkBounds(es, q);
    if i < |es| {
      WalkFromOrdered(es, q, i + 1);
      if es[i].parent == q[|q| - 1] {
        PathExtend(es, q, i);
        WalkOrdered(es, q + [es[i].child]);
        OrderJoin(es, Walk(es, q + [es[i].child]), WalkFrom(es, q, i + 1), |q|, i);
      } else {
        Later(es, WalkFrom(es, q, i + 1), |q|, i);
      }
    }
  }

  lemma Later(es: Edges, ls: seq<Line>, base: nat, lo: nat)
    requires FromBase(es, ls, base, lo + 1)
    ensures FromBase(es, ls, base, lo)
  {
    forall i | 0 <= i < |ls| && ls[i].depth == base ensures ChildFrom(es, ls[i].frame, lo) {
      assert ChildFrom(es, ls[i].frame, lo + 1);
    }
  }

  /** The unindented lines are the roots in the order given. */
  ghost predicate RootsInOrder(ls: seq<Line>, roots: seq<Frame>) {
    && (ls != [] ==> roots != [] && ls[0] == Line(roots[0], 0))
    && forall i, j | 0 <= i < j < |ls| && ls[i].depth == ls[j].depth == 0 ::
         InThatOrder(roots, ls[i].frame, ls[j].frame)
  }

  ghost predicate InThatOrder(roots: seq<Frame>, a: Frame, b: Frame) {
    exists k, m :: 0 <= k < m < |roots| && roots[k] == a && roots[m] == b
  }

  ghost predicate OnlyRoots(ls: seq<Line>, roots: seq<Frame>) {
    forall i | 0 <= i < |ls| && ls[i].depth == 0 :: ls[i].frame in roots
  }

  /** The lines of the panel, from the top: every subtree below its root, roots in the
      order given, and below a common parent in the order of the dictionary. */
  lemma {:induction false} RenderOrdered(es: Edges, roots: seq<Frame>)
    requires UniqueKeys(es) && forall r | r in roots :: r in Roots(es)
    ensures InDictOrder(es, Render(es, roots))
    ensures RootsInOrder(Render(es, roots), roots) && OnlyRoots(Render(es, roots), roots)
  {
    hide InDictOrder, RootsInOrder, OnlyRoots;
    if roots == [] {
      NoLines(es);
    } else {
      RootPath(es, roots[0]);
      WalkOrdered(es, [roots[0]]);
      RenderOrdered(es, roots[1..]);
      RootJoin(es, Walk(es, [roots[0]]), Render(es, roots[1..]), roots);
    }
  }

  lemma NoLines(es: Edges)
    ensures InDictOrder(es, []) && RootsInOrder([], []) && OnlyRoots([], [])
  {
  }

  lemma RootJoin(es: Edges, a: seq<Line>, b: seq<Line>, roots: seq<Frame>)
    requires roots != [] && UnderHead(a, 0) && a[0].frame == roots[0]
    requires InDictOrder(es, a) && InDictOrder(es, b)
    requires RootsInOrder(b, roots[1..]) && OnlyRoots(b, roots[1..])
    ensures InDictOrder(es, a + b) && RootsInOrder(a + b, roots) && OnlyRoots(a + b, roots)
  {
    var ls := a + b;
    assert ls[0] == Line(roots[0], 0);
    forall i, j | Siblings(ls, i, j) && ls[i].depth > 0 ensures Before(es, ls[i].frame, ls[j].frame) {
      if j < |a| {
        forall m | i < m < j ensures a[m].depth >= a[i].depth {
          assert ls[m] == a[m];
        }
        assert Siblings(a, i, j);
      } else {
        assert ls[|a|] == b[0];
        forall m | i - |a| < m < j - |a| && m >= 0 ensures i >= |a| ==> b[m].depth >= b[i - |a|].depth {
          assert ls[m + |a|] == b[m];
        }
        assert Siblings(b, i - |a|, j - |a|);
      }
    }
    forall i | 0 <= i < |ls| && ls[i].depth == 0 ensures ls[i].frame in roots {
      if i >= |a| {
        assert ls[i] == b[i - |a|] && b[i - |a|].frame in roots[1..];
      }
    }
    forall i, j | 0 <= i < j < |ls| && ls[i].depth == ls[j].depth == 0
      ensures InThatOrder(roots, ls[i].frame, ls[j].frame)
    {
      RootPair(a, b, roots, i, j);
    }
  }

  lemma RootPair(a: seq<Line>, b: seq<Line>, roots: seq<Frame>, i: nat, j: nat)
    requires roots != [] && UnderHead(a, 0) && a[0].frame == roots[0]
    requires RootsInOrder(b, roots[1..]) && OnlyRoots(b, roots[1..])
    requires i < j < |a + b| && (a + b)[i].depth == (a + b)[j].depth == 0
    ensures InThatOrder(roots, (a + b)[i].frame, (a + b)[j].frame)
  {
    var ls := a + b;
    assert j >= |a| && ls[j] == b[j - |a|] && b[j - |a|].frame in roots[1..];
    if i < |a| {
      assert i == 0;
      var m :| 0 <= m < |roots[1..]| && roots[1..][m] == ls[j].frame;
      assert roots[0] == ls[i].frame && roots[m + 1] == ls[j].frame;
    } else {
      assert ls[i] == b[i - |a|];
      assert InThatOrder(roots[1..], b[i - |a|].frame, b[j - |a|].frame);
      var k, m :| 0 <= k < m < |roots[1..]| && roots[1..][k] == ls[i].frame && roots[1..][m] == ls[j].frame;
      assert roots[k + 1] == ls[i].frame && roots[m + 1] == ls[j].frame;
    }
  }

  /** With the roots sorted, so are the unindented lines. */
  lemma RootsSorted(ls: seq<Line>, roots: seq<Frame>)
    requires Sorted(roots) && RootsInOrder(ls, roots)
    ensures forall i, j | 0 <= i < j < |ls| && ls[i].depth == ls[j].depth == 0 :: Leq(ls[i].frame, ls[j].frame)
  {
    forall i, j | 0 <= i < j < |ls| && ls[i].depth == ls[j].depth == 0 ensures Leq(ls[i].frame, ls[j].frame) {
      assert InThatOrder(roots, ls[i].frame, ls[j].frame);
    }
  }
}
