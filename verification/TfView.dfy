/** The transform tree panel of rqt: the object, its recursive walk and its lines. */
module TfView {
  import opened Sorting
  import opened TfTree
  import opened TfOrder

  function Indent(d: nat): string {
    if d == 0 then "" else Indent(d - 1) + "  "
  }

  function Text(l: Line): string { Indent(l.depth) + l.frame }

  /** A line on the panel: two spaces per level and then the frame. */
  predicate IsText(s: string, l: Line) {
    && |s| == 2 * l.depth + |l.frame| && s[2 * l.depth..] == l.frame
    && forall k :: 0 <= k < 2 * l.depth ==> s[k] == ' '
  }

  lemma {:induction false} IndentIs(d: nat)
    ensures |Indent(d)| == 2 * d && forall k | 0 <= k < 2 * d :: Indent(d)[k] == ' '
  {
    if d > 0 {
      IndentIs(d - 1);
    }
  }

  lemma TextIs(l: Line)
    ensures IsText(Text(l), l)
  {
    IndentIs(l.depth);
  }

  function Texts(ls: seq<Line>): (ts: seq<string>)
    ensures |ts| == |ls| && forall i :: 0 <= i < |ls| ==> ts[i] == Text(ls[i])
  {
    seq(|ls|, i requires 0 <= i < |ls| => Text(ls[i]))
  }

  lemma TextsJoin(a: seq<Line>, b: seq<Line>)
    ensures Texts(a + b) == Texts(a) + Texts(b)
  {
  }

  lemma TextsOne(l: Line)
    ensures Texts([l]) == [Text(l)]
  {
  }

  lemma RenderBounds(es: Edges, rs: seq<Frame>)
    requires UniqueKeys(es) && forall r | r in rs :: r in Roots(es)
    ensures rs[0..] == rs && rs[|rs|..] == [] && Texts([]) == [] && Render(es, rs[|rs|..]) == []
    ensures forall done :: done + Render(es, rs[|rs|..]) == done
  {
  }

  lemma RenderNext(es: Edges, rs: seq<Frame>, i: nat, done: seq<Line>)
    requires UniqueKeys(es) && (forall r | r in rs :: r in Roots(es)) && i < |rs| && Path(es, [rs[i]])
    ensures done + Render(es, rs[i..]) == (done + Walk(es, [rs[i]])) + Render(es, rs[i + 1..])
  {
    assert rs[i..][0] == rs[i] && rs[i..][1..] == rs[i + 1..];
    var sub, rest := Walk(es, [rs[i]]), Render(es, rs[i + 1..]);
    assert done + (sub + rest) == (done + sub) + rest;
  }

  lemma WalkFromSkip(es: Edges, q: seq<Frame>, i: nat)
    requires Path(es, q) && i < |es| && es[i].parent != q[|q| - 1]
    ensures WalkFrom(es, q, i) == WalkFrom(es, q, i + 1)
  {
  }

  /** The loop body on an entry below q moves that child's lines into what is printed. */
  lemma WalkFromChild(es: Edges, q: seq<Frame>, i: nat, done: seq<Line>)
    requires Path(es, q) && i < |es| && es[i].parent == q[|q| - 1]
    ensures var q' := q + [es[i].child];
            && Path(es, q') && |q'| <= |es| + 1
            && done + WalkFrom(es, q, i) == (done + Walk(es, q')) + WalkFrom(es, q, i + 1)
  {
    PathExtend(es, q, i);
    var sub := Walk(es, q + [es[i].child]);
    assert done + (sub + WalkFrom(es, q, i + 1)) == (done + sub) + WalkFrom(es, q, i + 1);
  }

  datatype Transform = Transform(child: Frame, parent: Frame)

  function Update(es: Edges, ts: seq<Transform>): Edges
    decreases ts
  {
    if ts == [] then es else Update(SetEdge(es, ts[0].child, ts[0].parent), ts[1..])
  }

  /** Entry e is what the last transform of its child set. */
  ghost predicate SetLast(ts: seq<Transform>, e: Edge) {
    exists i :: 0 <= i < |ts| && ts[i] == Transform(e.child, e.parent) && Untouched(ts[i + 1..], e.child)
  }

  predicate Untouched(ts: seq<Transform>, c: Frame) { forall t | t in ts :: t.child != c }

  /** After a message the dictionary holds, for every child in it, what its last
      transform says, and every other entry as before. */
  lemma {:induction false} UpdateIs(es: Edges, ts: seq<Transform>, e: Edge)
    requires UniqueKeys(es)
    ensures UniqueKeys(Update(es, ts))
    ensures e in Update(es, ts) <==> SetLast(ts, e) || (e in es && Untouched(ts, e.child))
    decreases ts
  {
    if ts != [] {
      var t, rest := ts[0], ts[1..];
      SetEdgeLaws(es, t.child, t.parent);
      UpdateIs(SetEdge(es, t.child, t.parent), rest, e);
      SetLastStep(ts, e);
      assert ts == [t] + rest;
    }
  }

  lemma SetLastStep(ts: seq<Transform>, e: Edge)
    requires ts != []
    ensures SetLast(ts, e) <==>
            SetLast(ts[1..], e) || (ts[0] == Transform(e.child, e.parent) && Untouched(ts[1..], e.child))
  {
    if i :| 0 <= i < |ts| && ts[i] == Transform(e.child, e.parent) && Untouched(ts[i + 1..], e.child) {
      if i > 0 {
        assert ts[1..][i - 1] == ts[i] && ts[1..][i..] == ts[i + 1..];
      }
    }
    if i :| 0 <= i < |ts| - 1 && ts[1..][i] == Transform(e.child, e.parent) && Untouched(ts[1..][i + 1..], e.child) {
      assert ts[1..][i] == ts[i + 1] && ts[1..][i + 1..] == ts[i + 2..];
    }
  }

  /** The panel shows exactly the frames that a chain of entries from a root reaches,
      each once, two spaces in per entry of the chain; every indented line hangs under
      its parent's; roots are sorted, and lines below a common parent follow the
      dictionary. */
  ghost predicate Shows(es: Edges, texts: seq<string>, shown: seq<Line>) {
    && |texts| == |shown| && (forall i | 0 <= i < |shown| :: IsText(texts[i], shown[i]))
    && (forall n, d :: Line(n, d) in shown <==> Reached(es, n, d)) && DistinctFrames(shown)
    && Indented(es, shown, 0, None) && InDictOrder(es, shown)
    && (forall i, j | 0 <= i < j < |shown| && shown[i].depth == shown[j].depth == 0 ::
          Leq(shown[i].frame, shown[j].frame))
  }

  lemma RenderShows(es: Edges, rs: seq<Frame>)
    requires UniqueKeys(es) && Sorted(rs) && (forall r :: r in rs <==> r in Roots(es))
    requires forall i, j :: 0 <= i < j < |rs| ==> rs[i] != rs[j]
    ensures Shows(es, Texts(Render(es, rs)), Render(es, rs))
  {
    hide Roots, IsRoot, Reached, Render, Text, IsText, InDictOrder, Indented, RootsInOrder, OnlyRoots, DistinctFrames;
    hide UniqueKeys, Sorted, Leq;
    forall r ensures r in rs <==> IsRoot(es, r) {
      RootsAre(es, r);
    }
    RenderExactly(es, rs);
    RenderIndented(es, rs);
    RenderOrdered(es, rs);
    RootsSorted(Render(es, rs), rs);
    var shown := Render(es, rs);
    forall i | 0 <= i < |shown| ensures IsText(Texts(shown)[i], shown[i]) {
      TextIs(shown[i]);
    }
  }

  class TfPanel {
    var edges: Edges
    var lines: seq<string>
    var lastSeq: int

    constructor ()
      ensures edges == [] && lines == []
    {
      edges, lines, lastSeq := [], [], -1;
    }

    /** walk(node, depth) */
    method WalkNode(node: Frame, depth: nat, ghost q: seq<Frame>)
      requires Path(edges, q) && node == q[|q| - 1] && depth == |q| - 1
      modifies this`lines
      ensures lines == old(lines) + Texts(Walk(edges, q))
      decreases |edges| + 1 - |q|
    {
      hide Path, Walk, WalkFrom, Texts;
      ghost var es := edges;
      WalkBounds(es, q);
      TextsOne(Line(node, depth));
      lines := lines + [Indent(depth) + node];
      ghost var done := [Line(node, depth)];
      for i := 0 to |edges|
        invariant edges == es && lines == old(lines) + Texts(done)
        invariant done + WalkFrom(es, q, i) == Walk(es, q)
      {
        if edges[i].parent == node {
          ghost var q' := q + [es[i].child];
          WalkFromChild(es, q, i, done);
          ghost var sub := Walk(es, q');
          TextsJoin(done, sub);
          WalkNode(edges[i].child, depth + 1, q');
          done := done + sub;
        } else {
          WalkFromSkip(es, q, i);
        }
      }
    }

    /** tick() on a new message: update the dictionary and print the tree again. */
    method Tick(transforms: seq<Transform>, seqNo: int, title: string) returns (ghost shown: seq<Line>)
      requires UniqueKeys(edges)
      modifies this
      ensures UniqueKeys(edges)
      ensures seqNo == old(lastSeq) ==> edges == old(edges) && lines == old(lines) && lastSeq == old(lastSeq)
      ensures seqNo != old(lastSeq) ==>
                && lastSeq == seqNo && edges == Update(old(edges), transforms)
                && lines != [] && lines[0] == title && Shows(edges, lines[1..], shown)
    {
      hide Shows, Roots, Render, UniqueKeys;
      if seqNo == lastSeq {
        shown := [];
        return;
      }
      lastSeq := seqNo;
      assert transforms[0..] == transforms;
      for i := 0 to |transforms|
        invariant UniqueKeys(edges) && Update(edges, transforms[i..]) == Update(old(edges), transforms)
        invariant lastSeq == seqNo && lines == old(lines)
      {
        SetEdgeLaws(edges, transforms[i].child, transforms[i].parent);
        assert transforms[i..][1..] == transforms[i + 1..];
        edges := SetEdge(edges, transforms[i].child, transforms[i].parent);
      }
      var rs := SortedList(Roots(edges));
      shown := Render(edges, rs);
      lines := [title];
      PrintRoots(rs);
      RenderShows(edges, rs);
      assert lines[1..] == Texts(shown);
    }

    /** for r in sorted(roots): walk(r, 0) */
    method PrintRoots(rs: seq<Frame>)
      requires UniqueKeys(edges) && forall r | r in rs :: r in Roots(edges)
      modifies this`lines
      ensures lines == old(lines) + Texts(Render(edges, rs))
    {
      hide Path, Walk, Render, Texts, Roots, UniqueKeys;
      ghost var es, done := edges, [];
      RenderBounds(es, rs);
      for i := 0 to |rs|
        invariant edges == es && lines == old(lines) + Texts(done)
        invariant done + Render(es, rs[i..]) == Render(es, rs)
      {
        RootPath(es, rs[i]);
        RenderNext(es, rs, i, done);
        ghost var sub := Walk(es, [rs[i]]);
        TextsJoin(done, sub);
        WalkNode(rs[i], 0, [rs[i]]);
        done := done + sub;
      }
    }
  }
}
