/** The transform tree of the rqt panel: a dictionary from child to parent frame,
    walked from its roots.  The dictionary may contain cycles. */
module TfTree {
  import opened Sorting

  type Frame = string

  /** One entry of the dictionary, child to parent. */
  datatype Edge = Edge(child: Frame, parent: Frame)

  /** A dictionary in insertion order; its keys are the children. */
  type Edges = seq<Edge>

  /** A line of the panel; depth is its indentation. */
  datatype Line = Line(frame: Frame, depth: nat)

  datatype Option<+T> = None | Some(value: T)

  predicate UniqueKeys(es: Edges) {
    forall i, j :: 0 <= i < j < |es| ==> es[i].child != es[j].child
  }

  /** dict.get */
  function ParentOf(es: Edges, c: Frame): (p: Option<Frame>)
    ensures p.Some? ==> Edge(c, p.value) in es
    ensures p.None? ==> forall e | e in es :: e.child != c
  {
    if es == [] then None
    else if es[0].child == c then Some(es[0].parent)
    else ParentOf(es[1..], c)
  }

  lemma ParentUnique(es: Edges, c: Frame, p: Frame)
    requires UniqueKeys(es) && Edge(c, p) in es
    ensures ParentOf(es, c) == Some(p)
  {
  }

  /** self._edges[c] = p: a new key goes last, an existing one keeps its place. */
  function SetEdge(es: Edges, c: Frame, p: Frame): Edges {
    if es == [] then [Edge(c, p)]
    else if es[0].child == c then [Edge(c, p)] + es[1..]
    else [es[0]] + SetEdge(es[1..], c, p)
  }

  lemma {:induction false} SetEdgeLaws(es: Edges, c: Frame, p: Frame)
    requires UniqueKeys(es)
    ensures UniqueKeys(SetEdge(es, c, p))
    ensures forall e :: e in SetEdge(es, c, p) <==> e == Edge(c, p) || (e in es && e.child != c)
  {
    if es != [] && es[0].child != c {
      SetEdgeLaws(es[1..], c, p);
      var r := SetEdge(es[1..], c, p);
      assert forall i :: 0 <= i < |r| ==> r[i] in r;
      assert es == [es[0]] + es[1..];
    } else if es != [] {
      assert es == [es[0]] + es[1..];
      assert forall e | e in es[1..] :: e.child != c;
    }
  }

  /** The entry goes last when the key is new, and keeps its place otherwise. */
  lemma {:induction false} SetEdgePlace(es: Edges, c: Frame, p: Frame, i: nat)
    requires UniqueKeys(es) && i <= |es| && (i < |es| ==> es[i].child == c)
    requires i == |es| ==> forall e | e in es :: e.child != c
    ensures SetEdge(es, c, p) == if i < |es| then es[i := Edge(c, p)] else es + [Edge(c, p)]
  {
    if es == [] {
      assert [] + [Edge(c, p)] == [Edge(c, p)];
    } else if i > 0 {
      assert es[0] in es && es[0].child != c;
      SetEdgePlace(es[1..], c, p, i - 1);
      assert es == [es[0]] + es[1..];
    }
  }

  /** set(edges.values()) - set(edges.keys()) */
  function Roots(es: Edges): set<Frame> {
    (set e | e in es :: e.parent) - (set e | e in es :: e.child)
  }

  /** The chain of parents of n has d edges and ends in a root. */
  predicate AtDepth(es: Edges, n: Frame, d: nat)
    decreases d
  {
    if d == 0 then n in Roots(es)
    else
      var p := ParentOf(es, n);
      p.Some? && AtDepth(es, p.value, d - 1)
  }

  /** That chain, from the root to n. */
  function PathTo(es: Edges, n: Frame, d: nat): (q: seq<Frame>)
    requires AtDepth(es, n, d)
    ensures |q| == d + 1 && q[d] == n
    decreases d
  {
    if d == 0 then [n] else PathTo(es, ParentOf(es, n).value, d - 1) + [n]
  }

  /** Some frame's parent and no frame's child. */
  ghost predicate IsRoot(es: Edges, n: Frame) {
    (exists e :: e in es && e.parent == n) && forall e | e in es :: e.child != n
  }

  lemma RootsAre(es: Edges, n: Frame)
    ensures n in Roots(es) <==> IsRoot(es, n)
  {
    var parents, children := set e | e in es :: e.parent, set e | e in es :: e.child;
    if n in Roots(es) {
      assert n in parents && n !in children;
      forall e | e in es ensures e.child != n {
        assert e.child in children;
      }
    }
    if IsRoot(es, n) {
      var e :| e in es && e.parent == n;
      assert e.parent in parents;
    }
  }

  lemma RootNoParent(es: Edges, n: Frame)
    ensures n in Roots(es) ==> ParentOf(es, n).None?
  {
    assert forall e | e in es :: e.child in (set f | f in es :: f.child);
  }

  lemma {:induction false} DepthUnique(es: Edges, n: Frame, d: nat, e: nat)
    requires AtDepth(es, n, d) && AtDepth(es, n, e)
    ensures d == e
    decreases d + e
  {
    if d == 0 || e == 0 {
      RootNoParent(es, n);
    } else {
      DepthUnique(es, ParentOf(es, n).value, d - 1, e - 1);
    }
  }

  // ---- The walk ----

  /** A chain of dictionary entries downward from a root. */
  ghost predicate Path(es: Edges, q: seq<Frame>) {
    UniqueKeys(es) && q != [] && AtDepth(es, q[|q| - 1], |q| - 1) && PathTo(es, q[|q| - 1], |q| - 1) == q
  }

  lemma {:induction false} PathPrefix(es: Edges, n: Frame, d: nat, k: nat)
    requires AtDepth(es, n, d) && k <= d
    ensures AtDepth(es, PathTo(es, n, d)[k], k)
    ensures PathTo(es, PathTo(es, n, d)[k], k) == PathTo(es, n, d)[..k + 1]
    decreases d
  {
    var q := PathTo(es, n, d);
    if k == d {
      assert q[..k + 1] == q;
    } else {
      PathPrefix(es, ParentOf(es, n).value, d - 1, k);
      assert q[..k + 1] == PathTo(es, ParentOf(es, n).value, d - 1)[..k + 1];
    }
  }

  /** Frames on a path differ, so a path is no longer than the dictionary allows. */
  lemma PathDistinct(es: Edges, q: seq<Frame>, i: nat, j: nat)
    requires Path(es, q) && i < j < |q|
    ensures q[i] != q[j]
  {
    PathPrefix(es, q[|q| - 1], |q| - 1, i);
    PathPrefix(es, q[|q| - 1], |q| - 1, j);
    if q[i] == q[j] {
      DepthUnique(es, q[i], i, j);
    }
  }

  lemma PathBound(es: Edges, q: seq<Frame>)
    requires Path(es, q)
    ensures |q| <= |es| + 1
  {
    var keys := set e | e in es :: e.child;
    KeysBound(es);
    forall i | 1 <= i < |q| ensures q[i] in keys {
      PathPrefix(es, q[|q| - 1], |q| - 1, i);
      assert Edge(q[i], ParentOf(es, q[i]).value).child in keys;
    }
    forall i, j | 0 <= i < j < |q| ensures q[i] != q[j] { PathDistinct(es, q, i, j); }
    DistinctCount(q, |q|, keys);
  }

  lemma {:induction false} KeysBound(es: Edges)
    ensures |set e | e in es :: e.child| <= |es|
  {
    if es != [] {
      KeysBound(es[1..]);
      var rest := set e | e in es[1..] :: e.child;
      assert es == [es[0]] + es[1..];
      assert (set e | e in es :: e.child) == rest + {es[0].child};
    }
  }

  /** m - 1 distinct members of a set are not more than the set. */
  lemma {:induction false} DistinctCount(q: seq<Frame>, m: nat, keys: set<Frame>)
    requires 1 <= m <= |q| && forall i, j :: 0 <= i < j < |q| ==> q[i] != q[j]
    requires forall i :: 1 <= i < m ==> q[i] in keys
    ensures m - 1 <= |keys|
  {
    if m > 1 {
      DistinctCount(q, m - 1, keys - {q[m - 1]});
    }
  }

  lemma PathExtend(es: Edges, q: seq<Frame>, i: nat)
    requires Path(es, q) && i < |es| && es[i].parent == q[|q| - 1]
    ensures Path(es, q + [es[i].child]) && |q| + 1 <= |es| + 1
  {
    var c := es[i].child;
    ParentUnique(es, c, es[i].parent);
    assert AtDepth(es, c, |q|);
    PathBound(es, q + [c]);
  }

  /** walk(node, depth), where q leads from the root to node; the lines it appends. */
  function Walk(es: Edges, q: seq<Frame>): seq<Line>
    requires Path(es, q)
    decreases |es| + 1 - |q|, |es| + 1
  {
    PathBound(es, q);
    [Line(q[|q| - 1], |q| - 1)] + WalkFrom(es, q, 0)
  }

  /** The loop over edges.items() from the i-th entry on. */
  function WalkFrom(es: Edges, q: seq<Frame>, i: nat): seq<Line>
    requires Path(es, q) && i <= |es|
    decreases |es| + 1 - |q|, |es| - i
  {
    PathBound(es, q);
    if i == |es| then []
    else if es[i].parent == q[|q| - 1] then
      PathExtend(es, q, i);
      Walk(es, q + [es[i].child]) + WalkFrom(es, q, i + 1)
    else WalkFrom(es, q, i + 1)
  }

  lemma RootPath(es: Edges, r: Frame)
    requires UniqueKeys(es) && r in Roots(es)
    ensures Path(es, [r])
  {
    assert AtDepth(es, r, 0) && PathTo(es, r, 0) == [r];
  }

  /** All walks, one per root in the order given. */
  function Render(es: Edges, roots: seq<Frame>): seq<Line>
    requires UniqueKeys(es) && forall r | r in roots :: r in Roots(es)
  {
    if roots == [] then []
    else
      RootPath(es, roots[0]);
      Walk(es, [roots[0]]) + Render(es, roots[1..])
  }

  // ---- What is printed ----

  lemma StrictPrefix(es: Edges, q: seq<Frame>, n: Frame, d: nat)
    requires Path(es, q) && AtDepth(es, n, d) && q <= PathTo(es, n, d) && |q| <= d
    ensures exists k :: 0 <= k < |es| && es[k].parent == q[|q| - 1] && q + [es[k].child] <= PathTo(es, n, d)
  {
    hide UniqueKeys, Roots;
    var p := PathTo(es, n, d);
    PathPrefix(es, n, d, |q|);
    var c := p[|q|];
    assert p[..|q| + 1] == q + [c];
    var parent := ParentOf(es, c).value;
    assert PathTo(es, c, |q|) == PathTo(es, parent, |q| - 1) + [c] == q + [c];
    assert PathTo(es, parent, |q| - 1) == (q + [c])[..|q|] == q;
    assert Edge(c, parent) in es;
    var k :| 0 <= k < |es| && es[k] == Edge(c, parent);
  }

  /** The walk from a node prints exactly the frames whose chain passes through it. */
  lemma {:induction false} WalkMembers(es: Edges, q: seq<Frame>, n: Frame, d: nat)
    requires Path(es, q)
    ensures Line(n, d) in Walk(es, q) <==> AtDepth(es, n, d) && q <= PathTo(es, n, d)
    decreases |es| + 1 - |q|, |es| + 1
  {
    PathBound(es, q);
    WalkFromMembers(es, q, 0, n, d);
    if AtDepth(es, n, d) && q <= PathTo(es, n, d) {
      if |q| <= d {
        StrictPrefix(es, q, n, d);
      } else {
        assert q == PathTo(es, n, d);
      }
    }
  }

  lemma {:induction false} WalkFromMembers(es: Edges, q: seq<Frame>, i: nat, n: Frame, d: nat)
    requires Path(es, q) && i <= |es|
    ensures Line(n, d) in WalkFrom(es, q, i) <==>
            AtDepth(es, n, d) &&
            exists k :: i <= k < |es| && es[k].parent == q[|q| - 1] && q + [es[k].child] <= PathTo(es, n, d)
    decreases |es| + 1 - |q|, |es| - i
  {
    PathBound(es, q);
    if i < |es| {
      WalkFromMembers(es, q, i + 1, n, d);
      if es[i].parent == q[|q| - 1] {
        PathExtend(es, q, i);
        WalkMembers(es, q + [es[i].child], n, d);
      }
    }
  }

  predicate DistinctFrames(ls: seq<Line>) {
    forall i, j :: 0 <= i < j < |ls| ==> ls[i].frame != ls[j].frame
  }

  lemma JoinDistinct(a: seq<Line>, b: seq<Line>)
    requires DistinctFrames(a) && DistinctFrames(b)
    requires forall x, y | x in a && y in b :: x.frame != y.frame
    ensures DistinctFrames(a + b)
  {
    forall i, j | 0 <= i < j < |a + b| ensures (a + b)[i].frame != (a + b)[j].frame {
      if i < |a| <= j {
        assert a[i] in a && b[j - |a|] in b;
      }
    }
  }

  lemma {:induction false} WalkDistinct(es: Edges, q: seq<Frame>)
    requires Path(es, q)
    ensures DistinctFrames(Walk(es, q))
    decreases |es| + 1 - |q|, |es| + 1
  {
    PathBound(es, q);
    WalkFromDistinct(es, q, 0);
    var head := Line(q[|q| - 1], |q| - 1);
    forall x, y | x in [head] && y in WalkFrom(es, q, 0) ensures x.frame != y.frame {
      WalkFromMembers(es, q, 0, y.frame, y.depth);
      assert Line(y.frame, y.depth) == y && |PathTo(es, y.frame, y.depth)| > |q|;
      if y.frame == head.frame {
        DepthUnique(es, y.frame, y.depth, |q| - 1);
      }
    }
    JoinDistinct([head], WalkFrom(es, q, 0));
  }

  lemma {:induction false} WalkFromDistinct(es: Edges, q: seq<Frame>, i: nat)
    requires Path(es, q) && i <= |es|
    ensures DistinctFrames(WalkFrom(es, q, i))
    decreases |es| + 1 - |q|, |es| - i
  {
    PathBound(es, q);
    if i < |es| {
      WalkFromDistinct(es, q, i + 1);
      if es[i].parent == q[|q| - 1] {
        PathExtend(es, q, i);
        WalkDistinct(es, q + [es[i].child]);
        SubtreesApart(es, q, i);
        JoinDistinct(Walk(es, q + [es[i].child]), WalkFrom(es, q, i + 1));
      }
    }
  }

  lemma SubtreesApart(es: Edges, q: seq<Frame>, i: nat)
    requires Path(es, q) && i < |es| && es[i].parent == q[|q| - 1] && Path(es, q + [es[i].child])
    ensures forall x, y | x in Walk(es, q + [es[i].child]) && y in WalkFrom(es, q, i + 1) :: x.frame != y.frame
  {
    forall x, y | x in Walk(es, q + [es[i].child]) && y in WalkFrom(es, q, i + 1) ensures x.frame != y.frame {
      WalkMembers(es, q + [es[i].child], x.frame, x.depth);
      WalkFromMembers(es, q, i + 1, y.frame, y.depth);
      assert Line(x.frame, x.depth) == x && Line(y.frame, y.depth) == y;
      var k :| i + 1 <= k < |es| && q + [es[k].child] <= PathTo(es, y.frame, y.depth);
      assert PathTo(es, x.frame, x.depth)[|q|] == es[i].child;
      assert PathTo(es, y.frame, y.depth)[|q|] == es[k].child;
      if x.frame == y.frame {
        DepthUnique(es, x.frame, x.depth, y.depth);
      }
    }
  }

  /** The first line of a walk, and its end. */
  lemma WalkBounds(es: Edges, q: seq<Frame>)
    requires Path(es, q)
    ensures q != [] && |q| <= |es| + 1
    ensures Walk(es, q) == [Line(q[|q| - 1], |q| - 1)] + WalkFrom(es, q, 0)
    ensures WalkFrom(es, q, |es|) == []
    ensures forall done :: done + WalkFrom(es, q, |es|) == done
  {
    PathBound(es, q);
  }

  /** Rendering prints, each once, exactly the frames whose parent chain reaches one of
      the roots given, at the length of that chain. */
  lemma {:induction false} RenderMembers(es: Edges, roots: seq<Frame>, n: Frame, d: nat)
    requires UniqueKeys(es) && (forall r | r in roots :: r in Roots(es))
    requires forall i, j :: 0 <= i < j < |roots| ==> roots[i] != roots[j]
    ensures DistinctFrames(Render(es, roots))
    ensures Line(n, d) in Render(es, roots) <==> AtDepth(es, n, d) && PathTo(es, n, d)[0] in roots
  {
    if roots != [] {
      var r := roots[0];
      assert roots == [r] + roots[1..];
      RootPath(es, r);
      WalkDistinct(es, [r]);
      WalkMembers(es, [r], n, d);
      RenderMembers(es, roots[1..], n, d);
      forall x, y | x in Walk(es, [r]) && y in Render(es, roots[1..]) ensures x.frame != y.frame {
        WalkMembers(es, [r], x.frame, x.depth);
        RenderMembers(es, roots[1..], y.frame, y.depth);
        assert Line(x.frame, x.depth) == x && Line(y.frame, y.depth) == y;
        if x.frame == y.frame {
          DepthUnique(es, x.frame, x.depth, y.depth);
        }
      }
      JoinDistinct(Walk(es, [r]), Render(es, roots[1..]));
      if AtDepth(es, n, d) {
        assert [r] <= PathTo(es, n, d) <==> PathTo(es, n, d)[0] == r;
      }
    }
  }

  // ---- The indentation shows the dictionary ----

  /** Line j is the nearest line above line i that is indented one step less. */
  predicate Above(ls: seq<Line>, j: int, i: int)
    requires 0 <= j < |ls| && 0 <= i < |ls|
  {
    j < i && ls[j].depth + 1 == ls[i].depth && forall k :: j < k < i ==> ls[k].depth >= ls[i].depth
  }

  /** The nearest line above line i indented one step less is its parent. */
  ghost predicate Hangs(es: Edges, ls: seq<Line>, i: nat)
    requires i < |ls|
  {
    exists j :: 0 <= j < |ls| && Above(ls, j, i) && Edge(ls[i].frame, ls[j].frame) in es
  }

  /** Below indentation base a line hangs under the line that is its parent; at
      base it hangs under up. */
  ghost predicate Placed(es: Edges, ls: seq<Line>, i: nat, base: nat, up: Option<Frame>)
    requires i < |ls|
  {
    && ls[i].depth >= base
    && (ls[i].depth == base && up.Some? ==> Edge(ls[i].frame, up.value) in es)
    && (ls[i].depth > base ==> Hangs(es, ls, i))
  }

  ghost predicate Indented(es: Edges, ls: seq<Line>, base: nat, up: Option<Frame>) {
    forall i: nat | i < |ls| :: Placed(es, ls, i, base, up)
  }

  /** Lines before and after do not change what a line hangs under. */
  lemma HangsWithin(es: Edges, ls: seq<Line>, i: nat, all: seq<Line>, o: nat)
    requires o + |ls| <= |all| && all[o..o + |ls|] == ls
    requires i < |ls| && Hangs(es, ls, i)
    ensures Hangs(es, all, o + i)
  {
    var j :| 0 <= j < |ls| && Above(ls, j, i) && Edge(ls[i].frame, ls[j].frame) in es;
    forall k | 0 <= k < |ls| ensures all[o + k] == ls[k] {
      assert all[o..o + |ls|][k] == all[o + k];
    }
    forall k | o + j < k < o + i ensures all[k].depth >= ls[i].depth {
      assert all[o + (k - o)] == ls[k - o];
    }
    assert Above(all, o + j, o + i);
  }

  lemma PlacedWithin(es: Edges, ls: seq<Line>, i: nat, all: seq<Line>, o: nat, base: nat, up: Option<Frame>)
    requires o + |ls| <= |all| && all[o..o + |ls|] == ls
    requires i < |ls| && Placed(es, ls, i, base, up)
    ensures Placed(es, all, o + i, base, up)
  {
    assert all[o..o + |ls|][i] == all[o + i];
    if ls[i].depth > base {
      HangsWithin(es, ls, i, all, o);
    }
  }

  lemma IndentedJoin(es: Edges, a: seq<Line>, b: seq<Line>, base: nat, up: Option<Frame>)
    requires Indented(es, a, base, up) && Indented(es, b, base, up)
    ensures Indented(es, a + b, base, up)
  {
    var ls := a + b;
    assert ls[0..0 + |a|] == a && ls[|a|..|a| + |b|] == b;
    forall i: nat | i < |ls| ensures Placed(es, ls, i, base, up) {
      if i < |a| {
        PlacedWithin(es, a, i, ls, 0, base, up);
      } else {
        PlacedWithin(es, b, i - |a|, ls, |a|, base, up);
      }
    }
  }

  lemma IndentedUnder(es: Edges, f: Frame, ls: seq<Line>, base: nat, up: Option<Frame>)
    requires Indented(es, ls, base + 1, Some(f)) && (up.Some? ==> Edge(f, up.value) in es)
    ensures Indented(es, [Line(f, base)] + ls, base, up)
  {
    var all := [Line(f, base)] + ls;
    assert all[1..1 + |ls|] == ls;
    forall i: nat | i < |all| ensures Placed(es, all, i, base, up) {
      if i > 0 {
        HangsUnder(es, f, ls, base, i - 1);
      }
    }
  }

  lemma HangsUnder(es: Edges, f: Frame, ls: seq<Line>, base: nat, i: nat)
    requires Indented(es, ls, base + 1, Some(f)) && i < |ls|
    ensures ls[i].depth > base && Hangs(es, [Line(f, base)] + ls, i + 1)
  {
    var all := [Line(f, base)] + ls;
    assert Placed(es, ls, i, base + 1, Some(f));
    if ls[i].depth > base + 1 {
      assert all[1..1 + |ls|] == ls;
      HangsWithin(es, ls, i, all, 1);
    } else {
      forall k | 0 < k < i + 1 ensures all[k].depth >= base + 1 {
        assert Placed(es, ls, k - 1, base + 1, Some(f));
      }
      assert Above(all, 0, i + 1);
    }
  }

  lemma {:induction false} WalkIndented(es: Edges, q: seq<Frame>, up: Option<Frame>)
    requires Path(es, q) && (up.Some? ==> Edge(q[|q| - 1], up.value) in es)
    ensures Indented(es, Walk(es, q), |q| - 1, up)
    decreases |es| + 1 - |q|, |es| + 1
  {
    PathBound(es, q);
    var f, base: nat := q[|q| - 1], |q| - 1;
    var ls := WalkFrom(es, q, 0);
    assert Indented(es, ls, base + 1, Some(f)) by {
      WalkFromIndented(es, q, 0);
    }
    IndentedUnder(es, f, ls, base, up);
  }

  lemma {:induction false} WalkFromIndented(es: Edges, q: seq<Frame>, i: nat)
    requires Path(es, q) && i <= |es|
    ensures Indented(es, WalkFrom(es, q, i), |q|, Some(q[|q| - 1]))
    decreases |es| + 1 - |q|, |es| - i
  {
    PathBound(es, q);
    if i < |es| {
      WalkFromIndented(es, q, i + 1);
      if es[i].parent == q[|q| - 1] {
        PathExtend(es, q, i);
        assert es[i] == Edge(es[i].child, q[|q| - 1]);
        WalkIndented(es, q + [es[i].child], Some(q[|q| - 1]));
        IndentedJoin(es, Walk(es, q + [es[i].child]), WalkFrom(es, q, i + 1), |q|, Some(q[|q| - 1]));
      }
    }
  }

  /** Every indented line's parent in the dictionary is the nearest line above it
      that is indented one step less. */
  lemma {:induction false} RenderIndented(es: Edges, roots: seq<Frame>)
    requires UniqueKeys(es) && forall r | r in roots :: r in Roots(es)
    ensures Indented(es, Render(es, roots), 0, None)
  {
    if roots != [] {
      RootPath(es, roots[0]);
      WalkIndented(es, [roots[0]], None);
      RenderIndented(es, roots[1..]);
      IndentedJoin(es, Walk(es, [roots[0]]), Render(es, roots[1..]), 0, None);
    }
  }
}
