/** The random octree of examples/python/random_octomap_publisher.py over real
    coordinates.  random.random() is a stream of draws; a position in the stream is
    passed in and the position after the last draw used comes out. */
module Octree {

  /** A cube given by its centre and its side. */
  datatype Voxel = Voxel(x: real, y: real, z: real, size: real)

  type Draws = nat -> real

  datatype Params = Params(maxDepth: int, pSplit: real, pOccupied: real, draws: Draws)

  function Sign(bit: nat, q: real): real { if bit == 0 then -q else q }

  /** The i-th child cube in the order of the nested loops over dx, dy, dz. */
  function Octant(v: Voxel, i: nat): Voxel
    requires i < 8
  {
    var q := v.size * 0.25;
    Voxel(v.x + Sign(i / 4, q), v.y + Sign(i / 2 % 2, q), v.z + Sign(i % 2, q), v.size * 0.5)
  }

  /** Levels left below a node. */
  function Levels(ps: Params, depth: nat): nat {
    if depth >= ps.maxDepth then 0 else ps.maxDepth - depth
  }

  /** generate_octree at the cube v, drawing from position k on. */
  function Generate(ps: Params, v: Voxel, depth: nat, k: nat): (seq<Voxel>, nat)
    decreases Levels(ps, depth), 9
  {
    if depth >= ps.maxDepth then (if ps.draws(k) < ps.pOccupied then [v] else [], k + 1)
    else if ps.draws(k) < ps.pSplit then GenerateFrom(ps, v, depth, k + 1, 0)
    else (if ps.draws(k + 1) < ps.pOccupied then [v] else [], k + 2)
  }

  /** The children from the i-th on. */
  function GenerateFrom(ps: Params, v: Voxel, depth: nat, k: nat, i: nat): (seq<Voxel>, nat)
    requires depth < ps.maxDepth && i <= 8
    decreases Levels(ps, depth), 8 - i
  {
    if i == 8 then ([], k)
    else
      var (a, k1) := Generate(ps, Octant(v, i), depth + 1, k);
      var (b, k2) := GenerateFrom(ps, v, depth, k1, i + 1);
      (a + b, k2)
  }

  method GenerateOctree(ps: Params, v: Voxel, depth: nat, k: nat) returns (out: seq<Voxel>, k': nat)
    ensures (out, k') == Generate(ps, v, depth, k)
    decreases Levels(ps, depth), 1
  {
    if depth >= ps.maxDepth {
      if ps.draws(k) < ps.pOccupied {
        return [v], k + 1;
      }
      return [], k + 1;
    }
    if ps.draws(k) < ps.pSplit {
      out, k' := GenerateChildren(ps, v, depth, k + 1);
      return;
    }
    if ps.draws(k + 1) < ps.pOccupied {
      return [v], k + 2;
    }
    return [], k + 2;
  }

  /** The nested loops over dx, dy and dz. */
  method GenerateChildren(ps: Params, v: Voxel, depth: nat, k: nat) returns (out: seq<Voxel>, k': nat)
    requires depth < ps.maxDepth
    ensures (out, k') == GenerateFrom(ps, v, depth, k, 0)
    decreases Levels(ps, depth), 0
  {
    hide Generate, GenerateFrom, Octant, Sign;
    var half, quarter := v.size * 0.5, v.size * 0.25;
    out, k' := [], k;
    ghost var i: nat := 0;
    ghost var all := GenerateFrom(ps, v, depth, k, 0);
    assert [] + all.0 == all.0;
    NoOctants(ps, v, depth);
    for a := 0 to 2
      invariant i == 4 * a && all == Joined(out, GenerateFrom(ps, v, depth, k', i))
    {
      for b := 0 to 2
        invariant i == 4 * a + 2 * b && all == Joined(out, GenerateFrom(ps, v, depth, k', i))
      {
        for c := 0 to 2
          invariant i == 4 * a + 2 * b + c && all == Joined(out, GenerateFrom(ps, v, depth, k', i))
        {
          var child := Voxel(v.x + Sign(a, quarter), v.y + Sign(b, quarter), v.z + Sign(c, quarter), half);
          assert child == Octant(v, i) by { OctantAt(v, i, a, b, c); }
          NextOctant(ps, v, depth, k', i, out, child);
          var part;
          part, k' := GenerateOctree(ps, child, depth + 1, k');
          out := out + part;
          i := i + 1;
        }
      }
    }
    assert out + [] == out;
  }

  lemma NoOctants(ps: Params, v: Voxel, depth: nat)
    requires depth < ps.maxDepth
    ensures forall k: nat :: GenerateFrom(ps, v, depth, k, 8) == ([], k)
  {
  }

  lemma OctantAt(v: Voxel, i: nat, a: nat, b: nat, c: nat)
    requires a < 2 && b < 2 && c < 2 && i == 4 * a + 2 * b + c
    ensures var q := v.size * 0.25;
            Octant(v, i) == Voxel(v.x + Sign(a, q), v.y + Sign(b, q), v.z + Sign(c, q), v.size * 0.5)
  {
    assert i / 4 == a && i / 2 % 2 == b && i % 2 == c;
  }

  /** Generating the i-th child moves it from what is left to what is done. */
  lemma NextOctant(ps: Params, v: Voxel, depth: nat, k: nat, i: nat, out: seq<Voxel>, child: Voxel)
    requires depth < ps.maxDepth && i < 8 && child == Octant(v, i)
    ensures var (a, k1) := Generate(ps, child, depth + 1, k);
            Joined(out, GenerateFrom(ps, v, depth, k, i)) == Joined(out + a, GenerateFrom(ps, v, depth, k1, i + 1))
  {
    var (a, k1) := Generate(ps, Octant(v, i), depth + 1, k);
    JoinedStep(out, a, GenerateFrom(ps, v, depth, k1, i + 1));
  }

  ghost function Joined(out: seq<Voxel>, r: (seq<Voxel>, nat)): (seq<Voxel>, nat) { (out + r.0, r.1) }

  lemma JoinedStep(out: seq<Voxel>, a: seq<Voxel>, r: (seq<Voxel>, nat))
    ensures Joined(out, (a + r.0, r.1)) == Joined(out + a, r)
  {
    assert out + (a + r.0) == (out + a) + r.0;
  }

  // ---- Geometry ----

  function Abs(r: real): real { if r < 0.0 then -r else r }

  predicate Within(a: real, s: real, b: real, t: real) { Abs(a - b) + s / 2.0 <= t / 2.0 }

  /** Cube v lies inside cube w. */
  predicate Inside(v: Voxel, w: Voxel) {
    Within(v.x, v.size, w.x, w.size) && Within(v.y, v.size, w.y, w.size) && Within(v.z, v.size, w.z, w.size)
  }

  predicate Apart(a: real, s: real, b: real, t: real) { Abs(a - b) >= (s + t) / 2.0 }

  /** The interiors of two cubes do not meet: some axis separates them. */
  predicate Separate(v: Voxel, w: Voxel) {
    Apart(v.x, v.size, w.x, w.size) || Apart(v.y, v.size, w.y, w.size) || Apart(v.z, v.size, w.z, w.size)
  }

  /** No point is strictly inside both of two separate cubes. */
  predicate Interior(px: real, py: real, pz: real, v: Voxel) {
    Abs(px - v.x) < v.size / 2.0 && Abs(py - v.y) < v.size / 2.0 && Abs(pz - v.z) < v.size / 2.0
  }

  lemma SeparateMeans(v: Voxel, w: Voxel, px: real, py: real, pz: real)
    requires Separate(v, w) && Interior(px, py, pz, v)
    ensures !Interior(px, py, pz, w)
  {
  }

  predicate AllInside(vs: seq<Voxel>, w: Voxel) {
    forall v | v in vs :: Inside(v, w)
  }

  predicate PairwiseSeparate(vs: seq<Voxel>) {
    forall i, j :: 0 <= i < j < |vs| ==> Separate(vs[i], vs[j])
  }

  function Pow2(k: nat): nat { if k == 0 then 1 else 2 * Pow2(k - 1) }

  /** The side of v is that of w halved at most levels times. */
  ghost predicate Halved(v: Voxel, w: Voxel, levels: nat) {
    exists k: nat :: k <= levels && v.size * (Pow2(k) as real) == w.size
  }

  lemma OctantInside(v: Voxel, u: Voxel, i: nat)
    requires i < 8 && u.size > 0.0 && Inside(v, Octant(u, i))
    ensures Inside(v, u)
  {
  }

  lemma OctantsSeparate(v: Voxel, w: Voxel, u: Voxel, i: nat, j: nat)
    requires i < j < 8 && u.size > 0.0 && Inside(v, Octant(u, i)) && Inside(w, Octant(u, j))
    ensures Separate(v, w)
  {
    OctantSide(v, u, i);
    OctantSide(w, u, j);
  }

  predicate Side(a: real, s: real, c: real, bit: nat) {
    if bit == 0 then a + s / 2.0 <= c else a - s / 2.0 >= c
  }

  /** A cube inside the i-th octant stays on that octant's side of the centre planes. */
  lemma OctantSide(v: Voxel, u: Voxel, i: nat)
    requires i < 8 && Inside(v, Octant(u, i))
    ensures Side(v.x, v.size, u.x, i / 4) && Side(v.y, v.size, u.y, i / 2 % 2) && Side(v.z, v.size, u.z, i % 2)
  {
  }

  lemma HalvedDown(v: Voxel, u: Voxel, i: nat, levels: nat)
    requires i < 8 && Halved(v, Octant(u, i), levels)
    ensures Halved(v, u, levels + 1)
  {
    var k: nat :| k <= levels && v.size * (Pow2(k) as real) == Octant(u, i).size;
    assert Pow2(k + 1) as real == 2.0 * (Pow2(k) as real);
    assert v.size * (Pow2(k + 1) as real) == 2.0 * (v.size * (Pow2(k) as real));
  }

  /** The voxels lie inside the root cube, do not overlap, and have its side halved
      at most max_depth times, for every stream of draws. */
  lemma {:induction false} Shape(ps: Params, v: Voxel, depth: nat, k: nat)
    requires v.size > 0.0
    ensures var out := Generate(ps, v, depth, k).0;
            && AllInside(out, v) && PairwiseSeparate(out) && forall u | u in out :: Halved(u, v, Levels(ps, depth))
    decreases Levels(ps, depth), 9
  {
    if depth < ps.maxDepth && ps.draws(k) < ps.pSplit {
      ShapeFrom(ps, v, depth, k + 1, 0);
    } else {
      assert v.size * (Pow2(0) as real) == v.size;
      assert Halved(v, v, Levels(ps, depth));
    }
  }

  lemma {:induction false} ShapeFrom(ps: Params, v: Voxel, depth: nat, k: nat, i: nat)
    requires v.size > 0.0 && depth < ps.maxDepth && i <= 8
    ensures var out := GenerateFrom(ps, v, depth, k, i).0;
            && PairwiseSeparate(out)
            && forall u | u in out :: Inside(u, v) && Halved(u, v, Levels(ps, depth))
                                      && exists j: nat :: i <= j < 8 && Inside(u, Octant(v, j))
    decreases Levels(ps, depth), 8 - i
  {
    if i < 8 {
      var (a, k1) := Generate(ps, Octant(v, i), depth + 1, k);
      var (b, k2) := GenerateFrom(ps, v, depth, k1, i + 1);
      Shape(ps, Octant(v, i), depth + 1, k);
      ShapeFrom(ps, v, depth, k1, i + 1);
      forall u | u in a ensures Inside(u, v) && Halved(u, v, Levels(ps, depth)) {
        OctantInside(u, v, i);
        HalvedDown(u, v, i, Levels(ps, depth + 1));
      }
      forall x, y | 0 <= x < |a| && 0 <= y < |b| ensures Separate(a[x], b[y]) {
        assert a[x] in a && b[y] in b;
        var j: nat :| i + 1 <= j < 8 && Inside(b[y], Octant(v, j));
        OctantsSeparate(a[x], b[y], v, i, j);
      }
    }
  }

  // ---- Volume ----

  function Cube(s: real): real { s * s * s }

  function Volume(vs: seq<Voxel>): real {
    if vs == [] then 0.0 else Cube(vs[0].size) + Volume(vs[1..])
  }

  lemma {:induction false} VolumeJoin(a: seq<Voxel>, b: seq<Voxel>)
    ensures Volume(a + b) == Volume(a) + Volume(b)
  {
    if a == [] {
      assert a + b == b;
    } else {
      assert (a + b)[1..] == a[1..] + b;
      VolumeJoin(a[1..], b);
    }
  }

  lemma EighthCube(s: real)
    ensures Cube(s) == 8.0 * Cube(s * 0.5)
    ensures s > 0.0 ==> Cube(s) > 0.0
  {
    var h := s * 0.5;
    assert s == 2.0 * h;
    assert s * s == 4.0 * (h * h);
    assert s * s * s == 8.0 * (h * h * h);
    if s > 0.0 {
      assert s * s > 0.0;
    }
  }

  function Times(n: nat, c: real): real { if n == 0 then 0.0 else c + Times(n - 1, c) }

  lemma TimesEight(c: real)
    ensures Times(8, c) == 8.0 * c
  {
    assert Times(1, c) == c + Times(0, c);
    assert Times(2, c) == c + Times(1, c);
    assert Times(4, c) == 2.0 * c + Times(2, c);
    assert Times(6, c) == 2.0 * c + Times(4, c);
    assert Times(8, c) == 2.0 * c + Times(6, c);
  }

  /** Every occupancy draw made below the cube succeeds. */
  predicate AllOccupied(ps: Params, v: Voxel, depth: nat, k: nat)
    decreases Levels(ps, depth), 9
  {
    if depth >= ps.maxDepth then ps.draws(k) < ps.pOccupied
    else if ps.draws(k) < ps.pSplit then AllOccupiedFrom(ps, v, depth, k + 1, 0)
    else ps.draws(k + 1) < ps.pOccupied
  }

  predicate AllOccupiedFrom(ps: Params, v: Voxel, depth: nat, k: nat, i: nat)
    requires depth < ps.maxDepth && i <= 8
    decreases Levels(ps, depth), 8 - i
  {
    i < 8 ==>
      && AllOccupied(ps, Octant(v, i), depth + 1, k)
      && AllOccupiedFrom(ps, v, depth, Generate(ps, Octant(v, i), depth + 1, k).1, i + 1)
  }

  /** The voxels take up at most the root's volume, and all of it exactly when every
      occupancy draw succeeds. */
  lemma {:induction false} VolumeExactly(ps: Params, v: Voxel, depth: nat, k: nat)
    requires v.size > 0.0
    ensures var vol := Volume(Generate(ps, v, depth, k).0);
            0.0 <= vol <= Cube(v.size) && (vol == Cube(v.size) <==> AllOccupied(ps, v, depth, k))
    decreases Levels(ps, depth), 9
  {
    EighthCube(v.size);
    if depth < ps.maxDepth && ps.draws(k) < ps.pSplit {
      VolumeFrom(ps, v, depth, k + 1, 0);
      TimesEight(Cube(v.size * 0.5));
    } else {
      assert Volume([v]) == Cube(v.size) + Volume([]);
    }
  }

  lemma {:induction false} VolumeFrom(ps: Params, v: Voxel, depth: nat, k: nat, i: nat)
    requires v.size > 0.0 && depth < ps.maxDepth && i <= 8
    ensures var vol := Volume(GenerateFrom(ps, v, depth, k, i).0); var full := Times(8 - i, Cube(v.size * 0.5));
            0.0 <= vol <= full && (vol == full <==> AllOccupiedFrom(ps, v, depth, k, i))
    decreases Levels(ps, depth), 8 - i
  {
    if i < 8 {
      var (a, k1) := Generate(ps, Octant(v, i), depth + 1, k);
      var (b, k2) := GenerateFrom(ps, v, depth, k1, i + 1);
      VolumeExactly(ps, Octant(v, i), depth + 1, k);
      VolumeFrom(ps, v, depth, k1, i + 1);
      VolumeJoin(a, b);
    }
  }
}
