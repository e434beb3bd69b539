/** The random octree as a tree written down in the stream of draws: which draws a node
    takes, and which voxels come of it. */
module OctreeDraws {
  import opened Octree

  /** What the draws make of a cube: a leaf at the greatest depth, which takes one draw,
      a leaf above it, which takes two, or eight children. */
  datatype Tree = Bottom(occupied: bool) | Early(occupied: bool) | Split(kids: seq<Tree>)

  /** One draw per split and per leaf at the greatest depth, two per leaf above it. */
  function Used(t: Tree): nat {
    match t
    case Bottom(_) => 1
    case Early(_) => 2
    case Split(ts) => 1 + UsedAll(ts)
  }

  function UsedAll(ts: seq<Tree>): nat {
    if ts == [] then 0 else Used(ts[0]) + UsedAll(ts[1..])
  }

  /** The draws from position k on describe t, each node before its children and the
      children one after the other. */
  predicate Describes(ps: Params, t: Tree, depth: nat, k: nat) {
    match t
    case Bottom(o) => depth >= ps.maxDepth && (o <==> ps.draws(k) < ps.pOccupied)
    case Early(o) => depth < ps.maxDepth && ps.draws(k) >= ps.pSplit && (o <==> ps.draws(k + 1) < ps.pOccupied)
    case Split(ts) =>
      depth < ps.maxDepth && ps.draws(k) < ps.pSplit && |ts| == 8 && DescribesAll(ps, ts, depth + 1, k + 1)
  }

  predicate DescribesAll(ps: Params, ts: seq<Tree>, depth: nat, k: nat) {
    ts != [] ==> Describes(ps, ts[0], depth, k) && DescribesAll(ps, ts[1..], depth, k + Used(ts[0]))
  }

  /** The cubes of the occupied leaves; the last |ts| children of v are those of ts. */
  function Occupied(t: Tree, v: Voxel): seq<Voxel> {
    match t
    case Bottom(o) => if o then [v] else []
    case Early(o) => if o then [v] else []
    case Split(ts) => if |ts| == 8 then OccupiedFrom(ts, v) else []
  }

  function OccupiedFrom(ts: seq<Tree>, v: Voxel): seq<Voxel>
    requires |ts| <= 8
  {
    if ts == [] then [] else Occupied(ts[0], Octant(v, 8 - |ts|)) + OccupiedFrom(ts[1..], v)
  }

  predicate NoneEmpty(t: Tree) {
    match t
    case Bottom(o) => o
    case Early(o) => o
    case Split(ts) => forall u | u in ts :: NoneEmpty(u)
  }

  /** Generating reads the tree that the draws describe: its voxels are the occupied
      leaves in order, and it takes the draws of its nodes and no others. */
  lemma {:induction false} GenerateExactly(ps: Params, v: Voxel, t: Tree, depth: nat, k: nat)
    requires Describes(ps, t, depth, k)
    ensures Generate(ps, v, depth, k) == (Occupied(t, v), k + Used(t))
    decreases t, 9
  {
    match t
    case Bottom(_) =>
    case Early(_) =>
    case Split(ts) => FromExactly(ps, v, ts, depth, k + 1);
  }

  lemma {:induction false} FromExactly(ps: Params, v: Voxel, ts: seq<Tree>, depth: nat, k: nat)
    requires depth < ps.maxDepth && |ts| <= 8 && DescribesAll(ps, ts, depth + 1, k)
    ensures GenerateFrom(ps, v, depth, k, 8 - |ts|) == (OccupiedFrom(ts, v), k + UsedAll(ts))
    decreases ts, |ts|
  {
    if ts != [] {
      GenerateExactly(ps, Octant(v, 8 - |ts|), ts[0], depth + 1, k);
      FromExactly(ps, v, ts[1..], depth, k + Used(ts[0]));
    }
  }

  /** The draws describe a tree from every position on ... */
  lemma {:induction false} SomeTree(ps: Params, depth: nat, k: nat) returns (t: Tree)
    ensures Describes(ps, t, depth, k)
    decreases Levels(ps, depth), 9
  {
    if depth >= ps.maxDepth {
      t := Bottom(ps.draws(k) < ps.pOccupied);
    } else if ps.draws(k) < ps.pSplit {
      var ts := SomeTrees(ps, depth, k + 1, 8);
      t := Split(ts);
    } else {
      t := Early(ps.draws(k + 1) < ps.pOccupied);
    }
  }

  lemma {:induction false} SomeTrees(ps: Params, depth: nat, k: nat, n: nat) returns (ts: seq<Tree>)
    requires depth < ps.maxDepth && n <= 8
    ensures |ts| == n && DescribesAll(ps, ts, depth + 1, k)
    decreases Levels(ps, depth), n
  {
    ts := [];
    if n > 0 {
      var t := SomeTree(ps, depth + 1, k);
      var rest := SomeTrees(ps, depth, k + Used(t), n - 1);
      ts := [t] + rest;
      assert ts[1..] == rest;
    }
  }

  /** ... and only one. */
  lemma {:induction false} OneTree(ps: Params, t: Tree, u: Tree, depth: nat, k: nat)
    requires Describes(ps, t, depth, k) && Describes(ps, u, depth, k)
    ensures t == u
    decreases t, 9
  {
    if t.Split? {
      AllOne(ps, t.kids, u.kids, depth + 1, k + 1);
    }
  }

  lemma {:induction false} AllOne(ps: Params, ts: seq<Tree>, us: seq<Tree>, depth: nat, k: nat)
    requires |ts| == |us| && DescribesAll(ps, ts, depth, k) && DescribesAll(ps, us, depth, k)
    ensures ts == us
    decreases ts, |ts|
  {
    if ts != [] {
      OneTree(ps, ts[0], us[0], depth, k);
      AllOne(ps, ts[1..], us[1..], depth, k + Used(ts[0]));
      assert ts == [ts[0]] + ts[1..] && us == [us[0]] + us[1..];
    }
  }

  /** Every occupancy draw succeeds exactly when no leaf is empty: then, and only then,
      the voxels fill the root cube. */
  lemma FullExactly(ps: Params, v: Voxel, t: Tree, depth: nat, k: nat)
    requires v.size > 0.0 && Describes(ps, t, depth, k)
    ensures Volume(Occupied(t, v)) == Cube(v.size) <==> NoneEmpty(t)
  {
    GenerateExactly(ps, v, t, depth, k);
    VolumeExactly(ps, v, depth, k);
    OccupiedDraws(ps, v, t, depth, k);
  }

  lemma {:induction false} OccupiedDraws(ps: Params, v: Voxel, t: Tree, depth: nat, k: nat)
    requires Describes(ps, t, depth, k)
    ensures AllOccupied(ps, v, depth, k) <==> NoneEmpty(t)
    decreases t, 9
  {
    match t
    case Bottom(_) =>
    case Early(_) =>
    case Split(ts) => OccupiedFromDraws(ps, v, ts, depth, k + 1);
  }

  lemma {:induction false} OccupiedFromDraws(ps: Params, v: Voxel, ts: seq<Tree>, depth: nat, k: nat)
    requires depth < ps.maxDepth && |ts| <= 8 && DescribesAll(ps, ts, depth + 1, k)
    ensures AllOccupiedFrom(ps, v, depth, k, 8 - |ts|) <==> forall u | u in ts :: NoneEmpty(u)
    decreases ts, |ts|
  {
    if ts != [] {
      var c := Octant(v, 8 - |ts|);
      OccupiedDraws(ps, c, ts[0], depth + 1, k);
      GenerateExactly(ps, c, ts[0], depth + 1, k);
      OccupiedFromDraws(ps, v, ts[1..], depth, k + Used(ts[0]));
      assert ts == [ts[0]] + ts[1..];
    }
  }
}
