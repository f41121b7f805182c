/**
  The manager's constructor: a fresh arena with `1024 + num_vars` free
  nodes, the value nodes `0` and `1`, one pinned placeholder node per
  operation code and the first `num_vars` variables in their natural order.
 */
module PddInit {
  import opened PddNode
  import opened PddSpec
  import opened PddState
  import opened PddOps
  import opened PddBuild

  /** The free nodes allocated by the constructor beyond one per variable. */
  const SpareNodes: nat := 1024

  /** A manager with no nodes, values, variables or cache entries. */
  function Empty(): (a: Arena)
    ensures a.nodes == [] && a.free == [] && a.values == [] && a.freeVals == [] && a.mpq == map[] && a.table == map[]
    ensures a.cache == map[] && a.stack == [] && a.mark == [] && a.markLevel == 0 && a.v2l == [] && a.l2v == [] && a.v2p == []
  {
    Arena([], [], map[], [], map[], [], 0.0, map[], false, [], [], 0, [], [], [], false, false, false)
  }

  /** `init_value(r)` while the arena still has free nodes and the value pool
      has no free slot: `r` takes the next slot of the pool and a value node
      for it is taken from the back of the free list. */
  function FirstValue(a: Arena, r: real): (a2: Arena)
    requires a.free != [] && a.freeVals == []
    ensures var id := a.free[|a.free| - 1];
      |a2.nodes| == |a.nodes| && a2.values == a.values + [r] && a2.free == a.free[..|a.free| - 1] &&
      r in a2.mpq && a2.mpq[r] == ConstInfo(|a.values|, id) &&
      (id < |a.nodes| ==> a2.nodes[id] == Node(0, 0, |a.values|, 0, id))
  {
    var vi, id := |a.values|, a.free[|a.free| - 1];
    a.(values := a.values + [r], freeze := r,
       nodes := if id < |a.nodes| then a.nodes[id := Node(0, 0, vi, 0, id)] else a.nodes,
       free := a.free[..|a.free| - 1],
       table := a.table[Shape(0, vi, 0) := id],
       mpq := a.mpq[r := ConstInfo(vi, id)], isNew := true)
  }

  /** The constructor up to the variables: `alloc_free_nodes(1024 + num_vars)`,
      `init_value(0)` and `init_value(1)` (which take nodes 0 and 1 from the
      back of the free list), both pinned at the maximal reference count, and
      then one pinned blank placeholder per operation code appended. */
  method Start(numVars: nat) returns (a: Arena, ghost rk: seq<nat>)
    ensures Valid(a, rk)
    ensures var n := SpareNodes + numVars;
      |a.nodes| == n + NoOp + 1 &&
      (forall i | 2 <= i < n :: a.nodes[i] == Node(0, 0, 0, 0, i)) &&
      (forall i | n <= i < |a.nodes| :: a.nodes[i] == Node(MaxRc, 0, 0, 0, i)) &&
      |a.free| == n - 2 && (forall k | 0 <= k < |a.free| :: a.free[k] == n - 1 - k)
    ensures a.values == [0.0, 1.0] && a.freeVals == [] && a.freeze == 1.0
    ensures a.mpq == map[0.0 := ConstInfo(0, 0), 1.0 := ConstInfo(1, 1)]
    ensures a.table == map[Shape(0, 0, 0) := 0, Shape(0, 1, 0) := 1]
    ensures a.cache == map[] && !a.spare && a.stack == [] && a.mark == [] && a.markLevel == 0
    ensures a.v2l == [] && a.l2v == [] && a.v2p == []
    ensures !a.mod2 && !a.disableGc && a.isNew
  {
    var n := SpareNodes + numVars;
    a := Seeded(n);
    a, rk := AddOpNodes(a, n);
    StartValid(a, rk, n);
  }

  /** `alloc_free_nodes(n)`, `init_value(0)` and `init_value(1)`, both
      values pinned. */
  method Seeded(n: nat) returns (a: Arena)
    requires n >= 2
    ensures |a.nodes| == n && a.nodes[0] == Node(MaxRc, 0, 0, 0, 0) && a.nodes[1] == Node(MaxRc, 0, 1, 0, 1)
    ensures forall i | 2 <= i < n :: a.nodes[i] == Node(0, 0, 0, 0, i)
    ensures |a.free| == n - 2 && (forall k | 0 <= k < |a.free| :: a.free[k] == n - 1 - k)
    ensures a.values == [0.0, 1.0] && a.freeVals == [] && a.freeze == 1.0
    ensures a.mpq == map[0.0 := ConstInfo(0, 0), 1.0 := ConstInfo(1, 1)]
    ensures a.table == map[Shape(0, 0, 0) := 0, Shape(0, 1, 0) := 1]
    ensures a.cache == map[] && !a.spare && a.stack == [] && a.mark == [] && a.markLevel == 0
    ensures a.v2l == [] && a.l2v == [] && a.v2p == []
    ensures !a.mod2 && !a.disableGc && a.isNew
  {
    a := Grown(Empty(), n);
    GrownEmpty(n);
    a := FirstValue(a, 0.0);
    a := FirstValue(a, 1.0);
    a := a.(nodes := a.nodes[0 := a.nodes[0].(refcount := MaxRc)]);
    a := a.(nodes := a.nodes[1 := a.nodes[1].(refcount := MaxRc)]);
    assert a.table == map[Shape(0, 0, 0) := 0, Shape(0, 1, 0) := 1];
    assert a.mpq == map[0.0 := ConstInfo(0, 0), 1.0 := ConstInfo(1, 1)];
  }

  /** `alloc_free_nodes(n)` on an empty manager: blank nodes `0 .. n-1`, listed from `n-1` down. */
  lemma GrownEmpty(n: nat)
    ensures var a := Grown(Empty(), n);
      |a.nodes| == n && |a.free| == n && a.freeVals == [] && a.values == [] &&
      a.table == map[] && a.mpq == map[] &&
      (forall k | 0 <= k < n :: a.free[k] == n - 1 - k && a.nodes[k] == Node(0, 0, 0, 0, k))
  {
    assert [] + Indices(0, n) == Indices(0, n) && [] + Blanks(0, n) == Blanks(0, n);
    ReverseIndex(Indices(0, n));
  }

  /** The placeholder nodes for the operation codes `2 .. pdd_no_op`, appended
      after the free nodes with the maximal reference count. */
  method AddOpNodes(a: Arena, n: nat) returns (a2: Arena, ghost rk: seq<nat>)
    requires n >= 2 && |a.nodes| == n
    requires forall i | 2 <= i < n :: a.nodes[i] == Node(0, 0, 0, 0, i)
    ensures a2 == a.(nodes := a2.nodes) && |a2.nodes| == n + NoOp + 1 && |rk| == |a2.nodes|
    ensures forall i | 0 <= i < n :: a2.nodes[i] == a.nodes[i]
    ensures forall i | n <= i < |a2.nodes| :: a2.nodes[i] == Node(MaxRc, 0, 0, 0, i)
    ensures rk[0] == 0 && rk[1] == 0 && forall j | 2 <= j < |rk| :: rk[j] == 1
  {
    a2 := a;
    rk := [0, 0] + seq(n - 2, _ => 1);
    for i := 2 to NoOp + 3
      invariant a2 == a.(nodes := a2.nodes) && |a2.nodes| == n + i - 2 && |rk| == |a2.nodes|
      invariant forall j | 0 <= j < n :: a2.nodes[j] == a.nodes[j]
      invariant forall j | n <= j < |a2.nodes| :: a2.nodes[j] == Node(MaxRc, 0, 0, 0, j)
      invariant rk[0] == 0 && rk[1] == 0 && forall j | 2 <= j < |rk| :: rk[j] == 1
    {
      a2 := a2.(nodes := a2.nodes + [Node(MaxRc, 0, 0, 0, |a2.nodes|)]);
      rk := rk + [1];
    }
  }

  /** The state `Start` describes satisfies the manager's invariant. */
  lemma StartValid(a: Arena, rk: seq<nat>, n: nat)
    requires n >= 2 && |a.nodes| >= n && |rk| == |a.nodes|
    requires a.nodes[0] == Node(MaxRc, 0, 0, 0, 0) && a.nodes[1] == Node(MaxRc, 0, 1, 0, 1)
    requires forall i | 2 <= i < n :: a.nodes[i] == Node(0, 0, 0, 0, i)
    requires forall i | n <= i < |a.nodes| :: a.nodes[i] == Node(MaxRc, 0, 0, 0, i)
    requires rk[0] == 0 && rk[1] == 0 && forall j | 2 <= j < |rk| :: rk[j] == 1
    requires |a.free| == n - 2 && forall k | 0 <= k < |a.free| :: a.free[k] == n - 1 - k
    requires a.values == [0.0, 1.0] && a.freeVals == []
    requires a.mpq == map[0.0 := ConstInfo(0, 0), 1.0 := ConstInfo(1, 1)]
    requires a.table == map[Shape(0, 0, 0) := 0, Shape(0, 1, 0) := 1]
    requires a.cache == map[] && a.stack == [] && a.mark == [] && a.markLevel == 0
    requires a.v2l == [] && a.l2v == [] && a.v2p == []
    ensures Valid(a, rk)
  {
    StartNodes(a.nodes, rk, n);
    StartFree(a.nodes, a.free, n);
    StartValues(a.nodes, a.values, a.mpq, n);
    assert TableOkOf(a.nodes, a.table) && CanonOf(a.nodes, a.table) && TableFreeOf(a.table, a.free);
    assert CoreOf(a.nodes, rk, a.free, a.table, a.values, a.mpq, a.freeVals, a.freeze, a.cache, a.stack,
                  a.mark, a.markLevel, a.v2l, a.l2v, a.v2p);
  }

  lemma StartNodes(ns: seq<Node>, rk: seq<nat>, n: nat)
    requires n >= 2 && |ns| >= n && |rk| == |ns|
    requires ns[0] == Node(MaxRc, 0, 0, 0, 0) && ns[1] == Node(MaxRc, 0, 1, 0, 1)
    requires forall i | 2 <= i < n :: ns[i] == Node(0, 0, 0, 0, i)
    requires forall i | n <= i < |ns| :: ns[i] == Node(MaxRc, 0, 0, 0, i)
    requires rk[0] == 0 && rk[1] == 0 && forall j | 2 <= j < |rk| :: rk[j] == 1
    ensures NodesOkOf(ns, rk) && LevelsBelowOf(ns, 0)
    ensures forall i | 2 <= i < |ns| :: IsInternal(ns[i]) && !IsValNode(ns[i])
  {
    assert forall i | 2 <= i < |ns| :: ns[i].lo == 0 && ns[i].hi == 0 && ns[i].index == i;
  }

  lemma StartFree(ns: seq<Node>, free: seq<nat>, n: nat)
    requires n >= 2 && |ns| >= n
    requires forall i | 2 <= i < n :: ns[i] == Node(0, 0, 0, 0, i)
    requires |free| == n - 2 && forall k | 0 <= k < |free| :: free[k] == n - 1 - k
    ensures FreeOkOf(ns, free) && 0 !in free && 1 !in free
  {
  }

  lemma StartValues(ns: seq<Node>, values: seq<real>, mpq: map<real, ConstInfo>, n: nat)
    requires n >= 2 && |ns| >= n
    requires ns[0] == Node(MaxRc, 0, 0, 0, 0) && ns[1] == Node(MaxRc, 0, 1, 0, 1)
    requires forall i | 2 <= i < |ns| :: IsInternal(ns[i]) && !IsValNode(ns[i])
    requires values == [0.0, 1.0] && mpq == map[0.0 := ConstInfo(0, 0), 1.0 := ConstInfo(1, 1)]
    ensures forall freeze: real :: ValuesOkOf(ns, values, mpq, [], freeze)
    ensures StrictValuesOf(ns, values, mpq)
  {
    assert forall i | 0 <= i < |ns| && IsValNode(ns[i]) :: i < 2;
  }

  /** `pdd_manager(num_vars)`: `Start`, then `reserve_var(i)` for every
      `i < num_vars`, which gives variable `i` level `i`. None of these
      reservations can run out of memory: the free list holds
      `SpareNodes + num_vars - 2` nodes and each one takes at most one. */
  method Init(numVars: nat) returns (a: Arena, ghost rk: seq<nat>)
    ensures Valid(a, rk)
    ensures |a.v2l| == numVars
    ensures forall v | 0 <= v < |a.v2l| :: a.v2l[v] == v && a.l2v[v] == v
    ensures forall v | 0 <= v < |a.v2p| :: ShapeOf(a.nodes[a.v2p[v]]) == Shape(v, ZeroPdd, OnePdd)
    ensures a.values == [0.0, 1.0] && a.stack == [] && a.mark == [] && a.markLevel == 0
    ensures !a.mod2 && !a.disableGc
  {
    a, rk := Start(numVars);
    for i := 0 to numVars
      invariant Valid(a, rk) && |a.v2l| == i
      invariant |a.free| + |a.v2l| >= SpareNodes + numVars - 2
      invariant forall v | 0 <= v < |a.v2l| :: a.v2l[v] == v && a.l2v[v] == v
      invariant a.values == [0.0, 1.0] && a.stack == [] && a.mark == [] && a.markLevel == 0
      invariant !a.mod2 && !a.disableGc
    {
      var a1, rk1, ok1 := ReserveVar(a, rk, i);
      a, rk := a1, rk1;
    }
    assert VarsOkOf(a.nodes, a.v2l, a.l2v, a.v2p);
  }
}
