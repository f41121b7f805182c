/**
  The phases of the garbage collector `gc`, over plain values: marking from
  the roots, sweeping the unmarked nodes onto the free list, and rebuilding
  the unique table from the marked nodes.
 */
module PddGc {
  import opened PddNode
  import opened PddSpec
  import opened PddState

  function MarkedSet(reachable: seq<bool>): set<nat>
  {
    set y | 0 <= y < |reachable| && reachable[y]
  }

  /** The first two loops of `gc`: every id on the stack, then every node from
      index 2 on with a positive reference count, is marked and put on the
      worklist. `bound` is any set holding the roots. */
  method MarkRoots(ns: seq<Node>, stack: seq<nat>, ghost bound: set<nat>) returns (reachable: seq<bool>, todo: seq<nat>)
    requires forall k | 0 <= k < |stack| :: stack[k] < |ns|
    requires Roots(ns, stack) <= bound
    ensures |reachable| == |ns|
    ensures forall y | 0 <= y < |ns| && reachable[y] :: y in bound && y in todo
    ensures forall t | 0 <= t < |todo| :: todo[t] < |ns| && reachable[todo[t]]
    ensures Roots(ns, stack) <= MarkedSet(reachable)
  {
    reachable := seq(|ns|, _ => false);
    todo := [];
    var i := |stack|;
    while i > 0
      invariant 0 <= i <= |stack| && |reachable| == |ns|
      invariant forall y | 0 <= y < |ns| && reachable[y] :: y in bound && y in todo
      invariant forall t | 0 <= t < |todo| :: todo[t] < |ns| && reachable[todo[t]]
      invariant forall j | i <= j < |stack| :: reachable[stack[j]]
    {
      i := i - 1;
      var x := stack[i];
      assert x in Roots(ns, stack);
      reachable := reachable[x := true];
      todo := todo + [x];
    }
    i := |ns|;
    while i > 2
      invariant 2 <= i <= |ns| || (i == |ns| && |ns| < 2)
      invariant |reachable| == |ns|
      invariant forall y | 0 <= y < |ns| && reachable[y] :: y in bound && y in todo
      invariant forall t | 0 <= t < |todo| :: todo[t] < |ns| && reachable[todo[t]]
      invariant forall j | 0 <= j < |stack| :: reachable[stack[j]]
      invariant forall j | i <= j < |ns| && 2 <= j && ns[j].refcount > 0 :: reachable[j]
    {
      i := i - 1;
      if ns[i].refcount > 0 {
        assert i in Roots(ns, stack);
        reachable := reachable[i := true];
        todo := todo + [i];
      }
    }
    forall r | r in Roots(ns, stack) ensures r in MarkedSet(reachable) {
      if r in stack {
        var j :| 0 <= j < |stack| && stack[j] == r;
      }
    }
  }

  /** The worklist loop of `gc`: marks the children of every marked node.
      When it ends the marked set is closed; it never leaves a closed `bound`. */
  method Propagate(ns: seq<Node>, ghost rank: seq<nat>, reachable0: seq<bool>, todo0: seq<nat>, ghost bound: set<nat>)
    returns (reachable: seq<bool>)
    requires Ranked(ns, rank) && |reachable0| == |ns| && Closed(ns, bound)
    requires forall y | 0 <= y < |ns| && reachable0[y] :: y in bound && y in todo0
    requires forall t | 0 <= t < |todo0| :: todo0[t] < |ns| && reachable0[todo0[t]]
    ensures |reachable| == |ns|
    ensures MarkedSet(reachable0) <= MarkedSet(reachable) <= bound
    ensures Closed(ns, MarkedSet(reachable))
  {
    reachable := reachable0;
    var todo: seq<nat> := todo0;
    while todo != []
      invariant Propagating(ns, rank, reachable0, reachable, todo, bound)
      decreases Unmarked(reachable), |todo|
    {
      reachable, todo := PropagateStep(ns, rank, reachable0, reachable, todo, bound);
    }
  }

  /** The ids not marked yet. */
  ghost function Unmarked(reachable: seq<bool>): set<nat>
  {
    set y | 0 <= y < |reachable| && !reachable[y]
  }

  /** The invariant of the mark loop: the marks grow within `bound`, the work
      list holds marked ids, and every marked node off the list has its
      children marked. */
  ghost predicate Propagating(ns: seq<Node>, rank: seq<nat>, reachable0: seq<bool>, reachable: seq<bool>, todo: seq<nat>,
                              bound: set<nat>)
    requires Ranked(ns, rank)
  {
    |reachable| == |ns| &&
    MarkedSet(reachable0) <= MarkedSet(reachable) <= bound &&
    (forall t | 0 <= t < |todo| :: todo[t] < |ns| && reachable[todo[t]]) &&
    (forall y | 0 <= y < |ns| && reachable[y] && !IsValNode(ns[y]) && y !in todo ::
      reachable[ns[y].lo] && reachable[ns[y].hi])
  }

  /** One pass of the mark loop: the id on top of the list is popped and
      its unmarked children are marked and pushed. */
  method PropagateStep(ns: seq<Node>, ghost rank: seq<nat>, ghost reachable0: seq<bool>, reachable: seq<bool>, todo: seq<nat>,
                       ghost bound: set<nat>)
    returns (reachable2: seq<bool>, todo2: seq<nat>)
    requires Ranked(ns, rank) && Closed(ns, bound) && todo != [] && Propagating(ns, rank, reachable0, reachable, todo, bound)
    ensures Propagating(ns, rank, reachable0, reachable2, todo2, bound)
    ensures Unmarked(reachable2) < Unmarked(reachable) || (Unmarked(reachable2) == Unmarked(reachable) && |todo2| < |todo|)
  {
    var p: nat := todo[|todo| - 1];
    var rest := todo[..|todo| - 1];
    assert todo == rest + [p];
    if IsVal(ns, p) {
      return reachable, rest;
    }
    assert p in MarkedSet(reachable);
    var l, h := ns[p].lo, ns[p].hi;
    reachable2, todo2 := reachable, rest;
    if !reachable[l] {
      MarkOne(reachable2, l);
      reachable2, todo2 := reachable2[l := true], todo2 + [l];
    }
    if !reachable2[h] {
      MarkOne(reachable2, h);
      reachable2, todo2 := reachable2[h := true], todo2 + [h];
    }
  }

  /** Marking an unmarked id moves it from the unmarked to the marked ids. */
  lemma MarkOne(reachable: seq<bool>, x: nat)
    requires x < |reachable| && !reachable[x]
    ensures MarkedSet(reachable[x := true]) == MarkedSet(reachable) + {x}
    ensures Unmarked(reachable[x := true]) == Unmarked(reachable) - {x} && x in Unmarked(reachable)
  {
    var r2 := reachable[x := true];
    assert forall y | 0 <= y < |r2| :: r2[y] <==> reachable[y] || y == x;
  }

  /** The whole mark phase: the marked ids are exactly the protected set. */
  method MarkReachable(ns: seq<Node>, ghost rank: seq<nat>, stack: seq<nat>) returns (reachable: seq<bool>)
    requires Ranked(ns, rank) && forall k | 0 <= k < |stack| :: stack[k] < |ns|
    ensures |reachable| == |ns|
    ensures forall i | 0 <= i < |ns| :: reachable[i] <==> i in Protected(ns, rank, stack)
    ensures forall i | i in Protected(ns, rank, stack) :: i < |ns| && reachable[i]
    ensures MarksClosed(ns, reachable) && MarksRoots(ns, stack, reachable)
  {
    ghost var P := Protected(ns, rank, stack);
    ProtectedFacts(ns, rank, stack);
    var todo;
    reachable, todo := MarkRoots(ns, stack, P);
    var roots := reachable;
    reachable := Propagate(ns, rank, reachable, todo, P);
    ProtectedLeast(ns, rank, stack, MarkedSet(reachable));
    forall i | 0 <= i < |ns| ensures reachable[i] <==> i in P {
      if reachable[i] {
        assert i in MarkedSet(reachable);
      } else {
        assert i !in MarkedSet(reachable);
      }
    }
    forall k | 0 <= k < |stack| ensures reachable[stack[k]] {
      assert stack[k] in Roots(ns, stack);
    }
    forall i | 2 <= i < |ns| && ns[i].refcount > 0 ensures reachable[i] {
      assert i in Roots(ns, stack);
    }
  }

  /** An unmarked value node holding the freeze value is not reclaimed. */
  predicate Frozen(ns: seq<Node>, values: seq<real>, freeze: real, i: nat)
    requires i < |ns|
  {
    IsValNode(ns[i]) && ns[i].lo < |values| && values[ns[i].lo] == freeze
  }

  /** The sweep reclaims every unmarked node from index 2 on, except frozen values. */
  predicate Reclaimed(ns: seq<Node>, values: seq<real>, freeze: real, reachable: seq<bool>, i: nat)
    requires i < |ns| && |reachable| == |ns|
  {
    2 <= i && !reachable[i] && !Frozen(ns, values, freeze, i)
  }

  // The sweep's progress after it has visited every index from `i` up.

  ghost predicate NodesSwept(ns: seq<Node>, values: seq<real>, freeze: real, reachable: seq<bool>, i: nat, ns2: seq<Node>)
    requires |reachable| == |ns|
  {
    |ns2| == |ns| &&
    forall j | 0 <= j < |ns| ::
      ns2[j] == if i <= j && Reclaimed(ns, values, freeze, reachable, j) then SetInternal(ns[j]) else ns[j]
  }

  ghost predicate FreeSwept(ns: seq<Node>, values: seq<real>, freeze: real, reachable: seq<bool>, i: nat, free: seq<nat>)
    requires |reachable| == |ns|
  {
    (forall k | 0 <= k < |free| :: i <= free[k] < |ns| && Reclaimed(ns, values, freeze, reachable, free[k])) &&
    (forall j | i <= j < |ns| && Reclaimed(ns, values, freeze, reachable, j) :: j in free) &&
    (forall a, b | 0 <= a < b < |free| :: free[a] > free[b])
  }

  ghost predicate MpqSwept(ns: seq<Node>, values: seq<real>, freeze: real, reachable: seq<bool>, i: nat,
                           mpq: map<real, ConstInfo>, mpq2: map<real, ConstInfo>)
    requires |reachable| == |ns|
  {
    (forall r :: r in mpq2 <==>
      r in mpq && !(i <= mpq[r].nodeIndex < |ns| && Reclaimed(ns, values, freeze, reachable, mpq[r].nodeIndex))) &&
    (forall r | r in mpq2 :: mpq2[r] == mpq[r])
  }

  ghost predicate SlotsSwept(ns: seq<Node>, values: seq<real>, freeze: real, reachable: seq<bool>, i: nat,
                             freeVals: seq<nat>, freeVals2: seq<nat>, owners: seq<nat>)
    requires |reachable| == |ns|
  {
    |freeVals2| == |freeVals| + |owners| && freeVals2[..|freeVals|] == freeVals &&
    (forall k | 0 <= k < |owners| ::
      i <= owners[k] < |ns| && IsValNode(ns[owners[k]]) && Reclaimed(ns, values, freeze, reachable, owners[k]) &&
      freeVals2[|freeVals| + k] == ns[owners[k]].lo) &&
    (forall a, b | 0 <= a < b < |owners| :: owners[a] > owners[b]) &&
    (forall j | i <= j < |ns| && IsValNode(ns[j]) && Reclaimed(ns, values, freeze, reachable, j) :: j in owners)
  }

  /** A visited index that is not reclaimed changes nothing. */
  lemma SweepKeep(ns: seq<Node>, values: seq<real>, mpq: map<real, ConstInfo>, freeVals: seq<nat>, freeze: real,
                  reachable: seq<bool>, i: nat, ns2: seq<Node>, free: seq<nat>, freeVals2: seq<nat>,
                  mpq2: map<real, ConstInfo>, owners: seq<nat>)
    requires |reachable| == |ns| && 1 <= i <= |ns|
    requires ValueTableOk(ns, values, mpq) && !Reclaimed(ns, values, freeze, reachable, i - 1)
    requires NodesSwept(ns, values, freeze, reachable, i, ns2) && FreeSwept(ns, values, freeze, reachable, i, free)
    requires MpqSwept(ns, values, freeze, reachable, i, mpq, mpq2)
    requires SlotsSwept(ns, values, freeze, reachable, i, freeVals, freeVals2, owners)
    ensures NodesSwept(ns, values, freeze, reachable, i - 1, ns2) && FreeSwept(ns, values, freeze, reachable, i - 1, free)
    ensures MpqSwept(ns, values, freeze, reachable, i - 1, mpq, mpq2)
    ensures SlotsSwept(ns, values, freeze, reachable, i - 1, freeVals, freeVals2, owners)
  {
  }

  /** Reclaiming an internal node: it is blanked and pushed on the free list. */
  lemma SweepInternal(ns: seq<Node>, values: seq<real>, mpq: map<real, ConstInfo>, freeVals: seq<nat>, freeze: real,
                      reachable: seq<bool>, i: nat, ns2: seq<Node>, free: seq<nat>, freeVals2: seq<nat>,
                      mpq2: map<real, ConstInfo>, owners: seq<nat>)
    requires |reachable| == |ns| && 1 <= i <= |ns|
    requires ValueTableOk(ns, values, mpq) && Reclaimed(ns, values, freeze, reachable, i - 1) && !IsValNode(ns[i - 1])
    requires NodesSwept(ns, values, freeze, reachable, i, ns2) && FreeSwept(ns, values, freeze, reachable, i, free)
    requires MpqSwept(ns, values, freeze, reachable, i, mpq, mpq2)
    requires SlotsSwept(ns, values, freeze, reachable, i, freeVals, freeVals2, owners)
    ensures NodesSwept(ns, values, freeze, reachable, i - 1, ns2[i - 1 := SetInternal(ns2[i - 1])])
    ensures FreeSwept(ns, values, freeze, reachable, i - 1, free + [i - 1])
    ensures MpqSwept(ns, values, freeze, reachable, i - 1, mpq, mpq2)
    ensures SlotsSwept(ns, values, freeze, reachable, i - 1, freeVals, freeVals2, owners)
  {
  }

  /** Reclaiming a value node: its slot joins the value pool and its rational leaves the value table. */
  lemma SweepValue(ns: seq<Node>, values: seq<real>, mpq: map<real, ConstInfo>, freeVals: seq<nat>, freeze: real,
                   reachable: seq<bool>, i: nat, ns2: seq<Node>, free: seq<nat>, freeVals2: seq<nat>,
                   mpq2: map<real, ConstInfo>, owners: seq<nat>, v: real)
    requires |reachable| == |ns| && 1 <= i <= |ns|
    requires ValueTableOk(ns, values, mpq) && Reclaimed(ns, values, freeze, reachable, i - 1) && IsValNode(ns[i - 1])
    requires v in mpq && mpq[v] == ConstInfo(ns[i - 1].lo, i - 1)
    requires NodesSwept(ns, values, freeze, reachable, i, ns2) && FreeSwept(ns, values, freeze, reachable, i, free)
    requires MpqSwept(ns, values, freeze, reachable, i, mpq, mpq2)
    requires SlotsSwept(ns, values, freeze, reachable, i, freeVals, freeVals2, owners)
    ensures NodesSwept(ns, values, freeze, reachable, i - 1, ns2[i - 1 := SetInternal(ns2[i - 1])])
    ensures FreeSwept(ns, values, freeze, reachable, i - 1, free + [i - 1])
    ensures MpqSwept(ns, values, freeze, reachable, i - 1, mpq, mpq2 - {v})
    ensures SlotsSwept(ns, values, freeze, reachable, i - 1, freeVals, freeVals2 + [ns[i - 1].lo], owners + [i - 1])
  {
    forall r | r in mpq && mpq[r].nodeIndex == i - 1 ensures r == v {
    }
    var fv := freeVals2 + [ns[i - 1].lo];
    assert fv[..|freeVals|] == freeVals2[..|freeVals|];
  }

  /** The sweep loop of `gc`, from the top index down to 2: a reclaimed value
      gives its slot back to the value pool and leaves the value table, and
      every reclaimed node is blanked and pushed on the (emptied) free list. */
  method Sweep(ns: seq<Node>, values: seq<real>, mpq: map<real, ConstInfo>, freeVals: seq<nat>, freeze: real, reachable: seq<bool>)
    returns (ns2: seq<Node>, free: seq<nat>, freeVals2: seq<nat>, mpq2: map<real, ConstInfo>, ghost owners: seq<nat>)
    requires ValueNodesOk(ns, values, mpq, freeze) && ValueTableOk(ns, values, mpq)
    requires |ns| >= 2 && |reachable| == |ns|
    ensures NodesSwept(ns, values, freeze, reachable, 0, ns2) && FreeSwept(ns, values, freeze, reachable, 0, free)
    ensures MpqSwept(ns, values, freeze, reachable, 0, mpq, mpq2)
    ensures SlotsSwept(ns, values, freeze, reachable, 0, freeVals, freeVals2, owners)
  {
    ns2, free, freeVals2, mpq2, owners := ns, [], freeVals, mpq, [];
    var i := |ns|;
    while i > 2
      invariant 2 <= i <= |ns|
      invariant NodesSwept(ns, values, freeze, reachable, i, ns2) && FreeSwept(ns, values, freeze, reachable, i, free)
      invariant MpqSwept(ns, values, freeze, reachable, i, mpq, mpq2)
      invariant SlotsSwept(ns, values, freeze, reachable, i, freeVals, freeVals2, owners)
    {
      ns2, free, freeVals2, mpq2, owners := SweepAt(ns, values, mpq, freeVals, freeze, reachable, i, ns2, free, freeVals2, mpq2, owners);
      i := i - 1;
    }
    SweepKeep(ns, values, mpq, freeVals, freeze, reachable, 2, ns2, free, freeVals2, mpq2, owners);
    SweepKeep(ns, values, mpq, freeVals, freeze, reachable, 1, ns2, free, freeVals2, mpq2, owners);
  }

  /** One pass of the sweep loop, at index `i - 1`. */
  method SweepAt(ns: seq<Node>, values: seq<real>, mpq: map<real, ConstInfo>, freeVals: seq<nat>, freeze: real,
                 reachable: seq<bool>, i: nat, ns2: seq<Node>, free: seq<nat>, freeVals2: seq<nat>,
                 mpq2: map<real, ConstInfo>, ghost owners: seq<nat>)
    returns (ns3: seq<Node>, free3: seq<nat>, freeVals3: seq<nat>, mpq3: map<real, ConstInfo>, ghost owners3: seq<nat>)
    requires ValueNodesOk(ns, values, mpq, freeze) && ValueTableOk(ns, values, mpq)
    requires |reachable| == |ns| && 2 < i <= |ns|
    requires NodesSwept(ns, values, freeze, reachable, i, ns2) && FreeSwept(ns, values, freeze, reachable, i, free)
    requires MpqSwept(ns, values, freeze, reachable, i, mpq, mpq2)
    requires SlotsSwept(ns, values, freeze, reachable, i, freeVals, freeVals2, owners)
    ensures NodesSwept(ns, values, freeze, reachable, i - 1, ns3) && FreeSwept(ns, values, freeze, reachable, i - 1, free3)
    ensures MpqSwept(ns, values, freeze, reachable, i - 1, mpq, mpq3)
    ensures SlotsSwept(ns, values, freeze, reachable, i - 1, freeVals, freeVals3, owners3)
  {
    var x := i - 1;
    assert ns2[x] == ns[x];
    if !reachable[x] && IsVal(ns2, x) && freeze != values[ns2[x].lo] {
      var v := values[ns2[x].lo];
      assert mpq[v] == ConstInfo(ns[x].lo, x);
      SweepValue(ns, values, mpq, freeVals, freeze, reachable, i, ns2, free, freeVals2, mpq2, owners, v);
      return ns2[x := SetInternal(ns2[x])], free + [x], freeVals2 + [mpq2[v].valueIndex], mpq2 - {v}, owners + [x];
    } else if !reachable[x] && !IsVal(ns2, x) {
      SweepInternal(ns, values, mpq, freeVals, freeze, reachable, i, ns2, free, freeVals2, mpq2, owners);
      return ns2[x := SetInternal(ns2[x])], free + [x], freeVals2, mpq2, owners;
    } else {
      SweepKeep(ns, values, mpq, freeVals, freeze, reachable, i, ns2, free, freeVals2, mpq2, owners);
      return ns2, free, freeVals2, mpq2, owners;
    }
  }

  /** The cache pass of `gc`: computed entries are dropped, pending ones are kept. */
  method KeepPending(cache: map<OpKey, Slot>) returns (kept: map<OpKey, Slot>)
    ensures forall k :: k in kept <==> k in cache && cache[k].Pending?
    ensures forall k | k in kept :: kept[k] == Pending
  {
    kept := map[];
    var rest := cache.Keys;
    while rest != {}
      invariant rest <= cache.Keys
      invariant forall k :: k in kept <==> k in cache && k !in rest && cache[k].Pending?
      invariant forall k | k in kept :: kept[k] == Pending
      decreases rest
    {
      var k :| k in rest;
      if cache[k].Pending? {
        kept := kept[k := Pending];
      }
      rest := rest - {k};
    }
  }

  /** The last loop of `gc`: the unique table is rebuilt from the marked nodes
      from index 2 on, visited from the top down; an insertion replaces an
      entry of the same shape, so the lowest such index wins. */
  method RebuildTable(ns: seq<Node>, reachable: seq<bool>) returns (table: map<Shape, nat>)
    requires |reachable| == |ns|
    ensures forall s | s in table :: 2 <= table[s] < |ns| && reachable[table[s]] && ShapeOf(ns[table[s]]) == s
    ensures forall j | 2 <= j < |ns| && reachable[j] :: ShapeOf(ns[j]) in table && table[ShapeOf(ns[j])] <= j
  {
    table := map[];
    var i := |ns|;
    while i > 2
      invariant 2 <= i <= |ns| || (i == |ns| && |ns| < 2)
      invariant forall s | s in table :: i <= table[s] < |ns| && reachable[table[s]] && ShapeOf(ns[table[s]]) == s
      invariant forall j | i <= j < |ns| && reachable[j] :: ShapeOf(ns[j]) in table && table[ShapeOf(ns[j])] <= j
    {
      i := i - 1;
      if reachable[i] {
        table := table[ShapeOf(ns[i]) := i];
      }
    }
  }

  // ------------------------------------------------------------ the state after gc

  /** The marks are closed under children. */
  ghost predicate MarksClosed(ns: seq<Node>, reachable: seq<bool>)
  {
    |reachable| == |ns| &&
    forall i | 0 <= i < |ns| && reachable[i] && !IsValNode(ns[i]) ::
      ns[i].lo < |ns| && ns[i].hi < |ns| && reachable[ns[i].lo] && reachable[ns[i].hi]
  }

  /** Every root is marked. */
  ghost predicate MarksRoots(ns: seq<Node>, stack: seq<nat>, reachable: seq<bool>)
  {
    |reachable| == |ns| &&
    (forall k | 0 <= k < |stack| :: stack[k] < |ns| && reachable[stack[k]]) &&
    (forall i | 2 <= i < |ns| && ns[i].refcount > 0 :: reachable[i])
  }

  /** The ranks after the sweep: a reclaimed node is a leaf of rank 1. */
  ghost function SweptRank(ns: seq<Node>, values: seq<real>, freeze: real, reachable: seq<bool>, rk: seq<nat>): (rk2: seq<nat>)
    requires |reachable| == |ns| && |rk| == |ns|
    ensures |rk2| == |ns|
    ensures forall j | 0 <= j < |ns| :: rk2[j] == if Reclaimed(ns, values, freeze, reachable, j) then 1 else rk[j]
  {
    seq(|ns|, j requires 0 <= j < |ns| => if Reclaimed(ns, values, freeze, reachable, j) then 1 else rk[j])
  }

  /** No marked node is reclaimed, so the marked nodes keep their records and ranks. */
  lemma GcAgree(ns: seq<Node>, rk: seq<nat>, values: seq<real>, freeze: real, reachable: seq<bool>, ns2: seq<Node>, marked: set<nat>)
    requires |reachable| == |ns| && |rk| == |ns| && NodesSwept(ns, values, freeze, reachable, 0, ns2)
    requires forall i | i in marked :: i < |ns| && reachable[i]
    ensures Agree(marked, ns, rk, ns2, SweptRank(ns, values, freeze, reachable, rk))
  {
  }

  /** The node invariant survives the sweep. */
  lemma GcNodesOk(ns: seq<Node>, rk: seq<nat>, values: seq<real>, freeze: real, reachable: seq<bool>, ns2: seq<Node>)
    requires NodesOkOf(ns, rk) && MarksClosed(ns, reachable) && NodesSwept(ns, values, freeze, reachable, 0, ns2)
    ensures NodesOkOf(ns2, SweptRank(ns, values, freeze, reachable, rk))
  {
    GcRanked(ns, rk, values, freeze, reachable, ns2);
    GcShapes(ns, rk, values, freeze, reachable, ns2);
  }

  /** The ranks after the sweep order the surviving graph. */
  lemma GcRanked(ns: seq<Node>, rk: seq<nat>, values: seq<real>, freeze: real, reachable: seq<bool>, ns2: seq<Node>)
    requires NodesOkOf(ns, rk) && MarksClosed(ns, reachable) && NodesSwept(ns, values, freeze, reachable, 0, ns2)
    ensures Ranked(ns2, SweptRank(ns, values, freeze, reachable, rk))
  {
    var rk2 := SweptRank(ns, values, freeze, reachable, rk);
    forall j | 0 <= j < |ns2| && !IsValNode(ns2[j])
      ensures ns2[j].lo < |ns2| && ns2[j].hi < |ns2| && rk2[ns2[j].lo] < rk2[j] && rk2[ns2[j].hi] < rk2[j]
    {
      GcRankedAt(ns, rk, values, freeze, reachable, ns2, rk2, j);
    }
  }

  lemma GcRankedAt(ns: seq<Node>, rk: seq<nat>, values: seq<real>, freeze: real, reachable: seq<bool>, ns2: seq<Node>,
                   rk2: seq<nat>, j: nat)
    requires NodesOkOf(ns, rk) && MarksClosed(ns, reachable) && NodesSwept(ns, values, freeze, reachable, 0, ns2)
    requires rk2 == SweptRank(ns, values, freeze, reachable, rk) && j < |ns2| && !IsValNode(ns2[j])
    ensures ns2[j].lo < |ns2| && ns2[j].hi < |ns2| && rk2[ns2[j].lo] < rk2[j] && rk2[ns2[j].hi] < rk2[j]
  {
    if Reclaimed(ns, values, freeze, reachable, j) {
      assert ns2[j] == SetInternal(ns[j]) && rk2[j] == 1;
      assert ns2[j].lo == 0 && ns2[j].hi == 0 && rk2[0] == rk[0] == 0;
    } else {
      assert ns2[j] == ns[j] && rk2[j] == rk[j] && reachable[j];
      var l, h := ns[j].lo, ns[j].hi;
      assert !Reclaimed(ns, values, freeze, reachable, l) && !Reclaimed(ns, values, freeze, reachable, h);
      assert ns2[l] == ns[l] && ns2[h] == ns[h] && rk2[l] == rk[l] && rk2[h] == rk[h];
    }
  }

  /** The nodes that keep a non-zero `hi` after the sweep stay well formed. */
  lemma GcShapes(ns: seq<Node>, rk: seq<nat>, values: seq<real>, freeze: real, reachable: seq<bool>, ns2: seq<Node>)
    requires NodesOkOf(ns, rk) && MarksClosed(ns, reachable) && NodesSwept(ns, values, freeze, reachable, 0, ns2)
    ensures forall j | 0 <= j < |ns2| && ns2[j].hi != 0 :: ns2[j].lo < |ns2| && ns2[j].hi < |ns2| && WellFormedNode(ns2, ns2[j])
  {
    forall j | 0 <= j < |ns2| && ns2[j].hi != 0
      ensures ns2[j].lo < |ns2| && ns2[j].hi < |ns2| && WellFormedNode(ns2, ns2[j])
    {
      GcShapeAt(ns, rk, values, freeze, reachable, ns2, j);
    }
  }

  lemma GcShapeAt(ns: seq<Node>, rk: seq<nat>, values: seq<real>, freeze: real, reachable: seq<bool>, ns2: seq<Node>, j: nat)
    requires NodesOkOf(ns, rk) && MarksClosed(ns, reachable) && NodesSwept(ns, values, freeze, reachable, 0, ns2)
    requires j < |ns2| && ns2[j].hi != 0
    ensures ns2[j].lo < |ns2| && ns2[j].hi < |ns2| && WellFormedNode(ns2, ns2[j])
  {
    assert !Reclaimed(ns, values, freeze, reachable, j) && ns2[j] == ns[j] && reachable[j];
    var l, h := ns[j].lo, ns[j].hi;
    assert !Reclaimed(ns, values, freeze, reachable, l) && !Reclaimed(ns, values, freeze, reachable, h);
    assert ns2[l] == ns[l] && ns2[h] == ns[h];
    assert WellFormedNode(ns, ns[j]);
  }

  /** The free list built by the sweep is a valid free list. */
  lemma GcFreeOk(ns: seq<Node>, values: seq<real>, freeze: real, stack: seq<nat>, reachable: seq<bool>, ns2: seq<Node>, free: seq<nat>)
    requires MarksRoots(ns, stack, reachable)
    requires NodesSwept(ns, values, freeze, reachable, 0, ns2) && FreeSwept(ns, values, freeze, reachable, 0, free)
    ensures FreeOkOf(ns2, free)
  {
  }

  /** The rebuilt table names marked nodes by their shapes, and hash-consing survives. */
  lemma GcTableOk(ns: seq<Node>, values: seq<real>, freeze: real, reachable: seq<bool>, ns2: seq<Node>,
                  table: map<Shape, nat>, table2: map<Shape, nat>)
    requires |ns| >= 2 && ns[0].hi == 0 && ns[1].hi == 0 && CanonOf(ns, table) && |reachable| == |ns|
    requires NodesSwept(ns, values, freeze, reachable, 0, ns2)
    requires forall s | s in table2 :: 2 <= table2[s] < |ns2| && reachable[table2[s]] && ShapeOf(ns2[table2[s]]) == s
    requires forall j | 2 <= j < |ns2| && reachable[j] :: ShapeOf(ns2[j]) in table2 && table2[ShapeOf(ns2[j])] <= j
    ensures TableOkOf(ns2, table2) && CanonOf(ns2, table2)
  {
    forall i | 0 <= i < |ns2| && ns2[i].hi != 0 ensures ShapeOf(ns2[i]) in table2 && table2[ShapeOf(ns2[i])] == i {
      assert !Reclaimed(ns, values, freeze, reachable, i) && 2 <= i && reachable[i];
      var j := table2[ShapeOf(ns2[i])];
      assert !Reclaimed(ns, values, freeze, reachable, j);
      assert ShapeOf(ns[j]) == ShapeOf(ns[i]);
    }
  }

  /** The value pool and the value table stay consistent with the surviving value nodes. */
  lemma GcValuesOk(ns: seq<Node>, values: seq<real>, mpq: map<real, ConstInfo>, freeVals: seq<nat>, freeze: real,
                   reachable: seq<bool>, ns2: seq<Node>, mpq2: map<real, ConstInfo>, freeVals2: seq<nat>, owners: seq<nat>)
    requires |ns| >= 2 && IsValNode(ns[0]) && IsValNode(ns[1]) && |reachable| == |ns|
    requires forall i | 0 <= i < |ns| :: ns[i].index == i
    requires ValuesOkOf(ns, values, mpq, freeVals, freeze)
    requires NodesSwept(ns, values, freeze, reachable, 0, ns2) && MpqSwept(ns, values, freeze, reachable, 0, mpq, mpq2)
    requires SlotsSwept(ns, values, freeze, reachable, 0, freeVals, freeVals2, owners)
    ensures ValuesOkOf(ns2, values, mpq2, freeVals2, freeze)
    ensures StrictValuesOf(ns, values, mpq) ==> StrictValuesOf(ns2, values, mpq2)
  {
    assert ns[0].lo == 0 && ns[1].lo == 1 by {
      assert mpq[0.0].nodeIndex == 0 && mpq[1.0].nodeIndex == 1;
    }
    forall j | 0 <= j < |ns2| && IsValNode(ns2[j])
      ensures ns2[j] == ns[j] && !Reclaimed(ns, values, freeze, reachable, j)
    {
    }
    forall j | 0 <= j < |ns2| && IsValNode(ns2[j])
      ensures ns2[j].lo < |values|
      ensures values[ns2[j].lo] in mpq2 ==> mpq2[values[ns2[j].lo]] == ConstInfo(ns2[j].lo, j)
      ensures values[ns2[j].lo] !in mpq2 ==> values[ns2[j].lo] == freeze
    {
      var v := values[ns[j].lo];
      if v in mpq {
        assert mpq[v].nodeIndex == j;
      }
    }
    forall k | 0 <= k < |owners| ensures 2 <= ns[owners[k]].lo {
      assert owners[k] != 0 && owners[k] != 1;
    }
    forall a, b | 0 <= a < b < |freeVals2| ensures freeVals2[a] != freeVals2[b] {
      if a >= |freeVals| {
        var oa, ob := owners[a - |freeVals|], owners[b - |freeVals|];
        assert oa != ob && IsValNode(ns[oa]) && IsValNode(ns[ob]);
        assert freeVals2[a] == ns[oa].lo && freeVals2[b] == ns[ob].lo;
      } else if b >= |freeVals| {
        var ob := owners[b - |freeVals|];
        assert freeVals2[a] == freeVals[a] && freeVals2[b] == ns[ob].lo && IsValNode(ns[ob]);
      } else {
        assert freeVals2[a] == freeVals[a] && freeVals2[b] == freeVals[b];
      }
    }
    forall k | 0 <= k < |freeVals2| ensures 2 <= freeVals2[k] < |values| {
      if k < |freeVals| {
        assert freeVals2[k] == freeVals[k];
      } else {
        assert freeVals2[k] == ns[owners[k - |freeVals|]].lo;
      }
    }
    forall j, k | 0 <= j < |ns2| && IsValNode(ns2[j]) && 0 <= k < |freeVals2| ensures freeVals2[k] != ns2[j].lo {
      if k < |freeVals| {
        assert freeVals2[k] == freeVals[k];
      } else {
        assert owners[k - |freeVals|] != j;
      }
    }
  }

  /** The remaining parts of the invariant: only pending cache entries are
      left, the protection stack and the pinned variable nodes are marked,
      and the torn-down nodes have no levels left to bound. */
  lemma GcRestOk(ns: seq<Node>, values: seq<real>, freeze: real, stack: seq<nat>, reachable: seq<bool>, ns2: seq<Node>,
                 cache: map<OpKey, Slot>, mark: seq<nat>, level: nat, v2l: seq<nat>, l2v: seq<nat>, v2p: seq<nat>, n: nat)
    requires |ns| >= 2 && ns[0].hi == 0 && ns[1].hi == 0
    requires MarksRoots(ns, stack, reachable) && NodesSwept(ns, values, freeze, reachable, 0, ns2)
    requires forall k | k in cache :: cache[k] == Pending
    requires StackOkOf(ns, stack) && MarkOkOf(ns, mark, level) && VarsOkOf(ns, v2l, l2v, v2p)
    ensures CacheOkOf(ns2, cache) && StackOkOf(ns2, stack) && MarkOkOf(ns2, mark, level) && VarsOkOf(ns2, v2l, l2v, v2p)
    ensures LevelsBelowOf(ns, n) ==> LevelsBelowOf(ns2, n)
  {
    forall k | 0 <= k < |stack| ensures Live(ns2, stack[k]) {
      assert !Reclaimed(ns, values, freeze, reachable, stack[k]);
    }
    forall v | 0 <= v < |v2p| ensures ns2[v2p[v]] == ns[v2p[v]] {
      assert v2p[v] != 0 && v2p[v] != 1 by {
        assert ns[v2p[v]].hi == OnePdd;
      }
      assert !Reclaimed(ns, values, freeze, reachable, v2p[v]);
    }
  }

  /** The id `j` is reclaimed by `gc`: from index 2 on, not protected, and not a frozen value node. */
  ghost predicate Collected(ns: seq<Node>, rank: seq<nat>, stack: seq<nat>, values: seq<real>, freeze: real, j: nat)
    requires Ranked(ns, rank) && j < |ns| && forall k | 0 <= k < |stack| :: stack[k] < |ns|
  {
    2 <= j && j !in Protected(ns, rank, stack) && !Frozen(ns, values, freeze, j)
  }

  /** What `gc` does to the arena, the free list and the caches. */
  ghost predicate GcEffect(ns: seq<Node>, rank: seq<nat>, stack: seq<nat>, values: seq<real>, freeze: real,
                           mpq: map<real, ConstInfo>, cache: map<OpKey, Slot>,
                           ns2: seq<Node>, rank2: seq<nat>, free: seq<nat>, mpq2: map<real, ConstInfo>, cache2: map<OpKey, Slot>)
    requires Ranked(ns, rank) && forall k | 0 <= k < |stack| :: stack[k] < |ns|
  {
    Agree(Protected(ns, rank, stack), ns, rank, ns2, rank2) &&
    |ns2| == |ns| &&
    (forall j | 0 <= j < |ns| ::
      ns2[j] == if Collected(ns, rank, stack, values, freeze, j) then SetInternal(ns[j]) else ns[j]) &&
    (forall j: nat :: j in free <==> j < |ns| && Collected(ns, rank, stack, values, freeze, j)) &&
    (forall a, b | 0 <= a < b < |free| :: free[a] > free[b]) &&
    (forall r | r in mpq2 :: r in mpq && mpq2[r] == mpq[r]) &&
    (forall key :: key in cache2 <==> key in cache && cache[key] == Pending)
  }

  /** `gc` over the manager's fields: it re-establishes every invariant. */
  method Collect(ns: seq<Node>, ghost rank: seq<nat>, table: map<Shape, nat>, values: seq<real>, mpq: map<real, ConstInfo>,
                 freeVals: seq<nat>, freeze: real, cache: map<OpKey, Slot>, stack: seq<nat>,
                 ghost mark: seq<nat>, ghost level: nat, ghost v2l: seq<nat>, ghost l2v: seq<nat>, ghost v2p: seq<nat>)
    returns (ns2: seq<Node>, ghost rank2: seq<nat>, free: seq<nat>, table2: map<Shape, nat>,
             mpq2: map<real, ConstInfo>, freeVals2: seq<nat>, cache2: map<OpKey, Slot>)
    requires NodesOkOf(ns, rank) && CanonOf(ns, table) && ValuesOkOf(ns, values, mpq, freeVals, freeze)
    requires StackOkOf(ns, stack) && MarkOkOf(ns, mark, level) && VarsOkOf(ns, v2l, l2v, v2p)
    ensures CoreOf(ns2, rank2, free, table2, values, mpq2, freeVals2, freeze, cache2, stack, mark, level, v2l, l2v, v2p)
    ensures forall m: nat | LevelsBelowOf(ns, m) :: LevelsBelowOf(ns2, m)
    ensures StrictValuesOf(ns, values, mpq) ==> StrictValuesOf(ns2, values, mpq2)
    ensures GcEffect(ns, rank, stack, values, freeze, mpq, cache, ns2, rank2, free, mpq2, cache2)
    ensures forall x | x in freeVals2 :: x in freeVals || x in ValueSlots(ns)
  {
    var reachable := MarkReachable(ns, rank, stack);
    ghost var owners;
    ns2, free, freeVals2, mpq2, owners := Sweep(ns, values, mpq, freeVals, freeze, reachable);
    cache2 := KeepPending(cache);
    table2 := RebuildTable(ns2, reachable);
    rank2 := SweptRank(ns, values, freeze, reachable, rank);
    GcKeepsCore(ns, rank, table, values, mpq, freeVals, freeze, cache, stack, mark, level, v2l, l2v, v2p,
                reachable, ns2, free, table2, mpq2, freeVals2, cache2, owners);
    GcAgree(ns, rank, values, freeze, reachable, ns2, Protected(ns, rank, stack));
    GcEffectHolds(ns, rank, stack, values, freeze, mpq, cache, reachable, ns2, rank2, free, mpq2, cache2);
    forall x | x in freeVals2 ensures x in freeVals || x in ValueSlots(ns) {
      var k :| 0 <= k < |freeVals2| && freeVals2[k] == x;
      if k >= |freeVals| {
        var j := owners[k - |freeVals|];
        assert ns[j].lo == x;
      } else {
        assert freeVals2[..|freeVals|][k] == x;
      }
    }
  }

  /** The invariant after the collector's phases, from the facts each phase establishes. */
  lemma GcKeepsCore(ns: seq<Node>, rank: seq<nat>, table: map<Shape, nat>, values: seq<real>, mpq: map<real, ConstInfo>,
                    freeVals: seq<nat>, freeze: real, cache: map<OpKey, Slot>, stack: seq<nat>,
                    mark: seq<nat>, level: nat, v2l: seq<nat>, l2v: seq<nat>, v2p: seq<nat>,
                    reachable: seq<bool>, ns2: seq<Node>, free: seq<nat>, table2: map<Shape, nat>,
                    mpq2: map<real, ConstInfo>, freeVals2: seq<nat>, cache2: map<OpKey, Slot>, owners: seq<nat>)
    requires NodesOkOf(ns, rank) && CanonOf(ns, table) && ValuesOkOf(ns, values, mpq, freeVals, freeze)
    requires StackOkOf(ns, stack) && MarkOkOf(ns, mark, level) && VarsOkOf(ns, v2l, l2v, v2p)
    requires MarksClosed(ns, reachable) && MarksRoots(ns, stack, reachable)
    requires NodesSwept(ns, values, freeze, reachable, 0, ns2) && FreeSwept(ns, values, freeze, reachable, 0, free)
    requires MpqSwept(ns, values, freeze, reachable, 0, mpq, mpq2)
    requires SlotsSwept(ns, values, freeze, reachable, 0, freeVals, freeVals2, owners)
    requires forall k | k in cache2 :: cache2[k] == Pending
    requires forall s | s in table2 :: 2 <= table2[s] < |ns2| && reachable[table2[s]] && ShapeOf(ns2[table2[s]]) == s
    requires forall j | 2 <= j < |ns2| && reachable[j] :: ShapeOf(ns2[j]) in table2 && table2[ShapeOf(ns2[j])] <= j
    ensures CoreOf(ns2, SweptRank(ns, values, freeze, reachable, rank), free, table2, values, mpq2, freeVals2, freeze,
                   cache2, stack, mark, level, v2l, l2v, v2p)
    ensures forall m: nat | LevelsBelowOf(ns, m) :: LevelsBelowOf(ns2, m)
    ensures StrictValuesOf(ns, values, mpq) ==> StrictValuesOf(ns2, values, mpq2)
  {
    GcNodesOk(ns, rank, values, freeze, reachable, ns2);
    GcFreeOk(ns, values, freeze, stack, reachable, ns2, free);
    GcTableOk(ns, values, freeze, reachable, ns2, table, table2);
    GcValuesOk(ns, values, mpq, freeVals, freeze, reachable, ns2, mpq2, freeVals2, owners);
    forall m: nat | LevelsBelowOf(ns, m) ensures LevelsBelowOf(ns2, m) {
      GcRestOk(ns, values, freeze, stack, reachable, ns2, cache2, mark, level, v2l, l2v, v2p, m);
    }
    GcRestOk(ns, values, freeze, stack, reachable, ns2, cache2, mark, level, v2l, l2v, v2p, 0);
    forall s | s in table2 ensures table2[s] !in free {
      forall k | 0 <= k < |free| ensures free[k] != table2[s] {
        assert !reachable[free[k]];
      }
    }
  }

  lemma GcEffectHolds(ns: seq<Node>, rank: seq<nat>, stack: seq<nat>, values: seq<real>, freeze: real,
                      mpq: map<real, ConstInfo>, cache: map<OpKey, Slot>, reachable: seq<bool>,
                      ns2: seq<Node>, rank2: seq<nat>, free: seq<nat>, mpq2: map<real, ConstInfo>, cache2: map<OpKey, Slot>)
    requires Ranked(ns, rank) && forall k | 0 <= k < |stack| :: stack[k] < |ns|
    requires |reachable| == |ns| && forall i | 0 <= i < |ns| :: reachable[i] <==> i in Protected(ns, rank, stack)
    requires Agree(Protected(ns, rank, stack), ns, rank, ns2, rank2)
    requires NodesSwept(ns, values, freeze, reachable, 0, ns2) && FreeSwept(ns, values, freeze, reachable, 0, free)
    requires MpqSwept(ns, values, freeze, reachable, 0, mpq, mpq2)
    requires forall key :: key in cache2 <==> key in cache && cache[key].Pending?
    ensures GcEffect(ns, rank, stack, values, freeze, mpq, cache, ns2, rank2, free, mpq2, cache2)
  {
    forall j | 0 <= j < |ns| ensures Collected(ns, rank, stack, values, freeze, j) == Reclaimed(ns, values, freeze, reachable, j) {
    }
  }
}
