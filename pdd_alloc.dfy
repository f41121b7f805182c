/**
  Facts about allocating one node: what `insert_node` may be asked to
  store, the placeholder entry a miss leaves in the unique table, and the
  state after the popped free slot receives the new node. Everything here
  is stated over plain values; the manager's methods call these lemmas and
  then store the results.
 */
module PddAlloc {
  import opened PddNode
  import opened PddSpec
  import opened PddState
  import opened PddGc

  /** A shape `insert_node` may store: a polynomial node whose children are
      live and level-ordered as `make_node` asserts, or a value node for a
      value-pool slot that holds the freeze value, is not yet registered and
      is used by no other node. */
  ghost predicate AdmissibleOf(ns: seq<Node>, values: seq<real>, mpq: map<real, ConstInfo>, freeVals: seq<nat>,
                               freeze: real, s: Shape)
  {
    if s.hi != 0 then
      Live(ns, s.lo) && Live(ns, s.hi) && Top(ns, s.lo) < s.level as int && Top(ns, s.hi) <= s.level as int
    else
      s.level == 0 && 2 <= s.lo < |values| && values[s.lo] == freeze && values[s.lo] !in mpq &&
      s.lo !in freeVals && s.lo !in ValueSlots(ns)
  }

  /** `AdmissibleOf` as one fact. */
  ghost predicate Admissible(ns: seq<Node>, values: seq<real>, mpq: map<real, ConstInfo>, freeVals: seq<nat>,
                             freeze: real, s: Shape)
  {
    var ok := AdmissibleOf(ns, values, mpq, freeVals, freeze, s);
    ok
  }

  /** No live node of the arena has shape `s`. */
  ghost predicate Absent(ns: seq<Node>, s: Shape)
  {
    forall i | 0 <= i < |ns| && Live(ns, i) :: ShapeOf(ns[i]) != s
  }

  /** The unique table already names a node of shape `s`: a placeholder entry (id 0) does not count. */
  predicate Hit(table: map<Shape, nat>, s: Shape)
  {
    s in table && table[s] != 0
  }

  /** The node that `insert_node` stores in slot `x`. */
  function Fresh(s: Shape, x: nat): (n: Node)
    ensures ShapeOf(n) == s && n.index == x && n.refcount == 0
  {
    Node(0, s.level, s.lo, s.hi, x)
  }

  function Max(a: nat, b: nat): nat { if a < b then b else a }

  /** A rank for the new node above the ranks of its children. */
  ghost function NewRank(rk: seq<nat>, s: Shape): nat
  {
    if s.hi != 0 && s.lo < |rk| && s.hi < |rk| then Max(rk[s.lo], rk[s.hi]) + 1 else 0
  }

  /** Every value node except possibly `x` is registered in the value table. */
  ghost predicate RegisteredBut(ns: seq<Node>, values: seq<real>, mpq: map<real, ConstInfo>, x: nat)
  {
    forall i | 0 <= i < |ns| && IsValNode(ns[i]) && ns[i].lo < |values| && i != x :: values[ns[i].lo] in mpq
  }

  /** What an allocating operation keeps: the nodes protected at the start
      keep their records and ranks, and protected value nodes keep their values. */
  ghost predicate KeptOf(ns1: seq<Node>, rk1: seq<nat>, st: seq<nat>, vals1: seq<real>,
                         ns2: seq<Node>, rk2: seq<nat>, vals2: seq<real>)
  {
    Ranked(ns1, rk1) && (forall k | 0 <= k < |st| :: st[k] < |ns1|) &&
    Agree(Protected(ns1, rk1, st), ns1, rk1, ns2, rk2) &&
    forall i | i in Protected(ns1, rk1, st) && i < |ns1| && IsValNode(ns1[i]) && ns1[i].lo < |vals1| ::
      ns1[i].lo < |vals2| && vals2[ns1[i].lo] == vals1[ns1[i].lo]
  }

  /** `KeptOf` as one fact: operations promise it and pass it on without
      looking inside; the lemmas below establish it. */
  ghost predicate Kept(ns1: seq<Node>, rk1: seq<nat>, st: seq<nat>, vals1: seq<real>,
                       ns2: seq<Node>, rk2: seq<nat>, vals2: seq<real>)
  {
    var ok := KeptOf(ns1, rk1, st, vals1, ns2, rk2, vals2);
    ok
  }

  lemma KeptRefl(ns: seq<Node>, rk: seq<nat>, st: seq<nat>, vals: seq<real>)
    requires Ranked(ns, rk) && forall k | 0 <= k < |st| :: st[k] < |ns|
    ensures Kept(ns, rk, st, vals, ns, rk, vals)
  {
    ProtectedFacts(ns, rk, st);
    assert KeptOf(ns, rk, st, vals, ns, rk, vals);
  }

  /** Two allocating steps compose, also when the second one runs with more entries on the stack. */
  lemma KeptTrans(ns1: seq<Node>, rk1: seq<nat>, st1: seq<nat>, v1: seq<real>,
                  ns2: seq<Node>, rk2: seq<nat>, st2: seq<nat>, v2: seq<real>,
                  ns3: seq<Node>, rk3: seq<nat>, v3: seq<real>)
    requires Kept(ns1, rk1, st1, v1, ns2, rk2, v2) && Kept(ns2, rk2, st2, v2, ns3, rk3, v3)
    requires forall x | x in st1 :: x in st2
    ensures Kept(ns1, rk1, st1, v1, ns3, rk3, v3)
  {
    assert KeptOf(ns1, rk1, st1, v1, ns2, rk2, v2) && KeptOf(ns2, rk2, st2, v2, ns3, rk3, v3);
    ProtectedGrows(ns1, rk1, st1, ns2, rk2, st2);
    assert KeptOf(ns1, rk1, st1, v1, ns3, rk3, v3);
  }

  /** A negation between protected nodes survives a step that keeps them. */
  lemma NegatedProtected(ns1: seq<Node>, rk1: seq<nat>, st: seq<nat>, v1: seq<real>,
                         ns2: seq<Node>, rk2: seq<nat>, v2: seq<real>, p: nat, r: nat)
    requires Kept(ns1, rk1, st, v1, ns2, rk2, v2) && Ranked(ns2, rk2)
    requires Ranked(ns1, rk1) && (forall k | 0 <= k < |st| :: st[k] < |ns1|)
    requires p < |ns1| && r < |ns1| && p in Protected(ns1, rk1, st) && r in Protected(ns1, rk1, st)
    requires Negated(ns1, rk1, v1, p, r)
    ensures p < |ns2| && r < |ns2| && Negated(ns2, rk2, v2, p, r)
  {
    assert KeptOf(ns1, rk1, st, v1, ns2, rk2, v2);
    ProtectedFacts(ns1, rk1, st);
    var s := Protected(ns1, rk1, st);
    assert KeptOn(s, ns1, v1, ns2, v2);
    NegatedKeptOn(s, ns1, rk1, v1, ns2, rk2, v2, p, r);
  }

  /** A divisibility test between protected nodes gives the same answer after a step. */
  lemma LmDividesProtected(ns1: seq<Node>, rk1: seq<nat>, st: seq<nat>, v1: seq<real>,
                           ns2: seq<Node>, rk2: seq<nat>, v2: seq<real>, p: nat, q: nat)
    requires Kept(ns1, rk1, st, v1, ns2, rk2, v2) && Ranked(ns2, rk2)
    requires Ranked(ns1, rk1) && (forall k | 0 <= k < |st| :: st[k] < |ns1|)
    requires p in Protected(ns1, rk1, st) && q in Protected(ns1, rk1, st)
    ensures p < |ns1| && q < |ns1| && p < |ns2| && q < |ns2| && LmDivides(ns2, rk2, p, q) == LmDivides(ns1, rk1, p, q)
  {
    assert KeptOf(ns1, rk1, st, v1, ns2, rk2, v2);
    ProtectedFacts(ns1, rk1, st);
    var s := Protected(ns1, rk1, st);
    assert KeptOn(s, ns1, v1, ns2, v2);
    LmDividesKeptOn(s, ns1, rk1, v1, ns2, rk2, v2, p, q);
  }

  /** A free node is not protected: the protected set stays within the live
      nodes and the nodes with a positive reference count. */
  lemma FreeNotProtected(ns: seq<Node>, rk: seq<nat>, free: seq<nat>, stack: seq<nat>)
    requires NodesOkOf(ns, rk) && FreeOkOf(ns, free) && StackOkOf(ns, stack)
    ensures forall k | 0 <= k < |free| :: free[k] !in Protected(ns, rk, stack)
  {
    var S := set i | 0 <= i < |ns| && (Live(ns, i) || ns[i].refcount > 0);
    forall y | y in S ensures y < |ns| && (!IsValNode(ns[y]) ==> ns[y].lo in S && ns[y].hi in S) {
      if !IsValNode(ns[y]) && Live(ns, y) {
        ChildrenLive(ns, rk, y);
      }
    }
    ProtectedLeast(ns, rk, stack, S);
  }

  lemma MissAbsent(ns: seq<Node>, rk: seq<nat>, table: map<Shape, nat>, values: seq<real>,
                   mpq: map<real, ConstInfo>, freeVals: seq<nat>, freeze: real, s: Shape)
    requires NodesOkOf(ns, rk) && CanonOf(ns, table) && !Hit(table, s)
    requires Admissible(ns, values, mpq, freeVals, freeze, s)
    ensures Absent(ns, s)
  {
    forall i | 0 <= i < |ns| && Live(ns, i) ensures ShapeOf(ns[i]) != s {
    }
  }

  /** A hit names a live node of the requested shape. */
  lemma HitLive(ns: seq<Node>, rk: seq<nat>, table: map<Shape, nat>, s: Shape)
    requires NodesOkOf(ns, rk) && TableOkOf(ns, table) && Hit(table, s)
    requires s.hi != 0 || s.lo != 0
    ensures table[s] < |ns| && ShapeOf(ns[table[s]]) == s && Live(ns, table[s])
  {
  }

  /** A miss leaves a placeholder entry for `s`; it names no node. */
  lemma PlaceholderOk(ns: seq<Node>, table: map<Shape, nat>, free: seq<nat>, s: Shape)
    requires TableOkOf(ns, table) && CanonOf(ns, table) && TableFreeOf(table, free) && Absent(ns, s)
    requires forall k | 0 <= k < |free| :: 2 <= free[k]
    ensures TableOkOf(ns, table[s := 0]) && CanonOf(ns, table[s := 0]) && TableFreeOf(table[s := 0], free)
  {
    assert 0 !in free;
  }

  // ------------------------------------------------------------ across a collection and a growth

  /** The collector keeps the protected nodes and the value pool. */
  lemma GcKept(ns: seq<Node>, rk: seq<nat>, stack: seq<nat>, values: seq<real>, freeze: real,
               mpq: map<real, ConstInfo>, cache: map<OpKey, Slot>,
               ns2: seq<Node>, rk2: seq<nat>, free: seq<nat>, mpq2: map<real, ConstInfo>, cache2: map<OpKey, Slot>)
    requires Ranked(ns, rk) && forall k | 0 <= k < |stack| :: stack[k] < |ns|
    requires GcEffect(ns, rk, stack, values, freeze, mpq, cache, ns2, rk2, free, mpq2, cache2)
    ensures Kept(ns, rk, stack, values, ns2, rk2, values)
  {
    assert KeptOf(ns, rk, stack, values, ns2, rk2, values);
  }

  /** A shape stays admissible across a collection that left its children alone. */
  lemma GcAdmissible(ns: seq<Node>, rk: seq<nat>, stack: seq<nat>, values: seq<real>, freeze: real,
                     mpq: map<real, ConstInfo>, cache: map<OpKey, Slot>,
                     ns2: seq<Node>, rk2: seq<nat>, free: seq<nat>, mpq2: map<real, ConstInfo>, cache2: map<OpKey, Slot>,
                     freeVals: seq<nat>, freeVals2: seq<nat>, s: Shape)
    requires NodesOkOf(ns, rk) && forall k | 0 <= k < |stack| :: stack[k] < |ns|
    requires GcEffect(ns, rk, stack, values, freeze, mpq, cache, ns2, rk2, free, mpq2, cache2)
    requires forall x | x in freeVals2 :: x in freeVals || x in ValueSlots(ns)
    requires Admissible(ns, values, mpq, freeVals, freeze, s) && Absent(ns, s)
    requires s.hi != 0 ==> s.lo !in free && s.hi !in free
    ensures Admissible(ns2, values, mpq2, freeVals2, freeze, s) && Absent(ns2, s)
  {
    forall j | 0 <= j < |ns2| && Live(ns2, j) ensures ns2[j] == ns[j] {
    }
    if s.hi == 0 {
      forall i | 0 <= i < |ns2| && IsValNode(ns2[i]) ensures ns2[i].lo != s.lo {
        assert Live(ns2, i);
      }
    }
    assert AdmissibleOf(ns2, values, mpq2, freeVals2, freeze, s);
  }

  /** Appended blank nodes keep the protected nodes and every admissible shape. */
  lemma BlanksAdmissible(ns: seq<Node>, rk: seq<nat>, stack: seq<nat>, values: seq<real>, mpq: map<real, ConstInfo>,
                         freeVals: seq<nat>, freeze: real, s: Shape, n: nat)
    requires NodesOkOf(ns, rk) && forall k | 0 <= k < |stack| :: stack[k] < |ns|
    requires Admissible(ns, values, mpq, freeVals, freeze, s) && Absent(ns, s)
    ensures Admissible(ns + Blanks(|ns|, n), values, mpq, freeVals, freeze, s) && Absent(ns + Blanks(|ns|, n), s)
    ensures Kept(ns, rk, stack, values, ns + Blanks(|ns|, n), rk + seq(n, _ => 1), values)
  {
    var ns2 := ns + Blanks(|ns|, n);
    assert forall i | 0 <= i < |ns| :: ns2[i] == ns[i];
    assert forall i | |ns| <= i < |ns2| :: ns2[i] == Node(0, 0, 0, 0, i) && !Live(ns2, i);
    ProtectedFacts(ns, rk, stack);
    if s.hi == 0 {
      forall i | 0 <= i < |ns2| && IsValNode(ns2[i]) ensures ns2[i].lo != s.lo {
        assert i < |ns| && ns[i].lo in ValueSlots(ns);
      }
    }
    assert KeptOf(ns, rk, stack, values, ns2, rk + seq(n, _ => 1), values);
    assert AdmissibleOf(ns2, values, mpq, freeVals, freeze, s);
  }

  // ------------------------------------------------------------ placing the new node

  /** No node points at a free slot: a polynomial's children are live and a blank node points at 0. */
  lemma NoneIntoFree(ns: seq<Node>, rk: seq<nat>, free: seq<nat>, x: nat)
    requires NodesOkOf(ns, rk) && FreeOkOf(ns, free) && x in free
    ensures !Live(ns, x)
    ensures forall i | 0 <= i < |ns| && !IsValNode(ns[i]) :: ns[i].lo != x && ns[i].hi != x
  {
    assert IsInternal(ns[x]) && ns[x].index == x;
    forall i | 0 <= i < |ns| && !IsValNode(ns[i]) ensures ns[i].lo != x && ns[i].hi != x {
      if ns[i].hi != 0 {
        assert WellFormedNode(ns, ns[i]);
      }
    }
  }

  lemma PlaceRanked(ns: seq<Node>, rk: seq<nat>, x: nat, s: Shape)
    requires Ranked(ns, rk) && x < |ns| && !Live(ns, x)
    requires forall i | 0 <= i < |ns| && !IsValNode(ns[i]) :: ns[i].lo != x && ns[i].hi != x
    requires s.hi != 0 ==> Live(ns, s.lo) && Live(ns, s.hi)
    requires s.hi == 0 ==> s.lo != 0
    ensures Ranked(ns[x := Fresh(s, x)], rk[x := NewRank(rk, s)])
  {
    var ns2, rk2 := ns[x := Fresh(s, x)], rk[x := NewRank(rk, s)];
    forall i | 0 <= i < |ns2| && !IsValNode(ns2[i])
      ensures ns2[i].lo < |ns2| && ns2[i].hi < |ns2| && rk2[ns2[i].lo] < rk2[i] && rk2[ns2[i].hi] < rk2[i]
    {
      if i == x {
        assert s.lo != x && s.hi != x;
      } else {
        assert ns2[i] == ns[i];
      }
    }
  }

  lemma PlaceWellFormed(ns: seq<Node>, rk: seq<nat>, x: nat, s: Shape, ns2: seq<Node>)
    requires GraphOk(ns, rk) && x < |ns| && !Live(ns, x) && ns2 == ns[x := Fresh(s, x)]
    requires forall i | 0 <= i < |ns| && !IsValNode(ns[i]) :: ns[i].lo != x && ns[i].hi != x
    requires s.hi != 0 ==> Live(ns, s.lo) && Live(ns, s.hi) && Top(ns, s.lo) < s.level as int && Top(ns, s.hi) <= s.level as int
    ensures forall i | 0 <= i < |ns2| && ns2[i].hi != 0 :: WellFormedNode(ns2, ns2[i])
  {
    forall i | 0 <= i < |ns2| && ns2[i].hi != 0 ensures WellFormedNode(ns2, ns2[i]) {
      if i != x {
        assert WellFormedNode(ns, ns[i]);
        assert ns2[ns[i].lo] == ns[ns[i].lo] && ns2[ns[i].hi] == ns[ns[i].hi];
      } else {
        assert s.lo != x && s.hi != x;
        assert ns2[s.lo] == ns[s.lo] && ns2[s.hi] == ns[s.hi];
      }
    }
  }

  lemma PlaceNodesOk(ns: seq<Node>, rk: seq<nat>, free: seq<nat>, values: seq<real>, mpq: map<real, ConstInfo>,
                     freeVals: seq<nat>, freeze: real, s: Shape)
    requires NodesOkOf(ns, rk) && FreeOkOf(ns, free) && free != []
    requires Admissible(ns, values, mpq, freeVals, freeze, s)
    ensures var x := free[|free| - 1];
      NodesOkOf(ns[x := Fresh(s, x)], rk[x := NewRank(rk, s)]) && !Live(ns, x)
  {
    var x := free[|free| - 1];
    NoneIntoFree(ns, rk, free, x);
    PlaceRanked(ns, rk, x, s);
    PlaceWellFormed(ns, rk, x, s, ns[x := Fresh(s, x)]);
  }

  lemma PlaceTableOk(ns: seq<Node>, free: seq<nat>, table: map<Shape, nat>, s: Shape)
    requires FreeOkOf(ns, free) && free != [] && TableOkOf(ns, table) && CanonOf(ns, table) && TableFreeOf(table, free)
    requires Absent(ns, s)
    ensures var x := free[|free| - 1]; var ns2 := ns[x := Fresh(s, x)];
      FreeOkOf(ns2, free[..|free| - 1]) && TableOkOf(ns2, table[s := x]) && CanonOf(ns2, table[s := x]) &&
      TableFreeOf(table[s := x], free[..|free| - 1])
  {
    var x := free[|free| - 1];
    var ns2 := ns[x := Fresh(s, x)];
    assert x in free;
    forall k | 0 <= k < |free| - 1 ensures free[k] != x {
    }
  }

  lemma PlaceValuesOk(ns: seq<Node>, free: seq<nat>, values: seq<real>, mpq: map<real, ConstInfo>,
                      freeVals: seq<nat>, freeze: real, s: Shape)
    requires FreeOkOf(ns, free) && free != [] && forall i | 0 <= i < |ns| :: ns[i].index == i
    requires ValuesOkOf(ns, values, mpq, freeVals, freeze) && Admissible(ns, values, mpq, freeVals, freeze, s)
    ensures var x := free[|free| - 1]; var ns2 := ns[x := Fresh(s, x)];
      ValuesOkOf(ns2, values, mpq, freeVals, freeze) &&
      (StrictValuesOf(ns, values, mpq) ==> RegisteredBut(ns2, values, mpq, x)) &&
      (StrictValuesOf(ns, values, mpq) && s.hi != 0 ==> StrictValuesOf(ns2, values, mpq))
  {
    var x := free[|free| - 1];
    var ns2 := ns[x := Fresh(s, x)];
    assert !IsValNode(ns[x]);
    if s.hi == 0 {
      forall i | 0 <= i < |ns| && IsValNode(ns[i]) ensures ns[i].lo != s.lo {
        assert ns[i].lo in ValueSlots(ns);
      }
    }
  }

  lemma PlaceRestOk(ns: seq<Node>, rk: seq<nat>, free: seq<nat>, cache: map<OpKey, Slot>, stack: seq<nat>,
                    mark: seq<nat>, level: nat, v2l: seq<nat>, l2v: seq<nat>, v2p: seq<nat>, s: Shape, m: nat)
    requires FreeOkOf(ns, free) && free != [] && forall i | 0 <= i < |ns| :: ns[i].index == i
    requires CacheOkOf(ns, cache) && StackOkOf(ns, stack) && MarkOkOf(ns, mark, level) && VarsOkOf(ns, v2l, l2v, v2p)
    ensures var x := free[|free| - 1]; var ns2 := ns[x := Fresh(s, x)];
      CacheOkOf(ns2, cache) && StackOkOf(ns2, stack) && MarkOkOf(ns2, mark, level) && VarsOkOf(ns2, v2l, l2v, v2p) &&
      (LevelsBelowOf(ns, m) && (s.hi != 0 ==> s.level < m) ==> LevelsBelowOf(ns2, m))
  {
    var x := free[|free| - 1];
    var ns2 := ns[x := Fresh(s, x)];
    assert !Live(ns, x) && ns[x].refcount == 0;
    forall k | k in cache && cache[k].Done?
      ensures Live(ns2, k.p) && Live(ns2, k.q) && Live(ns2, cache[k].r) && TopBound(ns2, k.op, k.p, k.q, cache[k].r)
    {
      assert TopBound(ns, k.op, k.p, k.q, cache[k].r);
    }
  }

  /** Overwriting an unprotected slot keeps the protected nodes. */
  lemma OverwriteKept(ns: seq<Node>, rk: seq<nat>, stack: seq<nat>, values: seq<real>, x: nat, n: Node, r: nat)
    requires Ranked(ns, rk) && (forall k | 0 <= k < |stack| :: stack[k] < |ns|) && x < |ns|
    requires x !in Protected(ns, rk, stack)
    ensures Kept(ns, rk, stack, values, ns[x := n], rk[x := r], values)
  {
    ProtectedFacts(ns, rk, stack);
    assert KeptOf(ns, rk, stack, values, ns[x := n], rk[x := r], values);
  }

  /** `insert_node`'s last step: the popped free slot receives the new node
      and becomes the table's entry for its shape; every invariant survives
      and the protected nodes are untouched. */
  lemma PlaceOk(ns: seq<Node>, rk: seq<nat>, free: seq<nat>, table: map<Shape, nat>, values: seq<real>,
                mpq: map<real, ConstInfo>, freeVals: seq<nat>, freeze: real, cache: map<OpKey, Slot>,
                stack: seq<nat>, mark: seq<nat>, level: nat, v2l: seq<nat>, l2v: seq<nat>, v2p: seq<nat>, s: Shape)
    requires CoreOf(ns, rk, free, table, values, mpq, freeVals, freeze, cache, stack, mark, level, v2l, l2v, v2p)
    requires free != [] && Admissible(ns, values, mpq, freeVals, freeze, s) && Absent(ns, s)
    ensures var x := free[|free| - 1]; var ns2 := ns[x := Fresh(s, x)]; var rk2 := rk[x := NewRank(rk, s)];
      CoreOf(ns2, rk2, free[..|free| - 1], table[s := x], values, mpq, freeVals, freeze, cache, stack,
             mark, level, v2l, l2v, v2p) &&
      Live(ns2, x) &&
      Kept(ns, rk, stack, values, ns2, rk2, values) &&
      (forall m: nat | LevelsBelowOf(ns, m) && (s.hi != 0 ==> s.level < m) :: LevelsBelowOf(ns2, m)) &&
      (StrictValuesOf(ns, values, mpq) ==> RegisteredBut(ns2, values, mpq, x)) &&
      (StrictValuesOf(ns, values, mpq) && s.hi != 0 ==> StrictValuesOf(ns2, values, mpq))
  {
    var x := free[|free| - 1];
    var ns2, rk2 := ns[x := Fresh(s, x)], rk[x := NewRank(rk, s)];
    PlaceNodesOk(ns, rk, free, values, mpq, freeVals, freeze, s);
    PlaceTableOk(ns, free, table, s);
    PlaceValuesOk(ns, free, values, mpq, freeVals, freeze, s);
    PlaceRestOk(ns, rk, free, cache, stack, mark, level, v2l, l2v, v2p, s, 0);
    forall m: nat | LevelsBelowOf(ns, m) && (s.hi != 0 ==> s.level < m) ensures LevelsBelowOf(ns2, m) {
      PlaceRestOk(ns, rk, free, cache, stack, mark, level, v2l, l2v, v2p, s, m);
    }
    FreeNotProtected(ns, rk, free, stack);
    OverwriteKept(ns, rk, stack, values, x, Fresh(s, x), NewRank(rk, s));
    assert !Live(ns, x);
    CacheMeaningOverwrite(ns, rk, values, cache, x, Fresh(s, x), rk2);
    assert Live(ns2, x) by {
      if s.hi == 0 {
        assert IsValNode(ns2[x]);
      }
    }
  }
}
