/**
  Building nodes: `make_node` over `insert_node`, value nodes through
  `imk_val` and `init_value`, and the variables of the order through
  `reserve_var`, `mk_var` and `set_level2var`.
 */
module PddBuild {
  import opened PddNode
  import opened PddSpec
  import opened PddState
  import opened PddGc
  import opened PddAlloc
  import opened PddOps

  // ------------------------------------------------------------ make_node

  /** `make_node(lvl, l, h)`: a zero `hi` makes the node redundant and `l`
      is the answer; otherwise the shape goes through the unique table. The
      level assertions on the children are the caller's obligation. The flag
      `is_new_node` ends up telling whether a node was created. */
  method MakeNode(a: Arena, ghost rk: seq<nat>, lvl: nat, l: nat, h: nat) returns (a2: Arena, ghost rk2: seq<nat>, o: Outcome)
    requires Core(a, rk) && Live(a.nodes, l) && Live(a.nodes, h)
    requires h != ZeroPdd ==> Top(a.nodes, l) < lvl as int && Top(a.nodes, h) <= lvl as int
    ensures Core(a2, rk2) && Kept(a.nodes, rk, a.stack, a.values, a2.nodes, rk2, a2.values)
    ensures a2 == a.(nodes := a2.nodes, free := a2.free, table := a2.table, mpq := a2.mpq,
                     freeVals := a2.freeVals, cache := a2.cache, isNew := a2.isNew)
    ensures forall m: nat | LevelsBelowOf(a.nodes, m) && (o.Ok? && h != ZeroPdd ==> lvl < m) :: LevelsBelowOf(a2.nodes, m)
    ensures StrictValuesOf(a.nodes, a.values, a.mpq) ==> StrictValuesOf(a2.nodes, a2.values, a2.mpq)
    ensures o.Ok? || o.MemOut? || o.Fault?
    ensures |a2.free| + 1 >= |a.free|
    ensures h == ZeroPdd ==> o == Ok(l) && a2 == a.(isNew := false) && rk2 == rk
    ensures o.Ok? ==> Live(a2.nodes, o.id) && (h != ZeroPdd ==> ShapeOf(a2.nodes[o.id]) == Shape(lvl, l, h))
    ensures o.Ok? ==> (a2.isNew <==> h != ZeroPdd && !Hit(a.table, Shape(lvl, l, h)))
    ensures h != ZeroPdd && Hit(a.table, Shape(lvl, l, h)) ==>
      o == Ok(a.table[Shape(lvl, l, h)]) && a2 == a.(isNew := false) && rk2 == rk
    ensures o.MemOut? <==>
      h != ZeroPdd && !Hit(a.table, Shape(lvl, l, h)) && a.free == [] && !o.Fault? && |a.nodes| > MaxNumPddNodes
    ensures o.Fault? ==>
      h != ZeroPdd && !Hit(a.table, Shape(lvl, l, h)) && a.free == [] && !a.disableGc &&
      (Collected(a.nodes, rk, a.stack, a.values, a.freeze, l) || Collected(a.nodes, rk, a.stack, a.values, a.freeze, h))
  {
    var a1 := a.(isNew := false);
    if h == ZeroPdd {
      KeptRefl(a.nodes, rk, a.stack, a.values);
      return a1, rk, Ok(l);
    }
    var s := Shape(lvl, l, h);
    assert AdmissibleOf(a.nodes, a.values, a.mpq, a.freeVals, a.freeze, s);
    a2, rk2, o := InsertNode(a1, rk, s);
  }

  // ------------------------------------------------------------ value nodes

  /** Writing the rational `r`, which the value table does not hold, into
      slot `vi` (the back of the free slot list or a new slot at the end)
      and making it the freeze value keeps the value invariants, touches no
      value a node uses, and makes `vi` a slot `insert_node` may store. */
  lemma StoredValueOk(ns: seq<Node>, rk: seq<nat>, stack: seq<nat>, values: seq<real>, mpq: map<real, ConstInfo>,
                      freeVals: seq<nat>, freeze: real, r: real, vi: nat, values2: seq<real>, freeVals2: seq<nat>)
    requires NodesOkOf(ns, rk) && StackOkOf(ns, stack)
    requires ValuesOkOf(ns, values, mpq, freeVals, freeze) && StrictValuesOf(ns, values, mpq) && r !in mpq
    requires freeVals == [] ==> vi == |values| && values2 == values + [r] && freeVals2 == freeVals
    requires freeVals != [] ==>
      vi == freeVals[|freeVals| - 1] && vi < |values| && values2 == values[vi := r] && freeVals2 == freeVals[..|freeVals| - 1]
    ensures ValuesOkOf(ns, values2, mpq, freeVals2, r) && StrictValuesOf(ns, values2, mpq)
    ensures Kept(ns, rk, stack, values, ns, rk, values2)
    ensures Admissible(ns, values2, mpq, freeVals2, r, Shape(0, vi, 0))
  {
    SlotWritten(ns, values, mpq, freeVals, freeze, r, vi, values2, freeVals2);
    StoredTableOk(ns, values, mpq, freeVals, freeze, r, vi, values2, freeVals2);
    assert GraphOk(ns, rk) && forall k | 0 <= k < |stack| :: Live(ns, stack[k]);
    StoredKept(ns, rk, stack, values, vi, values2);
    assert AdmissibleOf(ns, values2, mpq, freeVals2, r, Shape(0, vi, 0));
  }

  /** The slot `init_value` writes: a fresh or reused slot no value node
      uses, and every other slot keeps its rational. */
  lemma SlotWritten(ns: seq<Node>, values: seq<real>, mpq: map<real, ConstInfo>, freeVals: seq<nat>, freeze: real,
                    r: real, vi: nat, values2: seq<real>, freeVals2: seq<nat>)
    requires ValuesOkOf(ns, values, mpq, freeVals, freeze)
    requires freeVals == [] ==> vi == |values| && values2 == values + [r] && freeVals2 == freeVals
    requires freeVals != [] ==>
      vi == freeVals[|freeVals| - 1] && vi < |values| && values2 == values[vi := r] && freeVals2 == freeVals[..|freeVals| - 1]
    ensures 2 <= vi < |values2| && |values| <= |values2| && values2[vi] == r
    ensures forall j | 0 <= j < |values| && j != vi :: values2[j] == values[j]
    ensures vi !in ValueSlots(ns) && vi !in freeVals2 && FreeValuesOk(ns, values2, freeVals2)
  {
    assert FreeValuesOk(ns, values, freeVals) && ValueNodesOk(ns, values, mpq, freeze);
    if freeVals != [] {
      assert freeVals == freeVals2 + [vi];
    }
  }

  /** Writing a rational the value table does not hold into a slot no value
      node uses keeps the value invariants, now with that rational frozen. */
  lemma StoredTableOk(ns: seq<Node>, values: seq<real>, mpq: map<real, ConstInfo>, freeVals: seq<nat>, freeze: real,
                      r: real, vi: nat, values2: seq<real>, freeVals2: seq<nat>)
    requires ValuesOkOf(ns, values, mpq, freeVals, freeze) && StrictValuesOf(ns, values, mpq) && r !in mpq
    requires 2 <= vi < |values2| && |values| <= |values2| && values2[vi] == r
    requires forall j | 0 <= j < |values| && j != vi :: values2[j] == values[j]
    requires vi !in ValueSlots(ns) && FreeValuesOk(ns, values2, freeVals2)
    ensures ValuesOkOf(ns, values2, mpq, freeVals2, r) && StrictValuesOf(ns, values2, mpq)
  {
    assert ValueNodesOk(ns, values2, mpq, r) by {
      forall i | 0 <= i < |ns| && IsValNode(ns[i]) ensures values2[ns[i].lo] == values[ns[i].lo] {
        assert ns[i].lo in ValueSlots(ns);
      }
    }
    assert ValueTableOk(ns, values2, mpq) by {
      forall q | q in mpq ensures values2[mpq[q].valueIndex] == values[mpq[q].valueIndex] {
        assert mpq[q].valueIndex in ValueSlots(ns);
      }
    }
  }

  /** Writing a slot no value node uses changes no protected value. */
  lemma StoredKept(ns: seq<Node>, rk: seq<nat>, stack: seq<nat>, values: seq<real>, vi: nat, values2: seq<real>)
    requires Ranked(ns, rk) && (forall k | 0 <= k < |stack| :: stack[k] < |ns|)
    requires vi !in ValueSlots(ns) && |values| <= |values2|
    requires forall j | 0 <= j < |values| && j != vi :: values2[j] == values[j]
    ensures Kept(ns, rk, stack, values, ns, rk, values2)
  {
    var P := Protected(ns, rk, stack);
    ProtectedFacts(ns, rk, stack);
    assert Agree(P, ns, rk, ns, rk);
    forall i | i in P && i < |ns| && IsValNode(ns[i]) && ns[i].lo < |values|
      ensures values2[ns[i].lo] == values[ns[i].lo]
    {
      assert ns[i].lo in ValueSlots(ns);
    }
    assert KeptOf(ns, rk, stack, values, ns, rk, values2);
  }

  /** Registering the new value node `x` of slot `vi` under its rational
      completes the value table again. */
  lemma RegisteredOk(ns: seq<Node>, values: seq<real>, mpq: map<real, ConstInfo>, freeVals: seq<nat>, freeze: real,
                     r: real, vi: nat, x: nat)
    requires ValuesOkOf(ns, values, mpq, freeVals, freeze) && RegisteredBut(ns, values, mpq, x)
    requires x < |ns| && IsValNode(ns[x]) && ns[x].lo == vi && vi < |values| && values[vi] == r && r !in mpq
    ensures ValuesOkOf(ns, values, mpq[r := ConstInfo(vi, x)], freeVals, freeze)
    ensures StrictValuesOf(ns, values, mpq[r := ConstInfo(vi, x)])
  {
    var mpq2 := mpq[r := ConstInfo(vi, x)];
    forall i | 0 <= i < |ns| && IsValNode(ns[i]) && i != x ensures values[ns[i].lo] != r {
      assert values[ns[i].lo] in mpq;
    }
    assert ValueNodesOk(ns, values, mpq2, freeze);
  }

  /** Writing a free or new value-pool slot keeps the meaning of the cached results. */
  lemma StoredValueCacheMeaning(a: Arena, rk: seq<nat>, vi: nat, values2: seq<real>)
    requires Core(a, rk)
    requires a.freeVals == [] ==> vi == |a.values| && |values2| == |a.values| + 1 && values2[..|a.values|] == a.values
    requires a.freeVals != [] ==> vi == a.freeVals[|a.freeVals| - 1] && |values2| == |a.values| && values2 == a.values[vi := values2[vi]]
    ensures CacheMeaningOf(a.nodes, rk, values2, a.cache)
  {
    assert CoreOf(a.nodes, rk, a.free, a.table, a.values, a.mpq, a.freeVals, a.freeze, a.cache, a.stack,
                  a.mark, a.markLevel, a.v2l, a.l2v, a.v2p);
    assert FreeValuesOk(a.nodes, a.values, a.freeVals);
    forall i | 0 <= i < |a.nodes| && IsValNode(a.nodes[i]) && a.nodes[i].lo < |a.values|
      ensures a.nodes[i].lo < |values2| && values2[a.nodes[i].lo] == a.values[a.nodes[i].lo]
    {
      if a.freeVals == [] {
        assert values2[..|a.values|][a.nodes[i].lo] == values2[a.nodes[i].lo];
      } else {
        assert a.nodes[i].lo != vi;
      }
    }
    CacheMeaningValues(a.nodes, rk, a.values, a.cache, values2);
  }

  /** The end of `init_value`: the value node of slot `vi` goes through the
      unique table and is registered under `r`. A value node never faults,
      since collection only checks the children of polynomial nodes. */
  method InsertValue(a: Arena, ghost rk: seq<nat>, r: real, vi: nat) returns (a2: Arena, ghost rk2: seq<nat>, o: Outcome)
    requires Core(a, rk) && StrictValuesOf(a.nodes, a.values, a.mpq) && r !in a.mpq && r == a.freeze
    requires vi < |a.values| && a.values[vi] == r && Admissible(a.nodes, a.values, a.mpq, a.freeVals, a.freeze, Shape(0, vi, 0))
    ensures Core(a2, rk2) && StrictValuesOf(a2.nodes, a2.values, a2.mpq)
    ensures Kept(a.nodes, rk, a.stack, a.values, a2.nodes, rk2, a2.values)
    ensures a2 == a.(nodes := a2.nodes, free := a2.free, table := a2.table, mpq := a2.mpq,
                     freeVals := a2.freeVals, cache := a2.cache, isNew := a2.isNew)
    ensures forall m: nat | LevelsBelowOf(a.nodes, m) :: LevelsBelowOf(a2.nodes, m)
    ensures o.Ok? || o.MemOut?
    ensures o.Ok? ==>
      o.id < |a2.nodes| && IsValNode(a2.nodes[o.id]) && a2.nodes[o.id].lo == vi &&
      r in a2.mpq && a2.mpq[r] == ConstInfo(vi, o.id)
    ensures o.MemOut? <==> a.free == [] && |a.nodes| > MaxNumPddNodes
  {
    var s := Shape(0, vi, 0);
    assert !Hit(a.table, s);
    var a1;
    a1, rk2, o := InsertNode(a, rk, s);
    if o.Ok? {
      RegisteredOk(a1.nodes, a1.values, a1.mpq, a1.freeVals, a1.freeze, r, vi, o.id);
      a2 := a1.(mpq := a1.mpq[r := ConstInfo(vi, o.id)]);
    } else {
      a2 := a1;
    }
  }

  /** `init_value(r)`: the rational goes to the back of the free slot list
      or to a new slot at the end of the value pool, becomes the freeze
      value, and its value node is created and registered. */
  method InitValue(a: Arena, ghost rk: seq<nat>, r: real) returns (a2: Arena, ghost rk2: seq<nat>, o: Outcome)
    requires Core(a, rk) && StrictValuesOf(a.nodes, a.values, a.mpq) && r !in a.mpq
    ensures Core(a2, rk2) && StrictValuesOf(a2.nodes, a2.values, a2.mpq)
    ensures Kept(a.nodes, rk, a.stack, a.values, a2.nodes, rk2, a2.values)
    ensures a2 == a.(nodes := a2.nodes, free := a2.free, table := a2.table, values := a2.values, mpq := a2.mpq,
                     freeVals := a2.freeVals, freeze := r, cache := a2.cache, isNew := a2.isNew)
    ensures var vi := if a.freeVals == [] then |a.values| else a.freeVals[|a.freeVals| - 1];
      a2.values == (if a.freeVals == [] then a.values + [r] else a.values[vi := r]) &&
      (o.Ok? ==> o.id < |a2.nodes| && IsValNode(a2.nodes[o.id]) && a2.nodes[o.id].lo == vi &&
                 r in a2.mpq && a2.mpq[r] == ConstInfo(vi, o.id))
    ensures forall m: nat | LevelsBelowOf(a.nodes, m) :: LevelsBelowOf(a2.nodes, m)
    ensures o.Ok? || o.MemOut?
    ensures o.MemOut? <==> a.free == [] && |a.nodes| > MaxNumPddNodes
  {
    var vi, a1;
    if a.freeVals == [] {
      vi := |a.values|;
      a1 := a.(values := a.values + [r], freeze := r);
    } else {
      vi := a.freeVals[|a.freeVals| - 1];
      a1 := a.(values := a.values[vi := r], freeVals := a.freeVals[..|a.freeVals| - 1], freeze := r);
    }
    StoredValueOk(a.nodes, rk, a.stack, a.values, a.mpq, a.freeVals, a.freeze, r, vi, a1.values, a1.freeVals);
    StoredValueCacheMeaning(a, rk, vi, a1.values);
    assert Core(a1, rk);
    a2, rk2, o := InsertValue(a1, rk, r, vi);
  }

  /** The rational a value node stands for under the manager's semantics:
      `mod(r, 2)` under mod-2 semantics, and `r` itself otherwise. */
  function Normalized(mod2: bool, r: real): real
    requires mod2 ==> IsIntegral(r)
  {
    if mod2 then (r.Floor % 2) as real else r
  }

  /** `imk_val(r)`: 0 and 1 are the reserved nodes; under mod-2 semantics
      the rational is first reduced modulo 2 (an operation defined on
      integers only, so a fractional rational is a fault); a rational the
      value table holds gives its node back; any other is created by
      `init_value`. */
  method ImkVal(a: Arena, ghost rk: seq<nat>, r: real) returns (a2: Arena, ghost rk2: seq<nat>, o: Outcome)
    requires Core(a, rk) && StrictValuesOf(a.nodes, a.values, a.mpq)
    decreases if r == 0.0 || r == 1.0 then 0 else 1
    ensures Core(a2, rk2) && StrictValuesOf(a2.nodes, a2.values, a2.mpq)
    ensures Kept(a.nodes, rk, a.stack, a.values, a2.nodes, rk2, a2.values)
    ensures a2 == a.(nodes := a2.nodes, free := a2.free, table := a2.table, values := a2.values, mpq := a2.mpq,
                     freeVals := a2.freeVals, freeze := a2.freeze, cache := a2.cache, isNew := a2.isNew)
    ensures forall m: nat | LevelsBelowOf(a.nodes, m) :: LevelsBelowOf(a2.nodes, m)
    ensures o.Ok? || o.MemOut? || o.Fault?
    ensures r == 0.0 ==> o == Ok(ZeroPdd) && a2 == a && rk2 == rk
    ensures r == 1.0 ==> o == Ok(OnePdd) && a2 == a && rk2 == rk
    ensures o.Fault? <==> a.mod2 && !IsIntegral(r)
    ensures o.Ok? ==>
      o.id < |a2.nodes| && IsValNode(a2.nodes[o.id]) && a2.nodes[o.id].lo < |a2.values| &&
      ValOf(a2.nodes, a2.values, o.id) == Normalized(a.mod2, r)
    ensures !a.mod2 && r in a.mpq ==> o == Ok(a.mpq[r].nodeIndex) && a2 == a && rk2 == rk
    ensures o.MemOut? ==> a.free == [] && |a.nodes| > MaxNumPddNodes
  {
    if r == 0.0 || r == 1.0 {
      KeptRefl(a.nodes, rk, a.stack, a.values);
      ConstValues(a, rk);
      if a.mod2 {
        Mod2Image(r);
      }
      return a, rk, Ok(if r == 0.0 then ZeroPdd else OnePdd);
    }
    if a.mod2 {
      if !IsIntegral(r) {
        KeptRefl(a.nodes, rk, a.stack, a.values);
        return a, rk, Fault;
      }
      Mod2Image(r);
      a2, rk2, o := ImkVal(a, rk, (r.Floor % 2) as real);
      return;
    }
    a2, rk2, o := LookupValue(a, rk, r);
  }

  /** The nodes 0 and 1 are the values 0 and 1. */
  lemma ConstValues(a: Arena, rk: seq<nat>)
    requires Core(a, rk)
    ensures 2 <= |a.nodes| && IsValNode(a.nodes[ZeroPdd]) && IsValNode(a.nodes[OnePdd])
    ensures a.nodes[ZeroPdd].lo < |a.values| && a.nodes[OnePdd].lo < |a.values|
    ensures ValOf(a.nodes, a.values, ZeroPdd) == 0.0 && ValOf(a.nodes, a.values, OnePdd) == 1.0
  {
    assert CoreOf(a.nodes, rk, a.free, a.table, a.values, a.mpq, a.freeVals, a.freeze, a.cache, a.stack,
                  a.mark, a.markLevel, a.v2l, a.l2v, a.v2p);
  }

  /** Reduction modulo 2 lands on 0 or 1, which it leaves alone. */
  lemma Mod2Image(r: real)
    requires IsIntegral(r)
    ensures var m := (r.Floor % 2) as real;
      (m == 0.0 || m == 1.0) && IsIntegral(m) && Normalized(true, m) == m == Normalized(true, r)
  {
  }

  /** The last step of `imk_val`: the value table's node for `r`, or a new one. */
  method LookupValue(a: Arena, ghost rk: seq<nat>, r: real) returns (a2: Arena, ghost rk2: seq<nat>, o: Outcome)
    requires Core(a, rk) && StrictValuesOf(a.nodes, a.values, a.mpq)
    ensures Core(a2, rk2) && StrictValuesOf(a2.nodes, a2.values, a2.mpq)
    ensures Kept(a.nodes, rk, a.stack, a.values, a2.nodes, rk2, a2.values)
    ensures a2 == a.(nodes := a2.nodes, free := a2.free, table := a2.table, values := a2.values, mpq := a2.mpq,
                     freeVals := a2.freeVals, freeze := a2.freeze, cache := a2.cache, isNew := a2.isNew)
    ensures forall m: nat | LevelsBelowOf(a.nodes, m) :: LevelsBelowOf(a2.nodes, m)
    ensures o.Ok? || o.MemOut?
    ensures o.Ok? ==>
      o.id < |a2.nodes| && IsValNode(a2.nodes[o.id]) && a2.nodes[o.id].lo < |a2.values| &&
      ValOf(a2.nodes, a2.values, o.id) == r
    ensures r in a.mpq ==> o == Ok(a.mpq[r].nodeIndex) && a2 == a && rk2 == rk
    ensures o.MemOut? ==> a.free == [] && |a.nodes| > MaxNumPddNodes
  {
    if r in a.mpq {
      KeptRefl(a.nodes, rk, a.stack, a.values);
      return a, rk, Ok(a.mpq[r].nodeIndex);
    }
    a2, rk2, o := InitValue(a, rk, r);
  }

  // ------------------------------------------------------------ variables

  /** The arena after the reference count of `p` is set to `max_rc`. */
  function Pinned(ns: seq<Node>, p: nat): seq<Node>
    requires p < |ns|
  {
    ns[p := ns[p].(refcount := MaxRc)]
  }

  /** Pinning changes no shape, no index and therefore nothing derived from them. */
  lemma PinnedSame(ns: seq<Node>, p: nat)
    requires p < |ns|
    ensures |Pinned(ns, p)| == |ns|
    ensures forall i | 0 <= i < |ns| ::
      ShapeOf(Pinned(ns, p)[i]) == ShapeOf(ns[i]) && Pinned(ns, p)[i].index == ns[i].index &&
      IsValNode(Pinned(ns, p)[i]) == IsValNode(ns[i]) && IsInternal(Pinned(ns, p)[i]) == IsInternal(ns[i])
    ensures forall i | 0 <= i < |ns| && i != p :: Pinned(ns, p)[i] == ns[i]
    ensures forall i :: Live(Pinned(ns, p), i) == Live(ns, i)
    ensures forall i | 0 <= i < |ns| :: Top(Pinned(ns, p), i) == Top(ns, i)
  {
  }

  lemma PinnedNodesOk(ns: seq<Node>, rk: seq<nat>, p: nat)
    requires NodesOkOf(ns, rk) && Live(ns, p) && ns[p].hi != 0
    ensures NodesOkOf(Pinned(ns, p), rk)
  {
    var ns2 := Pinned(ns, p);
    PinnedSame(ns, p);
    assert Ranked(ns2, rk);
    forall i | 0 <= i < |ns2| && ns2[i].hi != 0 ensures WellFormedNode(ns2, ns2[i]) {
      assert WellFormedNode(ns, ns[i]);
    }
  }

  lemma PinnedValuesOk(ns: seq<Node>, values: seq<real>, mpq: map<real, ConstInfo>, freeVals: seq<nat>, freeze: real, p: nat)
    requires ValuesOkOf(ns, values, mpq, freeVals, freeze) && p < |ns|
    ensures ValuesOkOf(Pinned(ns, p), values, mpq, freeVals, freeze)
    ensures StrictValuesOf(ns, values, mpq) ==> StrictValuesOf(Pinned(ns, p), values, mpq)
  {
    PinnedSame(ns, p);
  }

  lemma PinnedRestOk(ns: seq<Node>, free: seq<nat>, table: map<Shape, nat>, cache: map<OpKey, Slot>, stack: seq<nat>,
                     mark: seq<nat>, level: nat, p: nat)
    requires FreeOkOf(ns, free) && TableOkOf(ns, table) && CanonOf(ns, table) && CacheOkOf(ns, cache)
    requires StackOkOf(ns, stack) && MarkOkOf(ns, mark, level) && Live(ns, p) && ns[p].hi != 0
    ensures var ns2 := Pinned(ns, p);
      FreeOkOf(ns2, free) && TableOkOf(ns2, table) && CanonOf(ns2, table) && CacheOkOf(ns2, cache) &&
      StackOkOf(ns2, stack) && MarkOkOf(ns2, mark, level) &&
      forall m: nat | LevelsBelowOf(ns, m) :: LevelsBelowOf(ns2, m)
  {
    PinnedSame(ns, p);
    assert forall k | 0 <= k < |free| :: free[k] != p;
  }

  lemma AppendVarOk(ns: seq<Node>, v2l: seq<nat>, l2v: seq<nat>, v2p: seq<nat>, p: nat)
    requires VarsOkOf(ns, v2l, l2v, v2p) && p < |ns| && ShapeOf(ns[p]) == Shape(|v2l|, ZeroPdd, OnePdd)
    ensures VarsOkOf(Pinned(ns, p), v2l + [|v2l|], l2v + [|v2l|], v2p + [p])
  {
    PinnedSame(ns, p);
  }

  /** Pinning the node `p` of shape `(v, 0, 1)` for the next variable `v`
      (reference count `max_rc`) and appending `v` to `var2level`,
      `level2var` and `var2pdd` keeps the invariant. */
  lemma AddVarOk(ns: seq<Node>, rk: seq<nat>, free: seq<nat>, table: map<Shape, nat>, values: seq<real>,
                 mpq: map<real, ConstInfo>, freeVals: seq<nat>, freeze: real, cache: map<OpKey, Slot>,
                 stack: seq<nat>, mark: seq<nat>, level: nat, v2l: seq<nat>, l2v: seq<nat>, v2p: seq<nat>, p: nat)
    requires CoreOf(ns, rk, free, table, values, mpq, freeVals, freeze, cache, stack, mark, level, v2l, l2v, v2p)
    requires Live(ns, p) && ShapeOf(ns[p]) == Shape(|v2l|, ZeroPdd, OnePdd)
    ensures var ns2 := Pinned(ns, p); var v := |v2l|;
      CoreOf(ns2, rk, free, table, values, mpq, freeVals, freeze, cache, stack, mark, level,
             v2l + [v], l2v + [v], v2p + [p]) &&
      (StrictValuesOf(ns, values, mpq) ==> StrictValuesOf(ns2, values, mpq)) &&
      forall m: nat | LevelsBelowOf(ns, m) :: LevelsBelowOf(ns2, m)
  {
    PinnedNodesOk(ns, rk, p);
    PinnedValuesOk(ns, values, mpq, freeVals, freeze, p);
    PinnedRestOk(ns, free, table, cache, stack, mark, level, p);
    AppendVarOk(ns, v2l, l2v, v2p, p);
    CacheMeaningRefcount(ns, rk, values, cache, p, MaxRc);
  }

  /** One round of `reserve_var`'s loop: the node `(v, 0, 1)` of the next
      variable `v` is made and pinned, and `v` joins the order at level
      `v`. Under the invariant no node sits at level `v` yet, so memory
      exhaustion is the only way it can fail. */
  method AddVar(a: Arena, ghost rk: seq<nat>) returns (a2: Arena, ghost rk2: seq<nat>, ok: bool)
    requires Valid(a, rk)
    ensures Valid(a2, rk2)
    ensures a2 == a.(nodes := a2.nodes, free := a2.free, table := a2.table, mpq := a2.mpq, freeVals := a2.freeVals,
                     cache := a2.cache, isNew := a2.isNew, v2l := a2.v2l, l2v := a2.l2v, v2p := a2.v2p)
    ensures !ok <==> a.free == [] && |a.nodes| > MaxNumPddNodes
    ensures ok ==> |a2.free| + 1 >= |a.free|
    ensures var v := |a.v2l|;
      if ok then a2.v2l == a.v2l + [v] && a2.l2v == a.l2v + [v] && |a2.v2p| == |a.v2p| + 1 && a2.v2p == a.v2p + [a2.v2p[|a.v2p|]]
      else a2.v2l == a.v2l && a2.l2v == a.l2v && a2.v2p == a.v2p
  {
    var v: nat := |a.v2l|;
    assert LevelsBelowOf(a.nodes, v + 1);
    var a1, o;
    a1, rk2, o := MakeNode(a, rk, v, ZeroPdd, OnePdd);
    if !o.Ok? {
      return a1, rk2, false;
    }
    a2 := PinVar(a1, rk2, o.id);
    ok := true;
  }

  /** The end of a round of `reserve_var`: the new node `p` of shape
      `(v, 0, 1)` is pinned, and `v` joins the order at level `v`. */
  method PinVar(a1: Arena, ghost rk: seq<nat>, p: nat) returns (a2: Arena)
    requires Core(a1, rk) && StrictValuesOf(a1.nodes, a1.values, a1.mpq) && LevelsBelowOf(a1.nodes, |a1.v2l| + 1)
    requires Live(a1.nodes, p) && ShapeOf(a1.nodes[p]) == Shape(|a1.v2l|, ZeroPdd, OnePdd)
    ensures Valid(a2, rk)
    ensures var v := |a1.v2l|;
      a2 == a1.(nodes := Pinned(a1.nodes, p), v2l := a1.v2l + [v], l2v := a1.l2v + [v], v2p := a1.v2p + [p])
  {
    var v := |a1.v2l|;
    AddVarOk(a1.nodes, rk, a1.free, a1.table, a1.values, a1.mpq, a1.freeVals, a1.freeze, a1.cache, a1.stack,
             a1.mark, a1.markLevel, a1.v2l, a1.l2v, a1.v2p, p);
    a2 := a1.(nodes := Pinned(a1.nodes, p), v2l := a1.v2l + [v], l2v := a1.l2v + [v], v2p := a1.v2p + [p]);
  }

  /** `reserve_var(i)`: adds variables `|var2level|`, ..., `i`, each at the
      level of its own index, until variable `i` exists; on memory
      exhaustion the variables added so far stay. */
  method ReserveVar(a: Arena, ghost rk: seq<nat>, i: nat) returns (a2: Arena, ghost rk2: seq<nat>, ok: bool)
    requires Valid(a, rk)
    ensures Valid(a2, rk2)
    ensures a2 == a.(nodes := a2.nodes, free := a2.free, table := a2.table, mpq := a2.mpq, freeVals := a2.freeVals,
                     cache := a2.cache, isNew := a2.isNew, v2l := a2.v2l, l2v := a2.l2v, v2p := a2.v2p)
    ensures |a.v2l| <= |a2.v2l| <= Max(|a.v2l|, i + 1)
    ensures ok <==> i < |a2.v2l|
    ensures forall k | 0 <= k < |a2.v2l| :: a2.v2l[k] == if k < |a.v2l| then a.v2l[k] else k
    ensures forall k | 0 <= k < |a2.l2v| :: a2.l2v[k] == if k < |a.l2v| then a.l2v[k] else k
    ensures forall k | 0 <= k < |a.v2p| :: a2.v2p[k] == a.v2p[k]
    ensures i < |a.v2l| ==> a2 == a && rk2 == rk
    ensures |a2.free| + |a2.v2l| >= |a.free| + |a.v2l|
    ensures i < |a.free| + |a.v2l| ==> ok
  {
    a2, rk2, ok := a, rk, true;
    VarLengths(a, rk);
    while |a2.v2l| <= i
      invariant Valid(a2, rk2) && Reserved(a, a2)
      invariant |a.v2l| <= |a2.v2l| <= Max(|a.v2l|, i + 1)
      invariant i < |a.v2l| ==> a2 == a && rk2 == rk
      invariant |a2.free| + |a2.v2l| >= |a.free| + |a.v2l|
      decreases i + 1 - |a2.v2l|
    {
      VarLengths(a2, rk2);
      var a3, rk3, ok3 := AddVar(a2, rk2);
      ReservedStep(a, a2, a3, ok3);
      a2, rk2, ok := a3, rk3, ok3;
      if !ok {
        return;
      }
    }
  }

  /** `a2` is `a` with changed nodes, tables and cache, and variables
      appended to the order, each at the level of its own index. */
  ghost predicate Reserved(a: Arena, a2: Arena)
  {
    a2 == a.(nodes := a2.nodes, free := a2.free, table := a2.table, mpq := a2.mpq, freeVals := a2.freeVals,
             cache := a2.cache, isNew := a2.isNew, v2l := a2.v2l, l2v := a2.l2v, v2p := a2.v2p) &&
    |a.v2l| <= |a2.v2l| && |a.l2v| <= |a2.l2v| && |a.v2p| <= |a2.v2p| &&
    (forall k | 0 <= k < |a2.v2l| :: a2.v2l[k] == if k < |a.v2l| then a.v2l[k] else k) &&
    (forall k | 0 <= k < |a2.l2v| :: a2.l2v[k] == if k < |a.l2v| then a.l2v[k] else k) &&
    (forall k | 0 <= k < |a.v2p| :: a2.v2p[k] == a.v2p[k])
  }

  /** The three vectors of the variable order have one entry per variable. */
  lemma VarLengths(a: Arena, rk: seq<nat>)
    requires Valid(a, rk)
    ensures |a.v2l| == |a.l2v| == |a.v2p|
  {
    assert VarsOkOf(a.nodes, a.v2l, a.l2v, a.v2p);
  }

  /** One `AddVar` step extends a reservation. */
  lemma ReservedStep(a: Arena, a2: Arena, a3: Arena, ok: bool)
    requires Reserved(a, a2) && |a.v2l| == |a.l2v| && |a2.v2l| == |a2.l2v|
    requires a3 == a2.(nodes := a3.nodes, free := a3.free, table := a3.table, mpq := a3.mpq, freeVals := a3.freeVals,
                       cache := a3.cache, isNew := a3.isNew, v2l := a3.v2l, l2v := a3.l2v, v2p := a3.v2p)
    requires var v := |a2.v2l|;
      if ok then a3.v2l == a2.v2l + [v] && a3.l2v == a2.l2v + [v] && |a3.v2p| == |a2.v2p| + 1 && a3.v2p == a2.v2p + [a3.v2p[|a2.v2p|]]
      else a3.v2l == a2.v2l && a3.l2v == a2.l2v && a3.v2p == a2.v2p
    ensures Reserved(a, a3) && |a3.v2l| == |a2.v2l| + (if ok then 1 else 0)
  {
  }

  /** `mk_var(i)`: reserves the variable and answers its pinned node, the
      node `(var2level[i], 0, 1)`. */
  method MkVar(a: Arena, ghost rk: seq<nat>, i: nat) returns (a2: Arena, ghost rk2: seq<nat>, o: Outcome)
    requires Valid(a, rk)
    ensures Valid(a2, rk2)
    ensures a2 == a.(nodes := a2.nodes, free := a2.free, table := a2.table, mpq := a2.mpq, freeVals := a2.freeVals,
                     cache := a2.cache, isNew := a2.isNew, v2l := a2.v2l, l2v := a2.l2v, v2p := a2.v2p)
    ensures o.Ok? || o.MemOut?
    ensures o.Ok? ==>
      i < |a2.v2p| && o.id == a2.v2p[i] && o.id < |a2.nodes| &&
      ShapeOf(a2.nodes[o.id]) == Shape(a2.v2l[i], ZeroPdd, OnePdd) && a2.nodes[o.id].refcount == MaxRc
    ensures i < |a.v2l| ==> o == Ok(a.v2p[i]) && a2 == a && rk2 == rk
  {
    var ok;
    a2, rk2, ok := ReserveVar(a, rk, i);
    if !ok {
      return a2, rk2, MemOut;
    }
    o := Ok(a2.v2p[i]);
  }
}
