/**
  The manager's invariants, stated over plain values so that their
  preservation can be proved one field at a time, and the facts about
  growing the arena with blank nodes.
 */
module PddState {
  import opened PddNode
  import opened PddSpec

  /** The mark level is an unsigned 32-bit counter. */
  const MarkWrap: nat := 0x1_0000_0000

  /** The arena: the two reserved value nodes, self-indexed records, value
      nodes at level 0, and an acyclic, level-ordered graph. */
  ghost predicate NodesOkOf(ns: seq<Node>, rk: seq<nat>)
  {
    |ns| >= 2 && |rk| == |ns| && rk[0] == 0 && rk[1] == 0 &&
    ns[0] == Node(MaxRc, 0, 0, 0, 0) && ns[1] == Node(MaxRc, 0, 1, 0, 1) &&
    (forall i | 0 <= i < |ns| :: ns[i].index == i) &&
    (forall i | 0 <= i < |ns| && IsValNode(ns[i]) :: ns[i].level == 0) &&
    GraphOk(ns, rk)
  }

  /** Free nodes are blank (`lo == hi == 0`, no references), never 0 or 1, and listed once. */
  ghost predicate FreeOkOf(ns: seq<Node>, free: seq<nat>)
  {
    (forall k | 0 <= k < |free| ::
      2 <= free[k] < |ns| && IsInternal(ns[free[k]]) && ns[free[k]].refcount == 0) &&
    (forall j, k | 0 <= j < k < |free| :: free[j] != free[k])
  }

  /** A non-placeholder unique-table entry names a node of that shape. */
  ghost predicate TableOkOf(ns: seq<Node>, table: map<Shape, nat>)
  {
    forall s | s in table && table[s] != 0 :: table[s] < |ns| && ShapeOf(ns[table[s]]) == s
  }

  /** Hash-consing: every node with a non-zero `hi` is the table's entry for its shape. */
  ghost predicate CanonOf(ns: seq<Node>, table: map<Shape, nat>)
  {
    forall i | 0 <= i < |ns| && ns[i].hi != 0 :: ShapeOf(ns[i]) in table && table[ShapeOf(ns[i])] == i
  }

  /** The value pool and the value table agree with the value nodes. A value
      node whose rational is not in the table holds the freeze value (the
      moment between creating a value node and registering it). */
  ghost predicate ValuesOkOf(ns: seq<Node>, values: seq<real>, mpq: map<real, ConstInfo>, freeVals: seq<nat>, freeze: real)
  {
    |values| >= 2 && values[0] == 0.0 && values[1] == 1.0 &&
    0.0 in mpq && mpq[0.0] == ConstInfo(0, 0) &&
    1.0 in mpq && mpq[1.0] == ConstInfo(1, 1) &&
    ValueNodesOk(ns, values, mpq, freeze) &&
    ValueTableOk(ns, values, mpq) &&
    SlotsInjective(ns) &&
    FreeValuesOk(ns, values, freeVals)
  }

  ghost predicate ValueNodesOk(ns: seq<Node>, values: seq<real>, mpq: map<real, ConstInfo>, freeze: real)
  {
    forall i | 0 <= i < |ns| && IsValNode(ns[i]) ::
      ns[i].lo < |values| &&
      (values[ns[i].lo] in mpq ==> mpq[values[ns[i].lo]] == ConstInfo(ns[i].lo, i)) &&
      (values[ns[i].lo] !in mpq ==> values[ns[i].lo] == freeze)
  }

  ghost predicate ValueTableOk(ns: seq<Node>, values: seq<real>, mpq: map<real, ConstInfo>)
  {
    forall r | r in mpq ::
      mpq[r].nodeIndex < |ns| && IsValNode(ns[mpq[r].nodeIndex]) &&
      ns[mpq[r].nodeIndex].lo == mpq[r].valueIndex &&
      mpq[r].valueIndex < |values| && values[mpq[r].valueIndex] == r
  }

  /** Distinct value nodes use distinct slots of the value pool. */
  ghost predicate SlotsInjective(ns: seq<Node>)
  {
    forall i, j | 0 <= i < |ns| && 0 <= j < |ns| && IsValNode(ns[i]) && IsValNode(ns[j]) && ns[i].lo == ns[j].lo :: i == j
  }

  ghost predicate FreeValuesOk(ns: seq<Node>, values: seq<real>, freeVals: seq<nat>)
  {
    (forall k | 0 <= k < |freeVals| :: 2 <= freeVals[k] < |values|) &&
    (forall j, k | 0 <= j < k < |freeVals| :: freeVals[j] != freeVals[k]) &&
    (forall i | 0 <= i < |ns| && IsValNode(ns[i]) :: ns[i].lo !in freeVals)
  }

  /** Every value node's rational is registered in the value table. */
  ghost predicate StrictValuesOf(ns: seq<Node>, values: seq<real>, mpq: map<real, ConstInfo>)
  {
    forall i | 0 <= i < |ns| && IsValNode(ns[i]) && ns[i].lo < |values| :: values[ns[i].lo] in mpq
  }

  /** The level bound of an operation's result: reduction and negation stay
      at or below the first argument, addition and multiplication at or below
      the higher argument. */
  ghost predicate TopBound(ns: seq<Node>, op: nat, p: nat, q: nat, r: nat)
    requires p < |ns| && q < |ns| && r < |ns|
  {
    if op == ReduceOp || op == MinusOp then Top(ns, r) <= Top(ns, p)
    else Top(ns, r) <= Top(ns, p) || Top(ns, r) <= Top(ns, q)
  }

  /** A computed cache entry relates live polynomials and respects the level bound of its operation. */
  ghost predicate CacheOkOf(ns: seq<Node>, cache: map<OpKey, Slot>)
  {
    forall k | k in cache && cache[k].Done? ::
      Live(ns, k.p) && Live(ns, k.q) && Live(ns, cache[k].r) && TopBound(ns, k.op, k.p, k.q, cache[k].r)
  }

  /** `r` is reduced by `q`: unless `q` is a value, the leading monomial of
      `q` does not divide that of `r`. */
  ghost predicate ReducedBy(ns: seq<Node>, rk: seq<nat>, q: nat, r: nat)
  {
    Ranked(ns, rk) && q < |ns| && r < |ns| && (!IsValNode(ns[q]) ==> !LmDivides(ns, rk, q, r))
  }

  /** In terms of leading monomials: a reduced `r` has a leading monomial
      that the leading monomial of a non-value `q` does not divide. */
  lemma ReducedByMeaning(ns: seq<Node>, rk: seq<nat>, q: nat, r: nat)
    requires GraphOk(ns, rk) && Live(ns, q) && Live(ns, r) && !IsValNode(ns[q])
    ensures ReducedBy(ns, rk, q, r) <==>
            !(multiset(LeadingMonomial(ns, rk, q)) <= multiset(LeadingMonomial(ns, rk, r)))
  {
    LmDividesIff(ns, rk, q, r);
  }

  /** What the cached results mean beyond `CacheOkOf`: a computed negation
      is the negation of its operand, and a computed reduction is reduced
      by its divisor. */
  ghost predicate CacheMeaningOf(ns: seq<Node>, rk: seq<nat>, values: seq<real>, cache: map<OpKey, Slot>)
  {
    Ranked(ns, rk) &&
    (forall k | k in cache && cache[k].Done? && k.op == MinusOp ::
      k.p < |ns| && cache[k].r < |ns| && Negated(ns, rk, values, k.p, cache[k].r)) &&
    (forall k | k in cache && cache[k].Done? && k.op == ReduceOp :: ReducedBy(ns, rk, k.q, cache[k].r))
  }

  /** The ids that denote a polynomial. */
  ghost function LiveSet(ns: seq<Node>): set<nat>
  {
    set i | 0 <= i < |ns| && Live(ns, i)
  }

  lemma LiveClosed(ns: seq<Node>, rk: seq<nat>)
    requires GraphOk(ns, rk)
    ensures Closed(ns, LiveSet(ns))
  {
    forall y | y in LiveSet(ns) ensures y < |ns| && (!IsValNode(ns[y]) ==> ns[y].lo in LiveSet(ns) && ns[y].hi in LiveSet(ns)) {
      if !IsValNode(ns[y]) {
        ChildrenLive(ns, rk, y);
      }
    }
  }

  /** The meaning of the cached results survives a step that keeps every live node. */
  lemma CacheMeaningKept(ns1: seq<Node>, rk1: seq<nat>, v1: seq<real>, ns2: seq<Node>, rk2: seq<nat>, v2: seq<real>,
                          cache: map<OpKey, Slot>)
    requires GraphOk(ns1, rk1) && Ranked(ns2, rk2) && CacheOkOf(ns1, cache) && CacheMeaningOf(ns1, rk1, v1, cache)
    requires KeptOn(LiveSet(ns1), ns1, v1, ns2, v2)
    ensures CacheMeaningOf(ns2, rk2, v2, cache)
  {
    LiveClosed(ns1, rk1);
    forall k | k in cache && cache[k].Done? && k.op == MinusOp
      ensures k.p < |ns2| && cache[k].r < |ns2| && Negated(ns2, rk2, v2, k.p, cache[k].r)
    {
      NegatedKeptOn(LiveSet(ns1), ns1, rk1, v1, ns2, rk2, v2, k.p, cache[k].r);
    }
    forall k | k in cache && cache[k].Done? && k.op == ReduceOp
      ensures ReducedBy(ns2, rk2, k.q, cache[k].r)
    {
      LmDividesKeptOn(LiveSet(ns1), ns1, rk1, v1, ns2, rk2, v2, k.q, cache[k].r);
    }
  }

  /** Overwriting an id that denotes no polynomial keeps the meaning of the cached results. */
  lemma CacheMeaningOverwrite(ns: seq<Node>, rk: seq<nat>, values: seq<real>, cache: map<OpKey, Slot>, x: nat, n: Node, rk2: seq<nat>)
    requires GraphOk(ns, rk) && CacheOkOf(ns, cache) && CacheMeaningOf(ns, rk, values, cache)
    requires x < |ns| && !Live(ns, x) && Ranked(ns[x := n], rk2)
    ensures CacheMeaningOf(ns[x := n], rk2, values, cache)
  {
    assert KeptOn(LiveSet(ns), ns, values, ns[x := n], values);
    CacheMeaningKept(ns, rk, values, ns[x := n], rk2, values, cache);
  }

  /** Pinning a node keeps the meaning of the cached results. */
  lemma CacheMeaningRefcount(ns: seq<Node>, rk: seq<nat>, values: seq<real>, cache: map<OpKey, Slot>, x: nat, c: nat)
    requires GraphOk(ns, rk) && CacheOkOf(ns, cache) && CacheMeaningOf(ns, rk, values, cache) && x < |ns|
    ensures Ranked(ns[x := ns[x].(refcount := c)], rk) && CacheMeaningOf(ns[x := ns[x].(refcount := c)], rk, values, cache)
  {
    var ns2 := ns[x := ns[x].(refcount := c)];
    assert KeptOn(LiveSet(ns), ns, values, ns2, values);
    assert forall i | 0 <= i < |ns2| :: IsValNode(ns2[i]) == IsValNode(ns[i]);
    CacheMeaningKept(ns, rk, values, ns2, rk, values, cache);
  }

  /** Appending nodes keeps the meaning of the cached results. */
  lemma CacheMeaningGrown(ns: seq<Node>, rk: seq<nat>, values: seq<real>, cache: map<OpKey, Slot>, ns2: seq<Node>, rk2: seq<nat>)
    requires GraphOk(ns, rk) && CacheOkOf(ns, cache) && CacheMeaningOf(ns, rk, values, cache)
    requires Ranked(ns2, rk2) && |ns| <= |ns2| && forall i | 0 <= i < |ns| :: ns2[i] == ns[i]
    ensures CacheMeaningOf(ns2, rk2, values, cache)
  {
    assert KeptOn(LiveSet(ns), ns, values, ns2, values);
    CacheMeaningKept(ns, rk, values, ns2, rk2, values, cache);
  }

  /** Writing a value-pool slot that no value node uses keeps the meaning of the cached results. */
  lemma CacheMeaningValues(ns: seq<Node>, rk: seq<nat>, values: seq<real>, cache: map<OpKey, Slot>, values2: seq<real>)
    requires GraphOk(ns, rk) && CacheOkOf(ns, cache) && CacheMeaningOf(ns, rk, values, cache)
    requires forall i | 0 <= i < |ns| && IsValNode(ns[i]) && ns[i].lo < |values| ::
      ns[i].lo < |values2| && values2[ns[i].lo] == values[ns[i].lo]
    ensures CacheMeaningOf(ns, rk, values2, cache)
  {
    assert KeptOn(LiveSet(ns), ns, values, ns, values2);
    CacheMeaningKept(ns, rk, values, ns, rk, values2, cache);
  }

  ghost predicate StackOkOf(ns: seq<Node>, stack: seq<nat>)
  {
    forall k | 0 <= k < |stack| :: Live(ns, stack[k])
  }

  /** No mark is newer than the current generation. */
  ghost predicate MarkOkOf(ns: seq<Node>, mark: seq<nat>, level: nat)
  {
    |mark| <= |ns| && level < MarkWrap && forall k | 0 <= k < |mark| :: mark[k] <= level
  }

  /** `var2level` and `level2var` are inverse permutations and `var2pdd[v]` is the pinned node of `v`. */
  ghost predicate VarsOkOf(ns: seq<Node>, v2l: seq<nat>, l2v: seq<nat>, v2p: seq<nat>)
  {
    |v2l| == |l2v| == |v2p| &&
    (forall v | 0 <= v < |v2l| :: v2l[v] < |l2v| && l2v[v2l[v]] == v) &&
    (forall l | 0 <= l < |l2v| :: l2v[l] < |v2l| && v2l[l2v[l]] == l) &&
    (forall v | 0 <= v < |v2p| ::
      v2p[v] < |ns| && ShapeOf(ns[v2p[v]]) == Shape(v2l[v], ZeroPdd, OnePdd) && ns[v2p[v]].refcount == MaxRc)
  }

  /** Every polynomial node sits at a level below `n`. */
  ghost predicate LevelsBelowOf(ns: seq<Node>, n: nat)
  {
    forall i | 0 <= i < |ns| && ns[i].hi != 0 :: ns[i].level < n
  }

  /** No unique-table entry names a node on the free list. */
  ghost predicate TableFreeOf(table: map<Shape, nat>, free: seq<nat>)
  {
    forall s | s in table :: table[s] !in free
  }

  /** Ids of the value-pool slots that value nodes use. */
  ghost function ValueSlots(ns: seq<Node>): set<nat>
  {
    set i | 0 <= i < |ns| && IsValNode(ns[i]) :: ns[i].lo
  }

  /** The manager's invariant, apart from the level bound and the registration of every value node. */
  ghost predicate CoreOf(ns: seq<Node>, rk: seq<nat>, free: seq<nat>, table: map<Shape, nat>, values: seq<real>,
                         mpq: map<real, ConstInfo>, freeVals: seq<nat>, freeze: real, cache: map<OpKey, Slot>,
                         stack: seq<nat>, mark: seq<nat>, level: nat, v2l: seq<nat>, l2v: seq<nat>, v2p: seq<nat>)
  {
    NodesOkOf(ns, rk) && FreeOkOf(ns, free) && TableOkOf(ns, table) && CanonOf(ns, table) && TableFreeOf(table, free) &&
    ValuesOkOf(ns, values, mpq, freeVals, freeze) && CacheOkOf(ns, cache) && CacheMeaningOf(ns, rk, values, cache) &&
    StackOkOf(ns, stack) && MarkOkOf(ns, mark, level) && VarsOkOf(ns, v2l, l2v, v2p)
  }

  /** The manager's fields as one value: the node arena and its free list,
      the unique table, the value pool with its table, free slots and freeze
      value, the operation cache and whether a spare entry is kept, the
      protection stack, the marks, the variable order and the flags. */
  datatype Arena = Arena(
    nodes: seq<Node>, free: seq<nat>, table: map<Shape, nat>,
    values: seq<real>, mpq: map<real, ConstInfo>, freeVals: seq<nat>, freeze: real,
    cache: map<OpKey, Slot>, spare: bool, stack: seq<nat>, mark: seq<nat>, markLevel: nat,
    v2l: seq<nat>, l2v: seq<nat>, v2p: seq<nat>, mod2: bool, disableGc: bool, isNew: bool)

  /** The manager's invariant on a state. The body binds the conjunction to a
      name so that an obligation `Core(a, rk)` is checked as one fact rather
      than conjunct by conjunct. */
  ghost predicate Core(a: Arena, rk: seq<nat>)
  {
    var ok := CoreOf(a.nodes, rk, a.free, a.table, a.values, a.mpq, a.freeVals, a.freeze, a.cache, a.stack,
                     a.mark, a.markLevel, a.v2l, a.l2v, a.v2p);
    ok
  }

  /** The full invariant: every value node is registered and every polynomial
      node sits at a level of the variable order. */
  ghost predicate Valid(a: Arena, rk: seq<nat>)
  {
    Core(a, rk) && StrictValuesOf(a.nodes, a.values, a.mpq) && LevelsBelowOf(a.nodes, |a.l2v|)
  }

  /** Hash-consing makes negation a function: two live nodes that both
      negate the live node `x` are the same node. */
  lemma {:induction false} NegatedUniqueOf(ns: seq<Node>, rk: seq<nat>, table: map<Shape, nat>, values: seq<real>,
                                           mpq: map<real, ConstInfo>, freeze: real, x: nat, r1: nat, r2: nat)
    requires GraphOk(ns, rk) && CanonOf(ns, table) && ValueNodesOk(ns, values, mpq, freeze) && StrictValuesOf(ns, values, mpq)
    requires Live(ns, x) && Live(ns, r1) && Live(ns, r2)
    requires Negated(ns, rk, values, x, r1) && Negated(ns, rk, values, x, r2)
    ensures r1 == r2
    decreases rk[x]
  {
    if !IsVal(ns, x) {
      ChildrenLive(ns, rk, x);
      ChildrenLive(ns, rk, r1);
      ChildrenLive(ns, rk, r2);
      NegatedUniqueOf(ns, rk, table, values, mpq, freeze, ns[x].lo, ns[r1].lo, ns[r2].lo);
      NegatedUniqueOf(ns, rk, table, values, mpq, freeze, ns[x].hi, ns[r1].hi, ns[r2].hi);
      assert ShapeOf(ns[r1]) == ShapeOf(ns[r2]);
    }
  }

  /** Hash-consing and the exact value table make `lt` total: of two
      different live nodes, one is smaller than the other. */
  lemma {:induction false} LtTotalOf(ns: seq<Node>, rk: seq<nat>, table: map<Shape, nat>, values: seq<real>,
                                     mpq: map<real, ConstInfo>, freeze: real, x: nat, y: nat)
    requires GraphOk(ns, rk) && CanonOf(ns, table) && ValueNodesOk(ns, values, mpq, freeze) && StrictValuesOf(ns, values, mpq)
    requires Live(ns, x) && Live(ns, y) && x != y
    ensures ValuesIndexed(ns, values)
    ensures Lt(ns, values, rk, x, y) || Lt(ns, values, rk, y, x)
    decreases rk[x] + rk[y]
  {
    if IsVal(ns, x) && IsVal(ns, y) {
      assert values[ns[x].lo] in mpq && values[ns[y].lo] in mpq;
    } else if !IsVal(ns, x) && !IsVal(ns, y) && ns[x].level == ns[y].level {
      ChildrenLive(ns, rk, x);
      ChildrenLive(ns, rk, y);
      assert ShapeOf(ns[x]) != ShapeOf(ns[y]);
      if ns[x].hi == ns[y].hi {
        LtTotalOf(ns, rk, table, values, mpq, freeze, ns[x].lo, ns[y].lo);
      } else {
        LtTotalOf(ns, rk, table, values, mpq, freeze, ns[x].hi, ns[y].hi);
      }
    }
  }

  // ------------------------------------------------------------ growing the arena

  /** `n` blank nodes indexed from `from` on, as `alloc_free_nodes` appends them. */
  function Blanks(from: nat, n: nat): (bs: seq<Node>)
    ensures |bs| == n && forall k | 0 <= k < n :: bs[k] == Node(0, 0, 0, 0, from + k)
  {
    seq(n, k requires 0 <= k < n => Node(0, 0, 0, 0, from + k))
  }

  function Indices(from: nat, n: nat): (xs: seq<nat>)
    ensures |xs| == n && forall k | 0 <= k < n :: xs[k] == from + k
  {
    seq(n, k requires 0 <= k < n => from + k)
  }

  lemma {:induction false} ReverseIndex(s: seq<nat>)
    ensures |Reverse(s)| == |s|
    ensures forall k | 0 <= k < |s| :: Reverse(s)[k] == s[|s| - 1 - k]
    decreases |s|
  {
    if s != [] {
      ReverseIndex(s[1..]);
    }
  }

  /** Node records and ranks below `|ns|` are the same in the longer arena. */
  ghost predicate Prefix(ns: seq<Node>, rk: seq<nat>, ns2: seq<Node>, rk2: seq<nat>)
  {
    |ns| <= |ns2| && |rk| == |ns| && |rk2| == |ns2| &&
    (forall i | 0 <= i < |ns| :: ns2[i] == ns[i]) && (forall i | 0 <= i < |ns| :: rk2[i] == rk[i])
  }

  lemma WellFormedPrefix(ns: seq<Node>, ns2: seq<Node>, n: Node)
    requires |ns| <= |ns2| && forall i | 0 <= i < |ns| :: ns2[i] == ns[i]
    requires n.hi != 0 ==> n.lo < |ns| && n.hi < |ns|
    ensures WellFormedNode(ns, n) == WellFormedNode(ns2, n)
  {
  }

  /** Appending blank nodes of rank 1 keeps the node invariant. */
  lemma BlanksNodesOk(ns: seq<Node>, rk: seq<nat>, n: nat)
    requires NodesOkOf(ns, rk)
    ensures NodesOkOf(ns + Blanks(|ns|, n), rk + seq(n, _ => 1))
  {
    var ns2, rk2 := ns + Blanks(|ns|, n), rk + seq(n, _ => 1);
    assert Prefix(ns, rk, ns2, rk2);
    forall i | 0 <= i < |ns2| && !IsValNode(ns2[i])
      ensures ns2[i].lo < |ns2| && ns2[i].hi < |ns2| && rk2[ns2[i].lo] < rk2[i] && rk2[ns2[i].hi] < rk2[i]
    {
      if i >= |ns| {
        assert ns2[i] == Node(0, 0, 0, 0, i);
      }
    }
    forall i | 0 <= i < |ns2| && ns2[i].hi != 0 ensures WellFormedNode(ns2, ns2[i]) {
      assert i < |ns|;
      assert WellFormedNode(ns, ns[i]);
      WellFormedPrefix(ns, ns2, ns[i]);
    }
  }

  lemma BlanksFreeOk(ns: seq<Node>, free: seq<nat>, n: nat)
    requires |ns| >= 2 && FreeOkOf(ns, free)
    ensures FreeOkOf(ns + Blanks(|ns|, n), Reverse(free + Indices(|ns|, n)))
  {
    var ns2 := ns + Blanks(|ns|, n);
    var s := free + Indices(|ns|, n);
    ReverseIndex(s);
    var r := Reverse(s);
    assert forall k | 0 <= k < |s| :: 2 <= s[k] < |ns2| && IsInternal(ns2[s[k]]) && ns2[s[k]].refcount == 0 by {
      forall k | 0 <= k < |s| ensures 2 <= s[k] < |ns2| && IsInternal(ns2[s[k]]) && ns2[s[k]].refcount == 0 {
        if k >= |free| {
          assert s[k] == |ns| + (k - |free|);
          assert ns2[s[k]] == Node(0, 0, 0, 0, s[k]);
        }
      }
    }
    assert forall j, k | 0 <= j < k < |s| :: s[j] != s[k] by {
      forall j, k | 0 <= j < k < |s| ensures s[j] != s[k] {
        if k >= |free| && j < |free| {
          assert s[j] < |ns| <= s[k];
        }
      }
    }
    forall j, k | 0 <= j < k < |r| ensures r[j] != r[k] {
      assert r[j] == s[|s| - 1 - j] && r[k] == s[|s| - 1 - k];
    }
  }

  lemma BlanksTableFree(ns: seq<Node>, table: map<Shape, nat>, free: seq<nat>, n: nat)
    requires |ns| >= 2 && TableOkOf(ns, table) && TableFreeOf(table, free)
    ensures TableFreeOf(table, Reverse(free + Indices(|ns|, n)))
  {
    var s := free + Indices(|ns|, n);
    ReverseIndex(s);
    forall t | t in table ensures table[t] !in Reverse(s) {
      forall k | 0 <= k < |s| ensures s[k] != table[t] {
        if k >= |free| {
          assert s[k] == |ns| + (k - |free|);
        } else {
          assert s[k] == free[k];
        }
      }
      forall k | 0 <= k < |s| ensures Reverse(s)[k] != table[t] {
        assert Reverse(s)[k] == s[|s| - 1 - k];
      }
    }
  }

  lemma BlanksKeep(ns: seq<Node>, values: seq<real>, mpq: map<real, ConstInfo>, freeVals: seq<nat>, freeze: real,
                   table: map<Shape, nat>, cache: map<OpKey, Slot>, stack: seq<nat>, n: nat)
    requires |ns| >= 1 && forall i | 0 <= i < |ns| :: ns[i].index == i
    ensures var ns2 := ns + Blanks(|ns|, n);
      (TableOkOf(ns, table) ==> TableOkOf(ns2, table)) &&
      (CanonOf(ns, table) ==> CanonOf(ns2, table)) &&
      (ValuesOkOf(ns, values, mpq, freeVals, freeze) ==> ValuesOkOf(ns2, values, mpq, freeVals, freeze)) &&
      (StrictValuesOf(ns, values, mpq) ==> StrictValuesOf(ns2, values, mpq)) &&
      (CacheOkOf(ns, cache) ==> CacheOkOf(ns2, cache)) &&
      (StackOkOf(ns, stack) ==> StackOkOf(ns2, stack)) &&
      (forall m: nat :: LevelsBelowOf(ns, m) ==> LevelsBelowOf(ns2, m))
  {
    var ns2 := ns + Blanks(|ns|, n);
    assert forall i | |ns| <= i < |ns2| :: ns2[i] == Node(0, 0, 0, 0, i) && !IsValNode(ns2[i]);
    assert forall i | 0 <= i < |ns| :: ns2[i] == ns[i];
    if CacheOkOf(ns, cache) {
      forall k | k in cache && cache[k].Done?
        ensures Live(ns2, k.p) && Live(ns2, k.q) && Live(ns2, cache[k].r) && TopBound(ns2, k.op, k.p, k.q, cache[k].r)
      {
        assert TopBound(ns, k.op, k.p, k.q, cache[k].r);
      }
    }
    if ValuesOkOf(ns, values, mpq, freeVals, freeze) {
      assert SlotsInjective(ns2);
    }
  }

  lemma BlanksVarsOk(ns: seq<Node>, v2l: seq<nat>, l2v: seq<nat>, v2p: seq<nat>, mark: seq<nat>, level: nat, n: nat)
    ensures VarsOkOf(ns, v2l, l2v, v2p) ==> VarsOkOf(ns + Blanks(|ns|, n), v2l, l2v, v2p)
    ensures MarkOkOf(ns, mark, level) ==> MarkOkOf(ns + Blanks(|ns|, n), mark, level)
  {
    var ns2 := ns + Blanks(|ns|, n);
    assert forall i | 0 <= i < |ns| :: ns2[i] == ns[i];
  }
}
