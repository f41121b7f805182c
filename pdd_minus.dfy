/**
  Negation: `minus_rec` builds `-p` node by node through the operation
  cache, and `minus` wraps it in a scope with one retry after collection.
 */
module PddMinus {
  import opened PddNode
  import opened PddSpec
  import opened PddState
  import opened PddAlloc
  import opened PddBuild
  import opened PddApply

  /** `minus_rec(p)`. Negation is not defined in mod-2 mode, which is a
      failed assertion; zero is its own negation and a value is negated in
      the value table. Otherwise the cache entry for `(p, p, minus)` is
      consulted and, on a miss, both children are negated. */
  method MinusRec(a: Arena, ghost rk: seq<nat>, p: nat, fuel: nat) returns (a2: Arena, ghost rk2: seq<nat>, o: Outcome)
    requires Valid(a, rk) && Guarded(a, rk, p) && p < |a.nodes|
    ensures Applied(a, rk, MinusOp, p, p, a2, rk2, o)
    ensures a.mod2 ==> o == Fault && a2 == a && rk2 == rk
    ensures !a.mod2 && p == ZeroPdd ==> o == Ok(ZeroPdd) && a2 == a && rk2 == rk
    ensures !a.mod2 && p != ZeroPdd && IsVal(a.nodes, p) ==>
      a.nodes[p].lo < |a.values| && !o.Fault? &&
      (o.Ok? ==> o.id < |a2.nodes| && IsValNode(a2.nodes[o.id]) && a2.nodes[o.id].lo < |a2.values| &&
                 ValOf(a2.nodes, a2.values, o.id) == -ValOf(a.nodes, a.values, p))
    ensures o.Ok? ==> Ranked(a2.nodes, rk2) && p < |a2.nodes| && o.id < |a2.nodes| &&
                      Negated(a2.nodes, rk2, a2.values, p, o.id)
    decreases fuel, 3
  {
    if a.mod2 {
      EvolvedRefl(a, rk);
      Failed(a, rk, MinusOp, p, p, a, rk, Fault);
      return a, rk, Fault;
    }
    if p == ZeroPdd {
      Same(a, rk, MinusOp, p, p, ZeroPdd);
      ZeroNegated(a, rk);
      return a, rk, Ok(ZeroPdd);
    }
    ValueNodeValue(a, rk, p);
    if IsVal(a.nodes, p) {
      a2, rk2, o := ValueStep(a, rk, MinusOp, p, p, -ValOf(a.nodes, a.values, p));
      if o.Ok? {
        ValueNegated(a, rk, p, a2, rk2, o.id);
      }
      return;
    }
    a2, rk2, o := MinusStep(a, rk, p, fuel);
  }

  /** The cache lookup of `minus_rec`, as in `apply_rec`. */
  method MinusStep(a: Arena, ghost rk: seq<nat>, p: nat, fuel: nat) returns (a2: Arena, ghost rk2: seq<nat>, o: Outcome)
    requires Valid(a, rk) && Guarded(a, rk, p) && p < |a.nodes| && !IsVal(a.nodes, p)
    ensures Applied(a, rk, MinusOp, p, p, a2, rk2, o)
    ensures var k := OpKey(p, p, MinusOp);
      (k in a.cache && a.cache[k].Done? ==> o == Ok(a.cache[k].r) && a2 == a.(spare := true) && rk2 == rk) &&
      (k in a.cache && a.cache[k].Pending? ==> o == Fault && a2 == a.(spare := false) && rk2 == rk)
    ensures o.Ok? ==> Ranked(a2.nodes, rk2) && p < |a2.nodes| && o.id < |a2.nodes| &&
                      Negated(a2.nodes, rk2, a2.values, p, o.id)
    decreases fuel, 2
  {
    var a1, e1 := PopEntry(a, p, p, MinusOp);
    var k := e1.key;
    var found := k in a1.cache;
    var e2 := if found then OpEntry(k, a1.cache[k]) else e1;
    if found {
      var hit, fault;
      a1, hit, fault := CheckResult(a1, e1, e2, found);
      if fault {
        a2, rk2, o := CacheFault(a, rk, p, p, MinusOp, a1);
      } else {
        a2, rk2, o := CacheHit(a, rk, p, p, MinusOp, a1);
        CachedNegated(a, rk, k);
      }
      return;
    }
    a1 := a1.(cache := a1.cache[k := e1.result]);
    var hit, fault;
    a1, hit, fault := CheckResult(a1, e1, e2, found);
    a2, rk2, o := MinusMiss(a, rk, p, a1, fuel);
  }

  /** A new pending entry for `(p, p, minus)`; the result is stored in it. */
  method MinusMiss(a: Arena, ghost rk: seq<nat>, p: nat, a1: Arena, fuel: nat) returns (a2: Arena, ghost rk2: seq<nat>, o: Outcome)
    requires Valid(a, rk) && Guarded(a, rk, p) && p < |a.nodes| && !IsVal(a.nodes, p)
    requires a1 == a.(spare := false, cache := a.cache[OpKey(p, p, MinusOp) := Pending])
    ensures Applied(a, rk, MinusOp, p, p, a2, rk2, o)
    ensures o.Ok? ==> Ranked(a2.nodes, rk2) && p < |a2.nodes| && o.id < |a2.nodes| &&
                      Negated(a2.nodes, rk2, a2.values, p, o.id)
    decreases fuel, 1
  {
    PendingOk(a.(spare := false), rk, OpKey(p, p, MinusOp));
    CacheStep(a, rk, a1);
    StillGuarded(a, rk, a1, rk, p);
    if fuel == 0 {
      Failed(a, rk, MinusOp, p, p, a1, rk, OutOfFuel);
      return a1, rk, OutOfFuel;
    }
    var a3, rk3, o3 := MinusNode(a1, rk, p, fuel - 1);
    if !o3.Ok? {
      EvolvedTrans(a, rk, a1, rk, a3, rk3);
      Failed(a, rk, MinusOp, p, p, a3, rk3, o3);
      return a3, rk3, o3;
    }
    StoreOk(a1, rk, MinusOp, p, p, a3, rk3, o3);
    a2, rk2, o := a3.(cache := a3.cache[OpKey(p, p, MinusOp) := Done(o3.id)]), rk3, o3;
    AppliedTrans(a, rk, MinusOp, p, p, a1, rk, a2, rk2, o);
  }

  /** `push(minus_rec(lo(p)))`, `push(minus_rec(hi(p)))`, then
      `make_node(level(p), read(2), read(1))` and `pop(2)`. */
  method MinusNode(a: Arena, ghost rk: seq<nat>, p: nat, fuel: nat) returns (a2: Arena, ghost rk2: seq<nat>, o: Outcome)
    requires Valid(a, rk) && Guarded(a, rk, p) && p < |a.nodes| && !IsVal(a.nodes, p)
    ensures Applied(a, rk, MinusOp, p, p, a2, rk2, o)
    ensures o.Ok? ==> Ranked(a2.nodes, rk2) && p < |a2.nodes| && o.id < |a2.nodes| &&
                      Negated(a2.nodes, rk2, a2.values, p, o.id)
    decreases fuel, 5
  {
    var lvl: nat := a.nodes[p].level;
    Children(a, rk, p);
    var l: nat, h: nat := a.nodes[p].lo, a.nodes[p].hi;
    var a1, rk1, o1 := PushMinus(a, rk, l, lvl as int - 1, fuel);
    if !o1.Ok? {
      Failed(a, rk, MinusOp, p, p, a1, rk1, o1);
      return a1, rk1, o1;
    }
    StillAtMost(a, rk, a1, rk1, h, lvl);
    var a3, rk3, o3 := PushMinus(a1, rk1, h, lvl, fuel);
    EvolvedTrans(a, rk, a1, rk1, a3, rk3);
    if !o3.Ok? {
      Failed(a, rk, MinusOp, p, p, a3, rk3, o3);
      return a3, rk3, o3;
    }
    StillAtMost(a1, rk1, a3, rk3, o1.id, lvl as int - 1);
    AtMostFacts(a1, rk1, o1.id, lvl as int - 1);
    AtMostFacts(a3, rk3, o3.id, lvl);
    NegatedChildren(a, rk, p, a1, rk1, o1.id, a3, rk3, o3.id);
    a2, rk2, o := MakeAndPop(a, rk, MinusOp, p, p, a3, rk3, o1.id, o3.id, 2);
    if o.Ok? {
      NodeNegated(a, rk, p, a3, rk3, o1.id, o3.id, a2, rk2, o.id);
    }
  }

  /** `push(minus_rec(x))` for `x` at most at level `b`. */
  method PushMinus(a: Arena, ghost rk: seq<nat>, x: nat, b: int, fuel: nat) returns (a2: Arena, ghost rk2: seq<nat>, o: Outcome)
    requires Valid(a, rk) && AtMost(a, rk, x, b)
    ensures Evolved(a, rk, a2, rk2)
    ensures o.Ok? ==> a2.stack == a.stack + [o.id] && AtMost(a2, rk2, o.id, b)
    ensures o.Ok? ==> Ranked(a2.nodes, rk2) && x < |a2.nodes| && o.id < |a2.nodes| &&
                      Negated(a2.nodes, rk2, a2.values, x, o.id)
    decreases fuel, 4
  {
    AtMostFacts(a, rk, x, b);
    var a1;
    a1, rk2, o := MinusRec(a, rk, x, fuel);
    if !o.Ok? {
      return a1, rk2, o;
    }
    AppliedBound(a, rk, MinusOp, x, x, a1, rk2, o, b);
    EvolvedFrame(a, rk, a1, rk2);
    PushAtMost(a1, rk2, o.id, b);
    EvolvedTrans(a, rk, a1, rk2, Push(a1, o.id), rk2);
    a2 := Push(a1, o.id);
  }

  // ------------------------------------------------------------ why the result negates

  /** Zero is its own negation. */
  lemma ZeroNegated(a: Arena, rk: seq<nat>)
    requires Core(a, rk)
    ensures Ranked(a.nodes, rk) && ZeroPdd < |a.nodes| && Negated(a.nodes, rk, a.values, ZeroPdd, ZeroPdd)
  {
    CoreRanked(a, rk);
    ConstValues(a, rk);
  }

  /** A negation found in the cache. */
  lemma CachedNegated(a: Arena, rk: seq<nat>, k: OpKey)
    requires Core(a, rk) && k in a.cache && a.cache[k].Done? && k.op == MinusOp
    ensures Ranked(a.nodes, rk) && k.p < |a.nodes| && a.cache[k].r < |a.nodes|
    ensures Negated(a.nodes, rk, a.values, k.p, a.cache[k].r)
  {
    assert CoreOf(a.nodes, rk, a.free, a.table, a.values, a.mpq, a.freeVals, a.freeze, a.cache, a.stack,
                  a.mark, a.markLevel, a.v2l, a.l2v, a.v2p);
  }

  /** A new value node holding the negated value of the guarded value `p`. */
  lemma ValueNegated(a: Arena, rk: seq<nat>, p: nat, a2: Arena, rk2: seq<nat>, r: nat)
    requires Evolved(a, rk, a2, rk2) && Guarded(a, rk, p) && p < |a.nodes| && IsVal(a.nodes, p)
    requires a.nodes[p].lo < |a.values|
    requires r < |a2.nodes| && IsValNode(a2.nodes[r]) && a2.nodes[r].lo < |a2.values|
    requires ValOf(a2.nodes, a2.values, r) == -ValOf(a.nodes, a.values, p)
    ensures Ranked(a2.nodes, rk2) && p < |a2.nodes| && Negated(a2.nodes, rk2, a2.values, p, r)
  {
    StillGuarded(a, rk, a2, rk2, p);
    assert KeptOf(a.nodes, rk, a.stack, a.values, a2.nodes, rk2, a2.values);
    CoreRanked(a2, rk2);
  }

  /** A guarded negation survives a step. */
  lemma GuardedNegated(a: Arena, rk: seq<nat>, a2: Arena, rk2: seq<nat>, x: nat, r: nat)
    requires Evolved(a, rk, a2, rk2) && Guarded(a, rk, x) && Guarded(a, rk, r)
    requires Ranked(a.nodes, rk) && x < |a.nodes| && r < |a.nodes| && Negated(a.nodes, rk, a.values, x, r)
    ensures Ranked(a2.nodes, rk2) && x < |a2.nodes| && r < |a2.nodes| && Negated(a2.nodes, rk2, a2.values, x, r)
  {
    assert GuardedOf(a.nodes, rk, a.stack, x) && GuardedOf(a.nodes, rk, a.stack, r);
    CoreRanked(a2, rk2);
    NegatedProtected(a.nodes, rk, a.stack, a.values, a2.nodes, rk2, a2.values, x, r);
  }

  /** Only the zero node holds the value zero. */
  lemma ZeroOnlyAtZero(a: Arena, rk: seq<nat>, x: nat)
    requires Valid(a, rk) && Live(a.nodes, x) && x < |a.nodes| && IsValNode(a.nodes[x])
    requires a.nodes[x].lo < |a.values| && ValOf(a.nodes, a.values, x) == 0.0
    ensures x == ZeroPdd
  {
    ConstValues(a, rk);
    assert ValuesOkOf(a.nodes, a.values, a.mpq, a.freeVals, a.freeze);
    assert ValueNodesOk(a.nodes, a.values, a.mpq, a.freeze);
  }

  /** The negation of a live non-zero polynomial is not zero. */
  lemma NegatedNonZero(a: Arena, rk: seq<nat>, x: nat, r: nat)
    requires Valid(a, rk) && Live(a.nodes, x) && x != ZeroPdd && Ranked(a.nodes, rk)
    requires x < |a.nodes| && r < |a.nodes| && Negated(a.nodes, rk, a.values, x, r)
    ensures r != ZeroPdd
  {
    if r == ZeroPdd {
      ConstValues(a, rk);
      assert IsVal(a.nodes, x);
      ZeroOnlyAtZero(a, rk, x);
    }
  }

  /** The two pushed negations of `minus_rec`'s children, in the state
      where `make_node` combines them. */
  lemma NegatedChildren(a: Arena, rk: seq<nat>, p: nat, a1: Arena, rk1: seq<nat>, l: nat, a3: Arena, rk3: seq<nat>, h: nat)
    requires Valid(a, rk) && Guarded(a, rk, p) && p < |a.nodes| && !IsVal(a.nodes, p)
    requires Evolved(a, rk, a1, rk1) && Evolved(a1, rk1, a3, rk3)
    requires Guarded(a1, rk1, l) && Guarded(a3, rk3, h)
    requires Ranked(a1.nodes, rk1) && a.nodes[p].lo < |a1.nodes| && l < |a1.nodes|
    requires Negated(a1.nodes, rk1, a1.values, a.nodes[p].lo, l)
    requires Ranked(a3.nodes, rk3) && a.nodes[p].hi < |a3.nodes| && h < |a3.nodes|
    requires Negated(a3.nodes, rk3, a3.values, a.nodes[p].hi, h)
    ensures a.nodes[p].lo < |a3.nodes| && l < |a3.nodes| && Negated(a3.nodes, rk3, a3.values, a.nodes[p].lo, l)
    ensures h != ZeroPdd
  {
    ChildrenGuarded(a, rk, p);
    StillGuarded(a, rk, a1, rk1, a.nodes[p].lo);
    GuardedNegated(a1, rk1, a3, rk3, a.nodes[p].lo, l);
    EvolvedTrans(a, rk, a1, rk1, a3, rk3);
    StillGuarded(a, rk, a3, rk3, a.nodes[p].hi);
    NegatedNonZero(a3, rk3, a.nodes[p].hi, h);
  }

  /** The node `make_node(level(p), l, h)` negates `p` when `l` and `h`
      negate its children. */
  lemma NodeNegated(a: Arena, rk: seq<nat>, p: nat, a3: Arena, rk3: seq<nat>, l: nat, h: nat,
                    a2: Arena, rk2: seq<nat>, r: nat)
    requires Valid(a, rk) && Guarded(a, rk, p) && p < |a.nodes| && !IsVal(a.nodes, p)
    requires Evolved(a, rk, a3, rk3) && Evolved(a, rk, a2, rk2)
    requires Kept(a3.nodes, rk3, a3.stack, a3.values, a2.nodes, rk2, a2.values)
    requires Guarded(a3, rk3, l) && Guarded(a3, rk3, h) && h != ZeroPdd
    requires Ranked(a3.nodes, rk3) && a.nodes[p].lo < |a3.nodes| && l < |a3.nodes| && a.nodes[p].hi < |a3.nodes| && h < |a3.nodes|
    requires Negated(a3.nodes, rk3, a3.values, a.nodes[p].lo, l) && Negated(a3.nodes, rk3, a3.values, a.nodes[p].hi, h)
    requires r < |a2.nodes| && ShapeOf(a2.nodes[r]) == Shape(a.nodes[p].level, l, h)
    ensures Ranked(a2.nodes, rk2) && p < |a2.nodes| && Negated(a2.nodes, rk2, a2.values, p, r)
  {
    ChildrenGuarded(a, rk, p);
    StillGuarded(a, rk, a3, rk3, a.nodes[p].lo);
    StillGuarded(a, rk, a3, rk3, a.nodes[p].hi);
    assert GuardedOf(a3.nodes, rk3, a3.stack, a.nodes[p].lo) && GuardedOf(a3.nodes, rk3, a3.stack, a.nodes[p].hi);
    assert GuardedOf(a3.nodes, rk3, a3.stack, l) && GuardedOf(a3.nodes, rk3, a3.stack, h);
    CoreRanked(a2, rk2);
    NegatedProtected(a3.nodes, rk3, a3.stack, a3.values, a2.nodes, rk2, a2.values, a.nodes[p].lo, l);
    NegatedProtected(a3.nodes, rk3, a3.stack, a3.values, a2.nodes, rk2, a2.values, a.nodes[p].hi, h);
    StillGuarded(a, rk, a2, rk2, p);
  }

  /** The negation of a live node is unique in a valid arena. */
  lemma NegatedUnique(a: Arena, rk: seq<nat>, x: nat, r1: nat, r2: nat)
    requires Valid(a, rk) && Ranked(a.nodes, rk)
    requires Live(a.nodes, x) && Live(a.nodes, r1) && Live(a.nodes, r2)
    requires Negated(a.nodes, rk, a.values, x, r1) && Negated(a.nodes, rk, a.values, x, r2)
    ensures r1 == r2
  {
    assert CoreOf(a.nodes, rk, a.free, a.table, a.values, a.mpq, a.freeVals, a.freeze, a.cache, a.stack,
                  a.mark, a.markLevel, a.v2l, a.l2v, a.v2p);
    assert ValuesOkOf(a.nodes, a.values, a.mpq, a.freeVals, a.freeze);
    NegatedUniqueOf(a.nodes, rk, a.table, a.values, a.mpq, a.freeze, x, r1, r2);
  }

  /** Negating twice gives back the polynomial: a live negation of a live
      negation of `x` is `x` itself. */
  lemma NegatedTwice(a: Arena, rk: seq<nat>, x: nat, r: nat, s: nat)
    requires Valid(a, rk) && Ranked(a.nodes, rk)
    requires Live(a.nodes, x) && Live(a.nodes, r) && Live(a.nodes, s)
    requires Negated(a.nodes, rk, a.values, x, r) && Negated(a.nodes, rk, a.values, r, s)
    ensures s == x
  {
    NegatedSymmetric(a.nodes, rk, a.values, x, r);
    NegatedUnique(a, rk, r, x, s);
  }

  /** What a negation means: its monomials are those of `x` with every
      coefficient negated, for any assignment of variables to the levels. */
  lemma NegatedMeaning(a: Arena, rk: seq<nat>, level2var: seq<nat>, x: nat, r: nat)
    requires Valid(a, rk) && Ranked(a.nodes, rk) && x < |a.nodes| && r < |a.nodes|
    requires forall i | 0 <= i < |a.nodes| && !IsValNode(a.nodes[i]) :: a.nodes[i].level < |level2var|
    requires Negated(a.nodes, rk, a.values, x, r)
    ensures ValuesIndexed(a.nodes, a.values)
    ensures ToMonomials(a.nodes, a.values, rk, level2var, r) == NegMonomials(ToMonomials(a.nodes, a.values, rk, level2var, x))
  {
    assert CoreOf(a.nodes, rk, a.free, a.table, a.values, a.mpq, a.freeVals, a.freeze, a.cache, a.stack,
                  a.mark, a.markLevel, a.v2l, a.l2v, a.v2p);
    assert ValuesOkOf(a.nodes, a.values, a.mpq, a.freeVals, a.freeze);
    assert ValueNodesOk(a.nodes, a.values, a.mpq, a.freeze);
    NegatedMonomials(a.nodes, a.values, rk, level2var, x, r);
  }

  /** `minus(p)`: in mod-2 mode every polynomial is its own negation;
      otherwise `minus_rec` in a scope that restores the stack, with one
      retry after `try_gc` when the arena is exhausted. */
  method Minus(a: Arena, ghost rk: seq<nat>, p: nat, fuel: nat) returns (a2: Arena, ghost rk2: seq<nat>, o: Outcome)
    requires Valid(a, rk) && Guarded(a, rk, p) && p < |a.nodes|
    ensures Applied(a, rk, MinusOp, p, p, a2, rk2, o) && a2.stack == a.stack
    ensures a.mod2 ==> o == Ok(p) && a2 == a && rk2 == rk
    ensures !a.mod2 && p == ZeroPdd ==> o == Ok(ZeroPdd) && a2 == a && rk2 == rk
    ensures o.MemOut? ==> a2.cache == map[]
    ensures !a.mod2 && o.Ok? ==> Ranked(a2.nodes, rk2) && p < |a2.nodes| && o.id < |a2.nodes| &&
                                 Negated(a2.nodes, rk2, a2.values, p, o.id)
  {
    if a.mod2 {
      Same(a, rk, MinusOp, p, p, p);
      return a, rk, Ok(p);
    }
    a2, rk2, o := MinusScoped(a, rk, p, fuel);
  }

  /** `minus` outside mod-2 mode. */
  method MinusScoped(a: Arena, ghost rk: seq<nat>, p: nat, fuel: nat) returns (a2: Arena, ghost rk2: seq<nat>, o: Outcome)
    requires Valid(a, rk) && Guarded(a, rk, p) && p < |a.nodes| && !a.mod2
    ensures Applied(a, rk, MinusOp, p, p, a2, rk2, o) && a2.stack == a.stack
    ensures p == ZeroPdd ==> o == Ok(ZeroPdd) && a2 == a && rk2 == rk
    ensures o.MemOut? ==> a2.cache == map[]
    ensures o.Ok? ==> Ranked(a2.nodes, rk2) && p < |a2.nodes| && o.id < |a2.nodes| &&
                      Negated(a2.nodes, rk2, a2.values, p, o.id)
  {
    var a1, rk1, o1 := MinusRec(a, rk, p, fuel);
    AppliedAnswer(a, rk, MinusOp, p, p, a1, rk1, o1);
    if o1.MemOut? {
      a1, rk1, o1 := MinusRetry(a, rk, p, a1, rk1, fuel);
    }
    a2, rk2, o := Scoped(a, rk, MinusOp, p, p, a1, rk1, o1);
  }

  /** The second attempt of `minus` after an exhausted arena. */
  method MinusRetry(a: Arena, ghost rk: seq<nat>, p: nat, a1: Arena, ghost rk1: seq<nat>, fuel: nat)
    returns (a2: Arena, ghost rk2: seq<nat>, o: Outcome)
    requires Valid(a, rk) && Guarded(a, rk, p) && p < |a.nodes| && Evolved(a, rk, a1, rk1)
    ensures Evolved(a, rk, a2, rk2) && Answer(a2.nodes, rk2, MinusOp, p, p, o)
    ensures o.MemOut? ==> a2.cache == map[]
    ensures o.Ok? ==> Ranked(a2.nodes, rk2) && p < |a2.nodes| && o.id < |a2.nodes| &&
                      Negated(a2.nodes, rk2, a2.values, p, o.id)
  {
    EvolvedFrame(a, rk, a1, rk1);
    var a3, rk3 := GcStep(a1, rk1);
    EvolvedTrans(a, rk, a1, rk1, a3, rk3);
    StillGuarded(a, rk, a3, rk3, p);
    EvolvedFrame(a, rk, a3, rk3);
    var a4, rk4, o4 := MinusRec(a3, rk3, p, fuel);
    AppliedAnswer(a3, rk3, MinusOp, p, p, a4, rk4, o4);
    EvolvedTrans(a, rk, a3, rk3, a4, rk4);
    if o4.MemOut? {
      EvolvedFrame(a, rk, a4, rk4);
      var a5, rk5 := GcStep(a4, rk4);
      EvolvedTrans(a, rk, a4, rk4, a5, rk5);
      return a5, rk5, o4;
    }
    return a4, rk4, o4;
  }
}
