/**
  The recursive operations of the manager: the protection stack, the
  operation cache, `apply_rec` for addition, multiplication and reduction,
  `apply` with its retry after collection, `lt_quotient` and
  `reduce_on_match`. Every step computes the manager's next state from the
  current one; a recursion budget `fuel` stands for termination, which in
  the source rests on the ordering of monomials.
 */
module PddApply {
  import opened PddNode
  import opened PddSpec
  import opened PddState
  import opened PddGc
  import opened PddAlloc
  import opened PddOps
  import opened PddBuild
  import PddQuery

  // ------------------------------------------------------------ protection stack

  /** `push(b)`. */
  function Push(a: Arena, b: nat): Arena
  {
    a.(stack := a.stack + [b])
  }

  /** `pop(n)`. */
  function Pop(a: Arena, n: nat): Arena
    requires n <= |a.stack|
  {
    a.(stack := a.stack[..|a.stack| - n])
  }

  /** `read(i)`: the i-th entry from the top, counting from 1. */
  function Read(a: Arena, i: nat): nat
    requires 1 <= i <= |a.stack|
  {
    a.stack[|a.stack| - i]
  }

  /** The stack is last in, first out: a pushed entry is read back first,
      the older entries move one place down, and popping it restores the state. */
  lemma StackDiscipline(a: Arena, b: nat, i: nat)
    requires 1 <= i <= |a.stack|
    ensures Read(Push(a, b), 1) == b && Read(Push(a, b), i + 1) == Read(a, i)
    ensures Pop(Push(a, b), 1) == a
  {
    assert (a.stack + [b])[..|a.stack|] == a.stack;
  }

  /** The stack `s2` starts with `s1`. */
  ghost predicate StackExtends(s1: seq<nat>, s2: seq<nat>)
  {
    |s1| <= |s2| && forall k | 0 <= k < |s1| :: s2[k] == s1[k]
  }

  /** Popping what a step pushed restores the stack of its start. */
  lemma PopRestores(a: Arena, a2: Arena, n: nat)
    requires StackExtends(a.stack, a2.stack) && |a2.stack| == |a.stack| + n
    ensures Pop(a2, n) == a2.(stack := a.stack)
  {
    assert a2.stack[..|a2.stack| - n] == a.stack;
  }

  // ------------------------------------------------------------ what a step keeps

  /** A live id the collector cannot reclaim: it is reachable from the roots. */
  ghost predicate GuardedOf(ns: seq<Node>, rk: seq<nat>, stack: seq<nat>, x: nat)
  {
    Ranked(ns, rk) && (forall k | 0 <= k < |stack| :: stack[k] < |ns|) &&
    Live(ns, x) && x in Protected(ns, rk, stack)
  }

  /** `GuardedOf` as one fact. */
  ghost predicate Guarded(a: Arena, rk: seq<nat>, x: nat)
  {
    var ok := GuardedOf(a.nodes, rk, a.stack, x);
    ok
  }

  /** A guarded id whose top level is at most `b`; a bound of -1 admits only values. */
  ghost predicate AtMost(a: Arena, rk: seq<nat>, x: nat, b: int)
  {
    var ok := Guarded(a, rk, x) && x < |a.nodes| && Top(a.nodes, x) <= b;
    ok
  }

  /** The fields the recursive operations change; the variable order, the
      marks and the flags stay. */
  ghost predicate Frame(a: Arena, a2: Arena)
  {
    a2 == a.(nodes := a2.nodes, free := a2.free, table := a2.table, values := a2.values, mpq := a2.mpq,
             freeVals := a2.freeVals, freeze := a2.freeze, cache := a2.cache, spare := a2.spare,
             stack := a2.stack, isNew := a2.isNew)
  }

  /** What every step of the recursive operations keeps: the full invariant,
      the protected nodes and their values, the other fields, and the stack
      entries present at the start. Bound to one name so that it is passed
      on as one fact. */
  ghost predicate Evolved(a: Arena, rk: seq<nat>, a2: Arena, rk2: seq<nat>)
  {
    var ok := Valid(a2, rk2) && Kept(a.nodes, rk, a.stack, a.values, a2.nodes, rk2, a2.values) &&
              Frame(a, a2) && StackExtends(a.stack, a2.stack);
    ok
  }

  predicate IsApplyOp(op: nat) { op == AddOp || op == MulOp || op == ReduceOp }

  /** A result of `op` on `p` and `q` is live and respects the level bound
      of the operation; a reduction is reduced by `q`. */
  ghost predicate Answer(ns: seq<Node>, rk: seq<nat>, op: nat, p: nat, q: nat, o: Outcome)
  {
    o.Ok? ==> Live(ns, o.id) && Live(ns, p) && Live(ns, q) && TopBound(ns, op, p, q, o.id) &&
              (op == ReduceOp ==> ReducedBy(ns, rk, q, o.id))
  }

  /** What `apply_rec(p, q, op)` promises: the step keeps the invariant, and
      a result answers the operation and is delivered with the stack as it was. */
  ghost predicate Applied(a: Arena, rk: seq<nat>, op: nat, p: nat, q: nat, a2: Arena, rk2: seq<nat>, o: Outcome)
  {
    var ok := Evolved(a, rk, a2, rk2) && (o.Ok? ==> a2.stack == a.stack) && Answer(a2.nodes, rk2, op, p, q, o);
    ok
  }

  // ------------------------------------------------------------ lemmas about a step

  /** The invariant gives the reachability facts the protected set needs. */
  lemma CoreRanked(a: Arena, rk: seq<nat>)
    requires Core(a, rk)
    ensures Ranked(a.nodes, rk) && forall k | 0 <= k < |a.stack| :: a.stack[k] < |a.nodes|
  {
    assert NodesOkOf(a.nodes, rk) && StackOkOf(a.nodes, a.stack);
  }

  lemma GuardedLive(a: Arena, rk: seq<nat>, x: nat)
    requires Guarded(a, rk, x)
    ensures Live(a.nodes, x) && x < |a.nodes| && Ranked(a.nodes, rk)
  {
  }

  lemma AtMostFacts(a: Arena, rk: seq<nat>, x: nat, b: int)
    requires AtMost(a, rk, x, b)
    ensures Guarded(a, rk, x) && Live(a.nodes, x) && x < |a.nodes| && Top(a.nodes, x) <= b
  {
  }

  lemma Operand(a: Arena, rk: seq<nat>, x: nat, b: int)
    requires Guarded(a, rk, x) && x < |a.nodes| && Top(a.nodes, x) <= b
    ensures AtMost(a, rk, x, b)
  {
  }

  lemma AtMostWeaken(a: Arena, rk: seq<nat>, x: nat, b: int)
    requires AtMost(a, rk, x, b)
    ensures AtMost(a, rk, x, b + 1)
  {
  }

  /** An id at most at level `lvl` that is a value or sits at another level lies below `lvl`. */
  lemma Lower(a: Arena, rk: seq<nat>, n: nat, lvl: nat)
    requires AtMost(a, rk, n, lvl) && n < |a.nodes| && (IsVal(a.nodes, n) || a.nodes[n].level != lvl)
    ensures AtMost(a, rk, n, lvl as int - 1)
  {
  }

  /** A polynomial node sits at a level of the variable order. */
  lemma LevelInRange(a: Arena, rk: seq<nat>, p: nat)
    requires Valid(a, rk) && Guarded(a, rk, p) && p < |a.nodes| && !IsVal(a.nodes, p)
    ensures a.nodes[p].level < |a.l2v|
  {
    GuardedLive(a, rk, p);
    assert LevelsBelowOf(a.nodes, |a.l2v|);
  }

  /** A value node has a slot in the value pool. */
  lemma ValueNodeValue(a: Arena, rk: seq<nat>, p: nat)
    requires Core(a, rk) && p < |a.nodes|
    ensures IsValNode(a.nodes[p]) ==> a.nodes[p].lo < |a.values|
  {
    assert ValuesOkOf(a.nodes, a.values, a.mpq, a.freeVals, a.freeze);
    assert ValueNodesOk(a.nodes, a.values, a.mpq, a.freeze);
  }

  lemma EvolvedRefl(a: Arena, rk: seq<nat>)
    requires Valid(a, rk)
    ensures Evolved(a, rk, a, rk)
  {
    KeptRefl(a.nodes, rk, a.stack, a.values);
  }

  lemma EvolvedTrans(a: Arena, rk: seq<nat>, a1: Arena, rk1: seq<nat>, a2: Arena, rk2: seq<nat>)
    requires Evolved(a, rk, a1, rk1) && Evolved(a1, rk1, a2, rk2)
    ensures Evolved(a, rk, a2, rk2)
  {
    assert forall x | x in a.stack :: x in a1.stack by {
      forall x | x in a.stack ensures x in a1.stack {
        var k :| 0 <= k < |a.stack| && a.stack[k] == x;
        assert a1.stack[k] == x;
      }
    }
    KeptTrans(a.nodes, rk, a.stack, a.values, a1.nodes, rk1, a1.stack, a1.values, a2.nodes, rk2, a2.values);
  }

  /** The fields a step leaves alone, and the stack entries it keeps. */
  lemma EvolvedFrame(a: Arena, rk: seq<nat>, a2: Arena, rk2: seq<nat>)
    requires Evolved(a, rk, a2, rk2)
    ensures Valid(a2, rk2) && a2.l2v == a.l2v && a2.v2l == a.v2l && a2.v2p == a.v2p && a2.mod2 == a.mod2
    ensures StackExtends(a.stack, a2.stack)
  {
  }

  /** A guarded id survives a step: the same record, the same top level, still guarded. */
  lemma StillGuarded(a: Arena, rk: seq<nat>, a2: Arena, rk2: seq<nat>, x: nat)
    requires Evolved(a, rk, a2, rk2) && Guarded(a, rk, x)
    ensures Guarded(a2, rk2, x) && Live(a2.nodes, x) && a2.nodes[x] == a.nodes[x] && Top(a2.nodes, x) == Top(a.nodes, x)
  {
    assert KeptOf(a.nodes, rk, a.stack, a.values, a2.nodes, rk2, a2.values);
    assert Core(a2, rk2);
    assert forall y | y in a.stack :: y in a2.stack by {
      forall y | y in a.stack ensures y in a2.stack {
        var k :| 0 <= k < |a.stack| && a.stack[k] == y;
        assert a2.stack[k] == y;
      }
    }
    ProtectedGrows(a.nodes, rk, a.stack, a2.nodes, rk2, a2.stack);
  }

  lemma StillAtMost(a: Arena, rk: seq<nat>, a2: Arena, rk2: seq<nat>, x: nat, b: int)
    requires Evolved(a, rk, a2, rk2) && AtMost(a, rk, x, b)
    ensures AtMost(a2, rk2, x, b)
  {
    StillGuarded(a, rk, a2, rk2, x);
  }

  /** The children of a guarded polynomial node are guarded and level-ordered below it. */
  lemma ChildrenGuarded(a: Arena, rk: seq<nat>, x: nat)
    requires Core(a, rk) && Guarded(a, rk, x) && x < |a.nodes| && !IsVal(a.nodes, x)
    ensures Guarded(a, rk, a.nodes[x].lo) && Guarded(a, rk, a.nodes[x].hi)
    ensures Top(a.nodes, a.nodes[x].lo) < a.nodes[x].level as int && Top(a.nodes, a.nodes[x].hi) <= a.nodes[x].level as int
    ensures a.nodes[x].hi != ZeroPdd
  {
    assert NodesOkOf(a.nodes, rk);
    ChildrenGuardedOf(a.nodes, rk, a.stack, x);
  }

  /** `ChildrenGuarded` on the node graph and the stack alone. */
  lemma ChildrenGuardedOf(ns: seq<Node>, rk: seq<nat>, stack: seq<nat>, x: nat)
    requires GraphOk(ns, rk) && GuardedOf(ns, rk, stack, x) && !IsValNode(ns[x])
    ensures GuardedOf(ns, rk, stack, ns[x].lo) && GuardedOf(ns, rk, stack, ns[x].hi)
    ensures Top(ns, ns[x].lo) < ns[x].level as int && Top(ns, ns[x].hi) <= ns[x].level as int
    ensures ns[x].hi != ZeroPdd
  {
    ProtectedFacts(ns, rk, stack);
    ChildrenLive(ns, rk, x);
  }

  /** The children of `p = x*hi + lo` at level `x`: `lo` lies below the level, `hi` at most at it. */
  lemma Children(a: Arena, rk: seq<nat>, p: nat)
    requires Core(a, rk) && Guarded(a, rk, p) && p < |a.nodes| && !IsVal(a.nodes, p)
    ensures AtMost(a, rk, a.nodes[p].lo, a.nodes[p].level as int - 1)
    ensures AtMost(a, rk, a.nodes[p].lo, a.nodes[p].level as int)
    ensures AtMost(a, rk, a.nodes[p].hi, a.nodes[p].level as int)
  {
    ChildrenGuarded(a, rk, p);
  }

  /** The rank of the children is below that of the node. */
  lemma RankDrops(a: Arena, rk: seq<nat>, p: nat)
    requires Ranked(a.nodes, rk) && p < |a.nodes| && !IsVal(a.nodes, p)
    ensures |rk| == |a.nodes| && a.nodes[p].lo < |rk| && a.nodes[p].hi < |rk|
    ensures rk[a.nodes[p].lo] < rk[p] && rk[a.nodes[p].hi] < rk[p]
  {
  }

  lemma PushCore(a: Arena, rk: seq<nat>, b: nat)
    requires Core(a, rk) && Live(a.nodes, b)
    ensures Core(Push(a, b), rk)
  {
    assert StackOkOf(a.nodes, a.stack + [b]);
  }

  lemma PushValid(a: Arena, rk: seq<nat>, b: nat)
    requires Valid(a, rk) && Live(a.nodes, b)
    ensures Valid(Push(a, b), rk)
  {
    PushCore(a, rk, b);
  }

  lemma PushGuarded(a: Arena, rk: seq<nat>, b: nat)
    requires Core(a, rk) && Live(a.nodes, b)
    ensures Guarded(Push(a, b), rk, b)
  {
    CoreRanked(a, rk);
    var st := a.stack + [b];
    assert forall k | 0 <= k < |st| :: st[k] < |a.nodes|;
    ProtectedFacts(a.nodes, rk, st);
    assert b in Roots(a.nodes, st);
    assert GuardedOf(a.nodes, rk, st, b);
  }

  /** Pushing a live id keeps everything and guards it. */
  lemma PushEvolved(a: Arena, rk: seq<nat>, b: nat)
    requires Valid(a, rk) && Live(a.nodes, b)
    ensures Evolved(a, rk, Push(a, b), rk) && Guarded(Push(a, b), rk, b)
  {
    PushValid(a, rk, b);
    CoreRanked(a, rk);
    KeptRefl(a.nodes, rk, a.stack, a.values);
    PushGuarded(a, rk, b);
  }

  /** Pushing a live id with top level at most `b`. */
  lemma PushAtMost(a: Arena, rk: seq<nat>, x: nat, b: int)
    requires Valid(a, rk) && Live(a.nodes, x) && Top(a.nodes, x) <= b
    ensures Evolved(a, rk, Push(a, x), rk) && AtMost(Push(a, x), rk, x, b)
  {
    PushEvolved(a, rk, x);
  }

  /** Cutting the stack back to what it was at the start keeps everything. */
  lemma Restored(a: Arena, rk: seq<nat>, a2: Arena, rk2: seq<nat>)
    requires Valid(a, rk) && Evolved(a, rk, a2, rk2)
    ensures Evolved(a, rk, a2.(stack := a.stack), rk2)
  {
    assert KeptOf(a.nodes, rk, a.stack, a.values, a2.nodes, rk2, a2.values);
    ProtectedFacts(a.nodes, rk, a.stack);
    forall k | 0 <= k < |a.stack| ensures Live(a2.nodes, a.stack[k]) {
      assert a.stack[k] in Roots(a.nodes, a.stack);
    }
    assert StackOkOf(a2.nodes, a.stack);
    assert Core(a2.(stack := a.stack), rk2);
  }

  /** Replacing the entries pushed since `a` by one live id keeps everything and guards it. */
  lemma Replaced(a: Arena, rk: seq<nat>, a2: Arena, rk2: seq<nat>, n: nat, b: int)
    requires Valid(a, rk) && Evolved(a, rk, a2, rk2) && Live(a2.nodes, n) && Top(a2.nodes, n) <= b
    ensures Evolved(a, rk, a2.(stack := a.stack + [n]), rk2) && AtMost(a2.(stack := a.stack + [n]), rk2, n, b)
  {
    Restored(a, rk, a2, rk2);
    var a3 := a2.(stack := a.stack);
    EvolvedFrame(a, rk, a3, rk2);
    PushAtMost(a3, rk2, n, b);
    EvolvedTrans(a, rk, a3, rk2, Push(a3, n), rk2);
  }

  /** A failed step promises no more than `Evolved`. */
  lemma Failed(a: Arena, rk: seq<nat>, op: nat, p: nat, q: nat, a2: Arena, rk2: seq<nat>, o: Outcome)
    requires Evolved(a, rk, a2, rk2) && !o.Ok?
    ensures Applied(a, rk, op, p, q, a2, rk2, o)
  {
  }

  /** A value node, delivered with the stack of the start, answers every operation. */
  lemma ValueApplied(a: Arena, rk: seq<nat>, op: nat, p: nat, q: nat, a2: Arena, rk2: seq<nat>, r: nat)
    requires Evolved(a, rk, a2, rk2) && a2.stack == a.stack && Guarded(a, rk, p) && Guarded(a, rk, q)
    requires r < |a2.nodes| && IsValNode(a2.nodes[r])
    ensures Applied(a, rk, op, p, q, a2, rk2, Ok(r))
  {
    StillGuarded(a, rk, a2, rk2, p);
    StillGuarded(a, rk, a2, rk2, q);
    GuardedLive(a2, rk2, q);
    CoreRanked(a2, rk2);
    ReduceBase(a2.nodes, rk2, r, q);
  }

  /** A live result at or below the top level of `p`, on the stack of the start, completes a case. */
  lemma CloseOk(a: Arena, rk: seq<nat>, op: nat, p: nat, q: nat, a2: Arena, rk2: seq<nat>, r: nat)
    requires Evolved(a, rk, a2, rk2) && a2.stack == a.stack && Live(a2.nodes, r)
    requires Live(a2.nodes, p) && Live(a2.nodes, q) && Top(a2.nodes, r) <= Top(a2.nodes, p)
    requires op == ReduceOp ==> ReducedBy(a2.nodes, rk2, q, r)
    ensures Applied(a, rk, op, p, q, a2, rk2, Ok(r))
  {
  }

  /** Node 0 is the value zero. */
  lemma ZeroLive(a: Arena, rk: seq<nat>)
    requires Core(a, rk)
    ensures Live(a.nodes, ZeroPdd) && IsVal(a.nodes, ZeroPdd)
  {
    assert NodesOkOf(a.nodes, rk);
  }

  /** A result that is one of the operands, or zero, leaves the state as it is. */
  lemma Same(a: Arena, rk: seq<nat>, op: nat, p: nat, q: nat, r: nat)
    requires Valid(a, rk) && Guarded(a, rk, p) && Guarded(a, rk, q)
    requires r == p || (r == q && op != ReduceOp && op != MinusOp) || r == ZeroPdd
    requires op == ReduceOp ==> ReducedBy(a.nodes, rk, q, r)
    ensures Applied(a, rk, op, p, q, a, rk, Ok(r))
  {
    EvolvedRefl(a, rk);
    GuardedLive(a, rk, p);
    GuardedLive(a, rk, q);
    if r == ZeroPdd {
      ZeroLive(a, rk);
    }
  }

  /** The parts of `Applied` for a state whose stack is cut back afterwards. */
  lemma AppliedAnswer(a: Arena, rk: seq<nat>, op: nat, p: nat, q: nat, a2: Arena, rk2: seq<nat>, o: Outcome)
    requires Applied(a, rk, op, p, q, a2, rk2, o)
    ensures Evolved(a, rk, a2, rk2) && Answer(a2.nodes, rk2, op, p, q, o)
  {
  }

  /** Addition and multiplication do not depend on the order of the operands. */
  lemma Swapped(a: Arena, rk: seq<nat>, op: nat, p: nat, q: nat, a2: Arena, rk2: seq<nat>, o: Outcome)
    requires Applied(a, rk, op, q, p, a2, rk2, o) && op != ReduceOp && op != MinusOp
    ensures Applied(a, rk, op, p, q, a2, rk2, o)
  {
  }

  /** A result of `apply_rec` on operands at most at level `b` is itself at most at `b`. */
  lemma AppliedBound(a: Arena, rk: seq<nat>, op: nat, x: nat, y: nat, a2: Arena, rk2: seq<nat>, o: Outcome, b: int)
    requires Applied(a, rk, op, x, y, a2, rk2, o) && o.Ok? && AtMost(a, rk, x, b) && AtMost(a, rk, y, b)
    ensures Evolved(a, rk, a2, rk2) && a2.stack == a.stack && Live(a2.nodes, o.id) && Top(a2.nodes, o.id) <= b
  {
    StillGuarded(a, rk, a2, rk2, x);
    StillGuarded(a, rk, a2, rk2, y);
  }

  /** A step that changes nothing visible, followed by `apply_rec`. */
  lemma AppliedTrans(a: Arena, rk: seq<nat>, op: nat, p: nat, q: nat, a1: Arena, rk1: seq<nat>,
                     a2: Arena, rk2: seq<nat>, o: Outcome)
    requires Evolved(a, rk, a1, rk1) && a1.stack == a.stack && Applied(a1, rk1, op, p, q, a2, rk2, o)
    ensures Applied(a, rk, op, p, q, a2, rk2, o)
  {
    EvolvedTrans(a, rk, a1, rk1, a2, rk2);
  }

  /** A reduced polynomial stays reduced while it and the divisor are protected. */
  lemma StillReduced(a: Arena, rk: seq<nat>, a2: Arena, rk2: seq<nat>, q: nat, r: nat)
    requires Evolved(a, rk, a2, rk2) && Guarded(a, rk, q) && Guarded(a, rk, r) && ReducedBy(a.nodes, rk, q, r)
    ensures ReducedBy(a2.nodes, rk2, q, r)
  {
    CoreRanked(a2, rk2);
    LmDividesProtected(a.nodes, rk, a.stack, a.values, a2.nodes, rk2, a2.values, q, r);
  }

  /** The base cases of `reduce`: a value, or a polynomial whose top level
      lies below that of `q`, is reduced by `q`. */
  lemma ReduceBase(ns: seq<Node>, rk: seq<nat>, p: nat, q: nat)
    requires Ranked(ns, rk) && p < |ns| && q < |ns|
    requires IsVal(ns, p) || IsVal(ns, q) || ns[p].level < ns[q].level
    ensures ReducedBy(ns, rk, q, p)
  {
  }

  /** A node above the top level of `q` whose `hi` child is reduced by `q` is reduced by `q`. */
  lemma ReducedNode(ns: seq<Node>, rk: seq<nat>, q: nat, r: nat)
    requires Ranked(ns, rk) && q < |ns| && r < |ns| && !IsVal(ns, r) && Top(ns, q) < ns[r].level as int
    requires ReducedBy(ns, rk, q, ns[r].hi)
    ensures ReducedBy(ns, rk, q, r)
  {
  }

  // ------------------------------------------------------------ the variable nodes

  /** The pinned node of the variable at level `l`: `x_v` with `v = level2var[l]`. */
  lemma VarNode(a: Arena, rk: seq<nat>, l: nat)
    requires Core(a, rk) && l < |a.l2v|
    ensures a.l2v[l] < |a.v2p| && a.v2p[a.l2v[l]] < |a.nodes|
    ensures ShapeOf(a.nodes[a.v2p[a.l2v[l]]]) == Shape(l, ZeroPdd, OnePdd) && a.nodes[a.v2p[a.l2v[l]]].refcount == MaxRc
  {
    assert VarsOkOf(a.nodes, a.v2l, a.l2v, a.v2p);
  }

  /** A pinned variable node is a root with top level `l`. */
  lemma VarRoot(a: Arena, rk: seq<nat>, l: nat)
    requires Core(a, rk) && l < |a.l2v|
    ensures a.l2v[l] < |a.v2p| && Live(a.nodes, a.v2p[a.l2v[l]]) && a.v2p[a.l2v[l]] in Roots(a.nodes, a.stack)
    ensures Top(a.nodes, a.v2p[a.l2v[l]]) == l as int
  {
    VarNode(a, rk, l);
    assert NodesOkOf(a.nodes, rk);
  }

  /** The pinned node of the variable at level `l` is guarded and has top level `l`. */
  lemma VarGuarded(a: Arena, rk: seq<nat>, l: nat)
    requires Core(a, rk) && l < |a.l2v|
    ensures a.l2v[l] < |a.v2p| && AtMost(a, rk, a.v2p[a.l2v[l]], l)
  {
    VarRoot(a, rk, l);
    CoreRanked(a, rk);
    ProtectedFacts(a.nodes, rk, a.stack);
    assert GuardedOf(a.nodes, rk, a.stack, a.v2p[a.l2v[l]]);
  }

  // ------------------------------------------------------------ operation cache

  /** `pop_entry(l, r, op)`: the spare entry, or a newly allocated one,
      keyed by the operands and without a result. */
  method PopEntry(a: Arena, l: nat, r: nat, op: nat) returns (a2: Arena, e: OpEntry)
    ensures a2 == a.(spare := false) && e == OpEntry(OpKey(l, r, op), Pending)
  {
    a2 := a.(spare := false);
    e := OpEntry(OpKey(l, r, op), Pending);
  }

  /** `push_entry(e)`: the entry becomes the spare one. */
  method PushEntry(a: Arena) returns (a2: Arena)
    requires !a.spare
    ensures a2 == a.(spare := true)
  {
    a2 := a.(spare := true);
  }

  /** `check_result(e1, e2)`, where `found` says that the cache already
      held an entry `e2` for the key of `e1`: then its result is the answer
      and `e1` goes back as the spare entry, and a missing result is a
      failed assertion. Otherwise the new entry stays in the cache. */
  method CheckResult(a: Arena, e1: OpEntry, e2: OpEntry, found: bool) returns (a2: Arena, hit: bool, fault: bool)
    requires !a.spare
    ensures hit == found && (fault <==> found && e2.result.Pending?)
    ensures a2 == if found && !fault then a.(spare := true) else a
  {
    if found {
      if e2.result.Pending? {
        return a, true, true;
      }
      a2 := PushEntry(a);
      return a2, true, false;
    }
    return a, false, false;
  }

  /** A pending entry constrains nothing. */
  lemma PendingOk(a: Arena, rk: seq<nat>, k: OpKey)
    requires Valid(a, rk)
    ensures Valid(a.(cache := a.cache[k := Pending]), rk)
  {
    assert CoreOf(a.nodes, rk, a.free, a.table, a.values, a.mpq, a.freeVals, a.freeze, a.cache, a.stack,
                  a.mark, a.markLevel, a.v2l, a.l2v, a.v2p);
    assert CacheOkOf(a.nodes, a.cache[k := Pending]);
    assert CacheMeaningOf(a.nodes, rk, a.values, a.cache[k := Pending]);
    assert Core(a.(cache := a.cache[k := Pending]), rk);
  }

  /** A computed entry between live ids within the level bound keeps the cache invariant. */
  lemma DoneOk(a: Arena, rk: seq<nat>, k: OpKey, r: nat)
    requires Valid(a, rk) && Live(a.nodes, k.p) && Live(a.nodes, k.q) && Live(a.nodes, r)
    requires TopBound(a.nodes, k.op, k.p, k.q, r)
    requires k.op == MinusOp ==> Ranked(a.nodes, rk) && Negated(a.nodes, rk, a.values, k.p, r)
    requires k.op == ReduceOp ==> ReducedBy(a.nodes, rk, k.q, r)
    ensures Valid(a.(cache := a.cache[k := Done(r)]), rk)
  {
    assert CacheOkOf(a.nodes, a.cache[k := Done(r)]);
    assert CacheMeaningOf(a.nodes, rk, a.values, a.cache[k := Done(r)]);
    assert Core(a.(cache := a.cache[k := Done(r)]), rk);
  }

  /** A cached result is live and within the level bound. */
  lemma CachedOk(a: Arena, rk: seq<nat>, k: OpKey)
    requires Core(a, rk) && k in a.cache && a.cache[k].Done?
    ensures Live(a.nodes, a.cache[k].r) && Live(a.nodes, k.p) && Live(a.nodes, k.q)
    ensures TopBound(a.nodes, k.op, k.p, k.q, a.cache[k].r)
    ensures k.op == ReduceOp ==> ReducedBy(a.nodes, rk, k.q, a.cache[k].r)
  {
    assert CacheOkOf(a.nodes, a.cache);
    assert CacheMeaningOf(a.nodes, rk, a.values, a.cache);
  }

  /** Changing only the spare flag and the cache, in a way that keeps the invariant, is a step. */
  lemma CacheStep(a: Arena, rk: seq<nat>, a2: Arena)
    requires Valid(a, rk) && Valid(a2, rk) && a2 == a.(spare := a2.spare, cache := a2.cache)
    ensures Evolved(a, rk, a2, rk) && a2.stack == a.stack
  {
    KeptRefl(a.nodes, rk, a.stack, a.values);
  }

  /** Storing the result of a step in its cache entry. */
  lemma StoreOk(a: Arena, rk: seq<nat>, op: nat, p: nat, q: nat, a1: Arena, rk1: seq<nat>, o: Outcome)
    requires Applied(a, rk, op, p, q, a1, rk1, o) && o.Ok?
    requires op == MinusOp ==> Ranked(a1.nodes, rk1) && p < |a1.nodes| && o.id < |a1.nodes| && Negated(a1.nodes, rk1, a1.values, p, o.id)
    ensures Applied(a, rk, op, p, q, a1.(cache := a1.cache[OpKey(p, q, op) := Done(o.id)]), rk1, o)
  {
    DoneOk(a1, rk1, OpKey(p, q, op), o.id);
    var a2 := a1.(cache := a1.cache[OpKey(p, q, op) := Done(o.id)]);
    CacheStep(a1, rk1, a2);
    EvolvedTrans(a, rk, a1, rk1, a2, rk1);
  }

  // ------------------------------------------------------------ the mutators as steps

  /** `imk_val` is a step. */
  lemma ImkValStep(a: Arena, rk: seq<nat>, a2: Arena, rk2: seq<nat>)
    requires Valid(a, rk) && Core(a2, rk2) && StrictValuesOf(a2.nodes, a2.values, a2.mpq)
    requires Kept(a.nodes, rk, a.stack, a.values, a2.nodes, rk2, a2.values)
    requires a2 == a.(nodes := a2.nodes, free := a2.free, table := a2.table, values := a2.values, mpq := a2.mpq,
                      freeVals := a2.freeVals, freeze := a2.freeze, cache := a2.cache, isNew := a2.isNew)
    requires forall m: nat | LevelsBelowOf(a.nodes, m) :: LevelsBelowOf(a2.nodes, m)
    ensures Evolved(a, rk, a2, rk2) && a2.stack == a.stack
  {
    assert LevelsBelowOf(a.nodes, |a.l2v|);
  }

  /** `try_gc` is a step. */
  lemma GcStepOk(a: Arena, rk: seq<nat>, a2: Arena, rk2: seq<nat>)
    requires Valid(a, rk) && Core(a2, rk2)
    requires a2 == a.(nodes := a2.nodes, free := a2.free, table := a2.table, mpq := a2.mpq,
                      freeVals := a2.freeVals, cache := map[])
    requires Kept(a.nodes, rk, a.stack, a.values, a2.nodes, rk2, a2.values)
    requires forall m: nat | LevelsBelowOf(a.nodes, m) :: LevelsBelowOf(a2.nodes, m)
    requires StrictValuesOf(a.nodes, a.values, a.mpq) ==> StrictValuesOf(a2.nodes, a2.values, a2.mpq)
    ensures Evolved(a, rk, a2, rk2) && a2.stack == a.stack
  {
    assert LevelsBelowOf(a.nodes, |a.l2v|);
  }

  // ------------------------------------------------------------ building blocks

  /** `make_node` as the recursive operations call it: the children are
      level-ordered below `lvl`, and so is the result. */
  method MakeStep(a: Arena, ghost rk: seq<nat>, lvl: nat, l: nat, h: nat) returns (a2: Arena, ghost rk2: seq<nat>, o: Outcome)
    requires Valid(a, rk) && Live(a.nodes, l) && Live(a.nodes, h) && lvl < |a.l2v|
    requires Top(a.nodes, l) < lvl as int && Top(a.nodes, h) <= lvl as int
    ensures Evolved(a, rk, a2, rk2) && a2.stack == a.stack
    ensures o.Ok? || o.MemOut? || o.Fault?
    ensures o.Ok? ==> Live(a2.nodes, o.id) && Top(a2.nodes, o.id) <= lvl as int
    ensures o.Ok? && h != ZeroPdd ==> o.id < |a2.nodes| && ShapeOf(a2.nodes[o.id]) == Shape(lvl, l, h)
    ensures h == ZeroPdd ==> o == Ok(l)
  {
    a2, rk2, o := MakeNode(a, rk, lvl, l, h);
  }

  /** `push(make_node(lvl, l, h))`. */
  method PushMake(a: Arena, ghost rk: seq<nat>, lvl: nat, l: nat, h: nat) returns (a2: Arena, ghost rk2: seq<nat>, o: Outcome)
    requires Valid(a, rk) && lvl < |a.l2v| && AtMost(a, rk, l, lvl as int - 1) && AtMost(a, rk, h, lvl)
    ensures Evolved(a, rk, a2, rk2) && (o.Ok? || o.MemOut? || o.Fault?)
    ensures o.Ok? ==> a2.stack == a.stack + [o.id] && AtMost(a2, rk2, o.id, lvl)
  {
    AtMostFacts(a, rk, l, lvl as int - 1);
    AtMostFacts(a, rk, h, lvl);
    var a1;
    a1, rk2, o := MakeStep(a, rk, lvl, l, h);
    if !o.Ok? {
      return a1, rk2, o;
    }
    EvolvedFrame(a, rk, a1, rk2);
    PushAtMost(a1, rk2, o.id, lvl);
    EvolvedTrans(a, rk, a1, rk2, Push(a1, o.id), rk2);
    a2 := Push(a1, o.id);
  }

  /** `push(apply_rec(x, y, op))` for operands at most at level `b`. */
  method PushApply(a: Arena, ghost rk: seq<nat>, x: nat, y: nat, op: nat, b: int, fuel: nat)
    returns (a2: Arena, ghost rk2: seq<nat>, o: Outcome)
    requires Valid(a, rk) && IsApplyOp(op) && AtMost(a, rk, x, b) && AtMost(a, rk, y, b)
    ensures Evolved(a, rk, a2, rk2)
    ensures o.Ok? ==> a2.stack == a.stack + [o.id] && AtMost(a2, rk2, o.id, b)
    ensures o.Ok? && op == ReduceOp ==> ReducedBy(a2.nodes, rk2, y, o.id)
    decreases fuel, 4
  {
    AtMostFacts(a, rk, x, b);
    AtMostFacts(a, rk, y, b);
    var a1;
    a1, rk2, o := ApplyRec(a, rk, x, y, op, fuel);
    if !o.Ok? {
      return a1, rk2, o;
    }
    AppliedBound(a, rk, op, x, y, a1, rk2, o, b);
    EvolvedFrame(a, rk, a1, rk2);
    PushAtMost(a1, rk2, o.id, b);
    EvolvedTrans(a, rk, a1, rk2, Push(a1, o.id), rk2);
    a2 := Push(a1, o.id);
  }

  /** `imk_val(r)` as a step. */
  method ImkValEvolved(a: Arena, ghost rk: seq<nat>, r: real) returns (a2: Arena, ghost rk2: seq<nat>, o: Outcome)
    requires Valid(a, rk)
    ensures Evolved(a, rk, a2, rk2) && a2.stack == a.stack
    ensures o.Fault? <==> a.mod2 && !IsIntegral(r)
    ensures o.Ok? ==>
      o.id < |a2.nodes| && IsValNode(a2.nodes[o.id]) && a2.nodes[o.id].lo < |a2.values| &&
      ValOf(a2.nodes, a2.values, o.id) == Normalized(a.mod2, r)
  {
    a2, rk2, o := ImkVal(a, rk, r);
    ImkValStep(a, rk, a2, rk2);
  }

  /** The value node `imk_val` gives for a combination of two values. */
  method ValueStep(a: Arena, ghost rk: seq<nat>, op: nat, p: nat, q: nat, r: real) returns (a2: Arena, ghost rk2: seq<nat>, o: Outcome)
    requires Valid(a, rk) && Guarded(a, rk, p) && Guarded(a, rk, q)
    ensures Applied(a, rk, op, p, q, a2, rk2, o)
    ensures o.Fault? <==> a.mod2 && !IsIntegral(r)
    ensures o.Ok? ==>
      o.id < |a2.nodes| && IsValNode(a2.nodes[o.id]) && a2.nodes[o.id].lo < |a2.values| &&
      ValOf(a2.nodes, a2.values, o.id) == Normalized(a.mod2, r)
  {
    a2, rk2, o := ImkValEvolved(a, rk, r);
    if o.Ok? {
      ValueApplied(a, rk, op, p, q, a2, rk2, o.id);
    } else {
      Failed(a, rk, op, p, q, a2, rk2, o);
    }
  }

  /** The order of the operands `apply_rec` works on past its base cases:
      a polynomial first, and the one with the higher top level. */
  method Order(ns: seq<Node>, p: nat, q: nat) returns (x: nat, y: nat)
    requires p < |ns| && q < |ns| && !(IsVal(ns, p) && IsVal(ns, q))
    ensures (x == p && y == q) || (x == q && y == p)
    ensures !IsVal(ns, x) && (IsVal(ns, y) || ns[y].level <= ns[x].level)
  {
    x, y := p, q;
    if !IsVal(ns, x) && !IsVal(ns, y) && ns[x].level < ns[y].level {
      x, y := y, x;
    }
    if IsVal(ns, x) {
      x, y := y, x;
    }
  }

  // ------------------------------------------------------------ apply_rec

  /** `apply_rec(p, q, op)`. */
  method ApplyRec(a: Arena, ghost rk: seq<nat>, p: nat, q: nat, op: nat, fuel: nat) returns (a2: Arena, ghost rk2: seq<nat>, o: Outcome)
    requires Valid(a, rk) && Guarded(a, rk, p) && Guarded(a, rk, q) && IsApplyOp(op)
    ensures Applied(a, rk, op, p, q, a2, rk2, o)
    ensures o.Ok? && op == ReduceOp ==> ReducedBy(a2.nodes, rk2, q, o.id)
    decreases fuel, 3
  {
    if op == AddOp {
      a2, rk2, o := AddRec(a, rk, p, q, fuel);
    } else if op == MulOp {
      a2, rk2, o := MulRec(a, rk, p, q, fuel);
    } else {
      a2, rk2, o := ReduceRec(a, rk, p, q, fuel);
    }
  }

  /** The addition cases of `apply_rec`: zero is the identity, two values
      add up to a value, and otherwise the operands are ordered so that `p`
      has the higher top level. */
  method AddRec(a: Arena, ghost rk: seq<nat>, p: nat, q: nat, fuel: nat) returns (a2: Arena, ghost rk2: seq<nat>, o: Outcome)
    requires Valid(a, rk) && Guarded(a, rk, p) && Guarded(a, rk, q) && p < |a.nodes| && q < |a.nodes|
    ensures Applied(a, rk, AddOp, p, q, a2, rk2, o)
    ensures p == ZeroPdd ==> o == Ok(q) && a2 == a && rk2 == rk
    ensures p != ZeroPdd && q == ZeroPdd ==> o == Ok(p) && a2 == a && rk2 == rk
    ensures p != ZeroPdd && q != ZeroPdd && IsVal(a.nodes, p) && IsVal(a.nodes, q) ==>
      a.nodes[p].lo < |a.values| && a.nodes[q].lo < |a.values| &&
      var r := ValOf(a.nodes, a.values, p) + ValOf(a.nodes, a.values, q);
      (o.Fault? <==> a.mod2 && !IsIntegral(r)) &&
      (o.Ok? ==> o.id < |a2.nodes| && IsValNode(a2.nodes[o.id]) && a2.nodes[o.id].lo < |a2.values| &&
                 ValOf(a2.nodes, a2.values, o.id) == Normalized(a.mod2, r))
    decreases fuel, 2
  {
    if p == ZeroPdd {
      Same(a, rk, AddOp, p, q, q);
      return a, rk, Ok(q);
    }
    if q == ZeroPdd {
      Same(a, rk, AddOp, p, q, p);
      return a, rk, Ok(p);
    }
    a2, rk2, o := AddPast(a, rk, p, q, fuel);
  }

  /** Addition of two non-zero operands: two values add up to a value, and
      otherwise the operands are ordered so that `p` has the higher top level. */
  method AddPast(a: Arena, ghost rk: seq<nat>, p: nat, q: nat, fuel: nat) returns (a2: Arena, ghost rk2: seq<nat>, o: Outcome)
    requires Valid(a, rk) && Guarded(a, rk, p) && Guarded(a, rk, q) && p < |a.nodes| && q < |a.nodes|
    requires p != ZeroPdd && q != ZeroPdd
    ensures Applied(a, rk, AddOp, p, q, a2, rk2, o)
    ensures IsVal(a.nodes, p) && IsVal(a.nodes, q) ==>
      a.nodes[p].lo < |a.values| && a.nodes[q].lo < |a.values| &&
      var r := ValOf(a.nodes, a.values, p) + ValOf(a.nodes, a.values, q);
      (o.Fault? <==> a.mod2 && !IsIntegral(r)) &&
      (o.Ok? ==> o.id < |a2.nodes| && IsValNode(a2.nodes[o.id]) && a2.nodes[o.id].lo < |a2.values| &&
                 ValOf(a2.nodes, a2.values, o.id) == Normalized(a.mod2, r))
    decreases fuel, 1, 2
  {
    ValueNodeValue(a, rk, p);
    ValueNodeValue(a, rk, q);
    if IsVal(a.nodes, p) && IsVal(a.nodes, q) {
      a2, rk2, o := ValueStep(a, rk, AddOp, p, q, ValOf(a.nodes, a.values, p) + ValOf(a.nodes, a.values, q));
    } else {
      a2, rk2, o := AddOrdered(a, rk, p, q, fuel);
    }
  }

  /** Addition past the value cases: the operand with the higher top level goes first. */
  method AddOrdered(a: Arena, ghost rk: seq<nat>, p: nat, q: nat, fuel: nat) returns (a2: Arena, ghost rk2: seq<nat>, o: Outcome)
    requires Valid(a, rk) && Guarded(a, rk, p) && Guarded(a, rk, q) && p < |a.nodes| && q < |a.nodes|
    requires !(IsVal(a.nodes, p) && IsVal(a.nodes, q))
    ensures Applied(a, rk, AddOp, p, q, a2, rk2, o)
    decreases fuel, 1, 1
  {
    var x, y := Order(a.nodes, p, q);
    a2, rk2, o := ApplyStep(a, rk, x, y, AddOp, fuel);
    if x != p {
      Swapped(a, rk, AddOp, p, q, a2, rk2, o);
    }
  }

  /** The multiplication cases of `apply_rec`: zero annihilates and one is
      the identity; the rest is `MulPast`. */
  method MulRec(a: Arena, ghost rk: seq<nat>, p: nat, q: nat, fuel: nat) returns (a2: Arena, ghost rk2: seq<nat>, o: Outcome)
    requires Valid(a, rk) && Guarded(a, rk, p) && Guarded(a, rk, q) && p < |a.nodes| && q < |a.nodes|
    ensures Applied(a, rk, MulOp, p, q, a2, rk2, o)
    ensures p == ZeroPdd || q == ZeroPdd ==> o == Ok(ZeroPdd) && a2 == a && rk2 == rk
    ensures p == OnePdd && q != ZeroPdd ==> o == Ok(q) && a2 == a && rk2 == rk
    ensures q == OnePdd && p != ZeroPdd ==> o == Ok(p) && a2 == a && rk2 == rk
    ensures p > OnePdd && q > OnePdd && IsVal(a.nodes, p) && IsVal(a.nodes, q) ==>
      a.nodes[p].lo < |a.values| && a.nodes[q].lo < |a.values| &&
      var r := ValOf(a.nodes, a.values, p) * ValOf(a.nodes, a.values, q);
      (o.Fault? <==> a.mod2 && !IsIntegral(r)) &&
      (o.Ok? ==> o.id < |a2.nodes| && IsValNode(a2.nodes[o.id]) && a2.nodes[o.id].lo < |a2.values| &&
                 ValOf(a2.nodes, a2.values, o.id) == Normalized(a.mod2, r))
    decreases fuel, 2
  {
    if p == ZeroPdd || q == ZeroPdd {
      Same(a, rk, MulOp, p, q, ZeroPdd);
      return a, rk, Ok(ZeroPdd);
    }
    if p == OnePdd {
      Same(a, rk, MulOp, p, q, q);
      return a, rk, Ok(q);
    }
    if q == OnePdd {
      Same(a, rk, MulOp, p, q, p);
      return a, rk, Ok(p);
    }
    a2, rk2, o := MulPast(a, rk, p, q, fuel);
  }

  /** Multiplication past the zero and one cases: two values multiply to a
      value, and otherwise the operands are ordered so that `p` has the
      higher top level. */
  method MulPast(a: Arena, ghost rk: seq<nat>, p: nat, q: nat, fuel: nat) returns (a2: Arena, ghost rk2: seq<nat>, o: Outcome)
    requires Valid(a, rk) && Guarded(a, rk, p) && Guarded(a, rk, q) && p < |a.nodes| && q < |a.nodes|
    ensures Applied(a, rk, MulOp, p, q, a2, rk2, o)
    ensures IsVal(a.nodes, p) && IsVal(a.nodes, q) ==>
      a.nodes[p].lo < |a.values| && a.nodes[q].lo < |a.values| &&
      var r := ValOf(a.nodes, a.values, p) * ValOf(a.nodes, a.values, q);
      (o.Fault? <==> a.mod2 && !IsIntegral(r)) &&
      (o.Ok? ==> o.id < |a2.nodes| && IsValNode(a2.nodes[o.id]) && a2.nodes[o.id].lo < |a2.values| &&
                 ValOf(a2.nodes, a2.values, o.id) == Normalized(a.mod2, r))
    decreases fuel, 1, 1
  {
    ValueNodeValue(a, rk, p);
    ValueNodeValue(a, rk, q);
    if IsVal(a.nodes, p) && IsVal(a.nodes, q) {
      a2, rk2, o := ValueStep(a, rk, MulOp, p, q, ValOf(a.nodes, a.values, p) * ValOf(a.nodes, a.values, q));
      return;
    }
    var x, y := Order(a.nodes, p, q);
    a2, rk2, o := ApplyStep(a, rk, x, y, MulOp, fuel);
    if x != p {
      Swapped(a, rk, MulOp, p, q, a2, rk2, o);
    }
  }

  /** The reduction cases of `apply_rec`: reducing by zero, reducing a value
      and reducing by a polynomial with a higher top level leave `p` as it is. */
  method ReduceRec(a: Arena, ghost rk: seq<nat>, p: nat, q: nat, fuel: nat) returns (a2: Arena, ghost rk2: seq<nat>, o: Outcome)
    requires Valid(a, rk) && Guarded(a, rk, p) && Guarded(a, rk, q) && p < |a.nodes| && q < |a.nodes|
    ensures Applied(a, rk, ReduceOp, p, q, a2, rk2, o)
    ensures q == ZeroPdd || IsVal(a.nodes, p) || Top(a.nodes, p) < Top(a.nodes, q) ==> o == Ok(p) && a2 == a && rk2 == rk
    ensures o.Ok? ==> ReducedBy(a2.nodes, rk2, q, o.id)
    decreases fuel, 2
  {
    if q == ZeroPdd || IsVal(a.nodes, p) || a.nodes[p].level < a.nodes[q].level {
      CoreRanked(a, rk);
      ZeroLive(a, rk);
      ReduceBase(a.nodes, rk, p, q);
      Same(a, rk, ReduceOp, p, q, p);
      return a, rk, Ok(p);
    }
    a2, rk2, o := ApplyStep(a, rk, p, q, ReduceOp, fuel);
  }

  /** The part of `apply_rec` past its base cases: the operation cache is
      consulted, a pending entry for the same key is a failed assertion, and
      a new result is stored in the entry. */
  method ApplyStep(a: Arena, ghost rk: seq<nat>, p: nat, q: nat, op: nat, fuel: nat) returns (a2: Arena, ghost rk2: seq<nat>, o: Outcome)
    requires Valid(a, rk) && Guarded(a, rk, p) && Guarded(a, rk, q) && IsApplyOp(op)
    requires p < |a.nodes| && q < |a.nodes| && !IsVal(a.nodes, p)
    requires op != ReduceOp ==> IsVal(a.nodes, q) || a.nodes[q].level <= a.nodes[p].level
    requires op == ReduceOp ==> q != ZeroPdd && a.nodes[q].level <= a.nodes[p].level
    ensures Applied(a, rk, op, p, q, a2, rk2, o)
    ensures var k := OpKey(p, q, op);
      (k in a.cache && a.cache[k].Done? ==> o == Ok(a.cache[k].r) && a2 == a.(spare := true) && rk2 == rk) &&
      (k in a.cache && a.cache[k].Pending? ==> o == Fault && a2 == a.(spare := false) && rk2 == rk)
    decreases fuel, 1, 0
  {
    var a1, e1 := PopEntry(a, p, q, op);
    var k := e1.key;
    var found := k in a1.cache;
    var e2 := if found then OpEntry(k, a1.cache[k]) else e1;
    if found {
      var hit, fault;
      a1, hit, fault := CheckResult(a1, e1, e2, found);
      if fault {
        a2, rk2, o := CacheFault(a, rk, p, q, op, a1);
      } else {
        a2, rk2, o := CacheHit(a, rk, p, q, op, a1);
      }
      return;
    }
    a1 := a1.(cache := a1.cache[k := e1.result]);
    var hit, fault;
    a1, hit, fault := CheckResult(a1, e1, e2, found);
    a2, rk2, o := ApplyMiss(a, rk, p, q, op, a1, fuel);
  }

  /** A cache entry still pending for the same key: a failed assertion. */
  method CacheFault(a: Arena, ghost rk: seq<nat>, p: nat, q: nat, op: nat, a1: Arena) returns (a2: Arena, ghost rk2: seq<nat>, o: Outcome)
    requires Valid(a, rk) && a1 == a.(spare := false)
    ensures Applied(a, rk, op, p, q, a2, rk2, o) && o == Fault && a2 == a1 && rk2 == rk
  {
    CacheStep(a, rk, a1);
    Failed(a, rk, op, p, q, a1, rk, Fault);
    return a1, rk, Fault;
  }

  /** A computed cache entry for the key: its result is the answer. */
  method CacheHit(a: Arena, ghost rk: seq<nat>, p: nat, q: nat, op: nat, a1: Arena) returns (a2: Arena, ghost rk2: seq<nat>, o: Outcome)
    requires Valid(a, rk) && OpKey(p, q, op) in a.cache && a.cache[OpKey(p, q, op)].Done? && a1 == a.(spare := true)
    ensures Applied(a, rk, op, p, q, a2, rk2, o) && o == Ok(a.cache[OpKey(p, q, op)].r) && a2 == a1 && rk2 == rk
  {
    CachedOk(a, rk, OpKey(p, q, op));
    CacheStep(a, rk, a1);
    return a1, rk, Ok(a.cache[OpKey(p, q, op)].r);
  }

  /** A new cache entry, pending while the case split computes its result. */
  method ApplyMiss(a: Arena, ghost rk: seq<nat>, p: nat, q: nat, op: nat, a1: Arena, fuel: nat)
    returns (a2: Arena, ghost rk2: seq<nat>, o: Outcome)
    requires Valid(a, rk) && Guarded(a, rk, p) && Guarded(a, rk, q) && IsApplyOp(op)
    requires p < |a.nodes| && q < |a.nodes| && !IsVal(a.nodes, p)
    requires op != ReduceOp ==> IsVal(a.nodes, q) || a.nodes[q].level <= a.nodes[p].level
    requires op == ReduceOp ==> q != ZeroPdd && a.nodes[q].level <= a.nodes[p].level
    requires a1 == a.(spare := false, cache := a.cache[OpKey(p, q, op) := Pending])
    ensures Applied(a, rk, op, p, q, a2, rk2, o)
    decreases fuel, 0
  {
    PendingOk(a.(spare := false), rk, OpKey(p, q, op));
    CacheStep(a, rk, a1);
    StillGuarded(a, rk, a1, rk, p);
    StillGuarded(a, rk, a1, rk, q);
    if fuel == 0 {
      Failed(a, rk, op, p, q, a1, rk, OutOfFuel);
      return a1, rk, OutOfFuel;
    }
    var a3, rk3, o3 := Dispatch(a1, rk, p, q, op, fuel - 1);
    if !o3.Ok? {
      EvolvedTrans(a, rk, a1, rk, a3, rk3);
      Failed(a, rk, op, p, q, a3, rk3, o3);
      return a3, rk3, o3;
    }
    StoreOk(a1, rk, op, p, q, a3, rk3, o3);
    a2, rk2, o := a3.(cache := a3.cache[OpKey(p, q, op) := Done(o3.id)]), rk3, o3;
    AppliedTrans(a, rk, op, p, q, a1, rk, a2, rk2, o);
  }

  /** The case split of `apply_rec` after the cache lookup. */
  method Dispatch(a: Arena, ghost rk: seq<nat>, p: nat, q: nat, op: nat, fuel: nat) returns (a2: Arena, ghost rk2: seq<nat>, o: Outcome)
    requires Valid(a, rk) && Guarded(a, rk, p) && Guarded(a, rk, q) && IsApplyOp(op)
    requires p < |a.nodes| && q < |a.nodes| && !IsVal(a.nodes, p)
    requires op != ReduceOp ==> IsVal(a.nodes, q) || a.nodes[q].level <= a.nodes[p].level
    requires op == ReduceOp ==> q != ZeroPdd && a.nodes[q].level <= a.nodes[p].level
    ensures Applied(a, rk, op, p, q, a2, rk2, o)
    decreases fuel, 12
  {
    var ns := a.nodes;
    var lp: nat, lq: nat := ns[p].level, ns[q].level;
    if op == AddOp {
      if IsVal(ns, q) || lp > lq {
        a2, rk2, o := AddLo(a, rk, p, q, fuel);
      } else {
        a2, rk2, o := AddSame(a, rk, p, q, fuel);
      }
    } else if op == MulOp {
      if IsVal(ns, q) || lp > lq {
        a2, rk2, o := LoHi(a, rk, p, q, MulOp, fuel);
      } else if a.mod2 {
        a2, rk2, o := MulMod2(a, rk, p, q, fuel);
      } else {
        a2, rk2, o := MulSame(a, rk, p, q, fuel);
      }
    } else {
      if lp > lq {
        a2, rk2, o := LoHi(a, rk, p, q, ReduceOp, fuel);
      } else {
        a2, rk2, o := ReduceOnMatch(a, rk, p, q, fuel);
      }
    }
  }

  // ------------------------------------------------------------ the cases of apply_rec

  /** `make_node(lvl, l, h)` followed by `pop(n)`: the close of a case of
      `apply_rec` that pushed `n` entries while working at or below the top
      level `lvl` of `p`. */
  method MakeAndPop(a: Arena, ghost rk: seq<nat>, op: nat, p: nat, q: nat, a1: Arena, ghost rk1: seq<nat>,
                    l: nat, h: nat, n: nat) returns (a2: Arena, ghost rk2: seq<nat>, o: Outcome)
    requires Valid(a, rk) && Guarded(a, rk, p) && Guarded(a, rk, q) && p < |a.nodes| && !IsVal(a.nodes, p)
    requires Evolved(a, rk, a1, rk1) && |a1.stack| == |a.stack| + n
    requires AtMost(a1, rk1, l, a.nodes[p].level as int - 1) && AtMost(a1, rk1, h, a.nodes[p].level as int)
    requires op == ReduceOp ==>
      AtMost(a1, rk1, q, a.nodes[p].level as int - 1) && ReducedBy(a1.nodes, rk1, q, l) && ReducedBy(a1.nodes, rk1, q, h)
    ensures Applied(a, rk, op, p, q, a2, rk2, o)
    ensures o.Ok? ==> Kept(a1.nodes, rk1, a1.stack, a1.values, a2.nodes, rk2, a2.values)
    ensures o.Ok? && h != ZeroPdd ==> o.id < |a2.nodes| && ShapeOf(a2.nodes[o.id]) == Shape(a.nodes[p].level, l, h)
  {
    var lvl: nat := a.nodes[p].level;
    LevelInRange(a, rk, p);
    EvolvedFrame(a, rk, a1, rk1);
    AtMostFacts(a1, rk1, l, lvl as int - 1);
    AtMostFacts(a1, rk1, h, lvl);
    var a3, rk3, o3 := MakeStep(a1, rk1, lvl, l, h);
    EvolvedTrans(a, rk, a1, rk1, a3, rk3);
    if !o3.Ok? {
      Failed(a, rk, op, p, q, a3, rk3, o3);
      return a3, rk3, o3;
    }
    EvolvedFrame(a, rk, a3, rk3);
    PopRestores(a, a3, n);
    Restored(a, rk, a3, rk3);
    StillGuarded(a, rk, a3, rk3, p);
    StillGuarded(a, rk, a3, rk3, q);
    if op == ReduceOp {
      ReducedResult(a1, rk1, lvl, l, h, q, a3, rk3, o3.id);
    }
    CloseOk(a, rk, op, p, q, a3.(stack := a.stack), rk3, o3.id);
    a2, rk2, o := Pop(a3, n), rk3, o3;
  }

  /** The node `make_node(lvl, l, h)` built from two children reduced by a
      `q` below `lvl` is reduced by `q`. */
  lemma ReducedResult(a1: Arena, rk1: seq<nat>, lvl: nat, l: nat, h: nat, q: nat, a3: Arena, rk3: seq<nat>, r: nat)
    requires Evolved(a1, rk1, a3, rk3) && AtMost(a1, rk1, q, lvl as int - 1) && Guarded(a1, rk1, l) && Guarded(a1, rk1, h)
    requires ReducedBy(a1.nodes, rk1, q, l) && ReducedBy(a1.nodes, rk1, q, h)
    requires h == ZeroPdd ==> r == l
    requires h != ZeroPdd ==> r < |a3.nodes| && ShapeOf(a3.nodes[r]) == Shape(lvl, l, h)
    ensures ReducedBy(a3.nodes, rk3, q, r)
  {
    AtMostFacts(a1, rk1, q, lvl as int - 1);
    StillReduced(a1, rk1, a3, rk3, q, l);
    StillReduced(a1, rk1, a3, rk3, q, h);
    if h != ZeroPdd {
      StillAtMost(a1, rk1, a3, rk3, q, lvl as int - 1);
      AtMostFacts(a3, rk3, q, lvl as int - 1);
      ReducedNode(a3.nodes, rk3, q, r);
    }
  }

  /** Addition where `q` is a value or lies below the top level of `p`:
      `make_node(level(p), lo(p) + q, hi(p))`. */
  method AddLo(a: Arena, ghost rk: seq<nat>, p: nat, q: nat, fuel: nat) returns (a2: Arena, ghost rk2: seq<nat>, o: Outcome)
    requires Valid(a, rk) && Guarded(a, rk, p) && Guarded(a, rk, q) && p < |a.nodes| && q < |a.nodes| && !IsVal(a.nodes, p)
    requires IsVal(a.nodes, q) || a.nodes[q].level < a.nodes[p].level
    ensures Applied(a, rk, AddOp, p, q, a2, rk2, o)
    decreases fuel, 11
  {
    var lvl: nat := a.nodes[p].level;
    Children(a, rk, p);
    Operand(a, rk, q, lvl as int - 1);
    var l: nat, h: nat := a.nodes[p].lo, a.nodes[p].hi;
    var a1, rk1, o1 := PushApply(a, rk, l, q, AddOp, lvl as int - 1, fuel);
    if !o1.Ok? {
      Failed(a, rk, AddOp, p, q, a1, rk1, o1);
      return a1, rk1, o1;
    }
    StillAtMost(a, rk, a1, rk1, h, lvl);
    a2, rk2, o := MakeAndPop(a, rk, AddOp, p, q, a1, rk1, o1.id, h, 1);
  }

  /** Addition of two polynomials with the same top level: the `lo` parts
      and the `hi` parts are added. */
  method AddSame(a: Arena, ghost rk: seq<nat>, p: nat, q: nat, fuel: nat) returns (a2: Arena, ghost rk2: seq<nat>, o: Outcome)
    requires Valid(a, rk) && Guarded(a, rk, p) && Guarded(a, rk, q) && p < |a.nodes| && q < |a.nodes|
    requires !IsVal(a.nodes, p) && !IsVal(a.nodes, q) && a.nodes[p].level == a.nodes[q].level
    ensures Applied(a, rk, AddOp, p, q, a2, rk2, o)
    decreases fuel, 11
  {
    var lvl: nat := a.nodes[p].level;
    Children(a, rk, p);
    Children(a, rk, q);
    var pl: nat, ph: nat, ql: nat, qh: nat := a.nodes[p].lo, a.nodes[p].hi, a.nodes[q].lo, a.nodes[q].hi;
    var a1, rk1, o1 := PushApply(a, rk, pl, ql, AddOp, lvl as int - 1, fuel);
    if !o1.Ok? {
      Failed(a, rk, AddOp, p, q, a1, rk1, o1);
      return a1, rk1, o1;
    }
    StillAtMost(a, rk, a1, rk1, ph, lvl);
    StillAtMost(a, rk, a1, rk1, qh, lvl);
    var a3, rk3, o3 := PushApply(a1, rk1, ph, qh, AddOp, lvl, fuel);
    EvolvedTrans(a, rk, a1, rk1, a3, rk3);
    if !o3.Ok? {
      Failed(a, rk, AddOp, p, q, a3, rk3, o3);
      return a3, rk3, o3;
    }
    StillAtMost(a1, rk1, a3, rk3, o1.id, lvl as int - 1);
    a2, rk2, o := MakeAndPop(a, rk, AddOp, p, q, a3, rk3, o1.id, o3.id, 2);
  }

  /** Multiplication by a `q` that is a value or lies below the top level
      of `p`, and reduction by a `q` below it: `op` is applied to both
      children of `p` and `q`. */
  method LoHi(a: Arena, ghost rk: seq<nat>, p: nat, q: nat, op: nat, fuel: nat) returns (a2: Arena, ghost rk2: seq<nat>, o: Outcome)
    requires Valid(a, rk) && Guarded(a, rk, p) && Guarded(a, rk, q) && p < |a.nodes| && q < |a.nodes| && !IsVal(a.nodes, p)
    requires op == MulOp || op == ReduceOp
    requires IsVal(a.nodes, q) || a.nodes[q].level < a.nodes[p].level
    ensures Applied(a, rk, op, p, q, a2, rk2, o)
    ensures o.Ok? && op == ReduceOp ==> ReducedBy(a2.nodes, rk2, q, o.id)
    decreases fuel, 11
  {
    var lvl: nat := a.nodes[p].level;
    Children(a, rk, p);
    Operand(a, rk, q, lvl as int - 1);
    var l: nat, h: nat := a.nodes[p].lo, a.nodes[p].hi;
    var a1, rk1, o1 := PushApply(a, rk, l, q, op, lvl as int - 1, fuel);
    if !o1.Ok? {
      Failed(a, rk, op, p, q, a1, rk1, o1);
      return a1, rk1, o1;
    }
    StillAtMost(a, rk, a1, rk1, h, lvl);
    StillAtMost(a, rk, a1, rk1, q, lvl as int - 1);
    AtMostWeaken(a1, rk1, q, lvl as int - 1);
    var a3, rk3, o3 := PushApply(a1, rk1, h, q, op, lvl, fuel);
    EvolvedTrans(a, rk, a1, rk1, a3, rk3);
    if !o3.Ok? {
      Failed(a, rk, op, p, q, a3, rk3, o3);
      return a3, rk3, o3;
    }
    StillAtMost(a1, rk1, a3, rk3, o1.id, lvl as int - 1);
    if op == ReduceOp {
      StillAtMost(a1, rk1, a3, rk3, q, lvl as int - 1);
      AtMostFacts(a1, rk1, o1.id, lvl as int - 1);
      AtMostFacts(a1, rk1, q, lvl as int - 1);
      StillReduced(a1, rk1, a3, rk3, q, o1.id);
    }
    a2, rk2, o := MakeAndPop(a, rk, op, p, q, a3, rk3, o1.id, o3.id, 2);
  }

  /** `push(x1 * y1)` and `push(x2 * y2)`, with the products at most at
      levels `b1` and `b2`; their ids are `r1` and `r2`. */
  method PushTwoProducts(a: Arena, ghost rk: seq<nat>, x1: nat, y1: nat, b1: int, x2: nat, y2: nat, b2: int, fuel: nat)
    returns (a2: Arena, ghost rk2: seq<nat>, o: Outcome, r1: nat, r2: nat)
    requires Valid(a, rk) && AtMost(a, rk, x1, b1) && AtMost(a, rk, y1, b1) && AtMost(a, rk, x2, b2) && AtMost(a, rk, y2, b2)
    ensures Evolved(a, rk, a2, rk2)
    ensures o.Ok? ==> |a2.stack| == |a.stack| + 2 && AtMost(a2, rk2, r1, b1) && AtMost(a2, rk2, r2, b2)
    decreases fuel, 9
  {
    var a1, rk1, o1 := PushApply(a, rk, x1, y1, MulOp, b1, fuel);
    if !o1.Ok? {
      return a1, rk1, o1, 0, 0;
    }
    StillAtMost(a, rk, a1, rk1, x2, b2);
    StillAtMost(a, rk, a1, rk1, y2, b2);
    r1 := o1.id;
    EvolvedFrame(a, rk, a1, rk1);
    a2, rk2, o := PushApply(a1, rk1, x2, y2, MulOp, b2, fuel);
    EvolvedTrans(a, rk, a1, rk1, a2, rk2);
    if !o.Ok? {
      return a2, rk2, o, r1, 0;
    }
    StillAtMost(a1, rk1, a2, rk2, r1, b1);
    r2 := o.id;
  }

  /** The four products of the children at a common top level, pushed as
      `ac, ad, bc, bd` for `p = x*a + b` and `q = x*c + d`. */
  method MulProducts(a: Arena, ghost rk: seq<nat>, p: nat, q: nat, fuel: nat)
    returns (a2: Arena, ghost rk2: seq<nat>, o: Outcome, ac: nat, ad: nat, bc: nat, bd: nat)
    requires Valid(a, rk) && Guarded(a, rk, p) && Guarded(a, rk, q) && p < |a.nodes| && q < |a.nodes|
    requires !IsVal(a.nodes, p) && !IsVal(a.nodes, q) && a.nodes[p].level == a.nodes[q].level
    ensures Evolved(a, rk, a2, rk2)
    ensures o.Ok? ==>
      |a2.stack| == |a.stack| + 4 && AtMost(a2, rk2, ac, a.nodes[p].level as int) &&
      AtMost(a2, rk2, ad, a.nodes[p].level as int) && AtMost(a2, rk2, bc, a.nodes[p].level as int) &&
      AtMost(a2, rk2, bd, a.nodes[p].level as int - 1)
    decreases fuel, 10
  {
    var lvl: nat := a.nodes[p].level;
    Children(a, rk, p);
    Children(a, rk, q);
    var pl: nat, ph: nat, ql: nat, qh: nat := a.nodes[p].lo, a.nodes[p].hi, a.nodes[q].lo, a.nodes[q].hi;
    var a1, rk1, o1, r1, r2 := PushTwoProducts(a, rk, ph, qh, lvl, ph, ql, lvl, fuel);
    if !o1.Ok? {
      return a1, rk1, o1, 0, 0, 0, 0;
    }
    StillAtMost(a, rk, a1, rk1, pl, lvl);
    StillAtMost(a, rk, a1, rk1, pl, lvl as int - 1);
    StillAtMost(a, rk, a1, rk1, qh, lvl);
    StillAtMost(a, rk, a1, rk1, ql, lvl as int - 1);
    ac, ad := r1, r2;
    EvolvedFrame(a, rk, a1, rk1);
    a2, rk2, o, bc, bd := PushTwoProducts(a1, rk1, pl, qh, lvl, pl, ql, lvl as int - 1, fuel);
    EvolvedTrans(a, rk, a1, rk1, a2, rk2);
    if !o.Ok? {
      return;
    }
    StillAtMost(a1, rk1, a2, rk2, ac, lvl);
    StillAtMost(a1, rk1, a2, rk2, ad, lvl);
  }

  /** Multiplication of two polynomials with the same top level `x`, for
      `p = x*a + b` and `q = x*c + d`: `x*(x*ac + (ad + bc)) + bd`, where a
      sum `n = ad + bc` that itself has top level `x` is split once more. */
  method MulSame(a: Arena, ghost rk: seq<nat>, p: nat, q: nat, fuel: nat) returns (a2: Arena, ghost rk2: seq<nat>, o: Outcome)
    requires Valid(a, rk) && Guarded(a, rk, p) && Guarded(a, rk, q) && p < |a.nodes| && q < |a.nodes|
    requires !IsVal(a.nodes, p) && !IsVal(a.nodes, q) && a.nodes[p].level == a.nodes[q].level
    ensures Applied(a, rk, MulOp, p, q, a2, rk2, o)
    decreases fuel, 11
  {
    var lvl: nat := a.nodes[p].level;
    var a1, rk1, o1, ac, ad, bc, bd := MulProducts(a, rk, p, q, fuel);
    if !o1.Ok? {
      Failed(a, rk, MulOp, p, q, a1, rk1, o1);
      return a1, rk1, o1;
    }
    EvolvedFrame(a, rk, a1, rk1);
    var a3, rk3, o3 := PushApply(a1, rk1, ad, bc, AddOp, lvl, fuel);
    EvolvedTrans(a, rk, a1, rk1, a3, rk3);
    if !o3.Ok? {
      Failed(a, rk, MulOp, p, q, a3, rk3, o3);
      return a3, rk3, o3;
    }
    StillAtMost(a1, rk1, a3, rk3, ac, lvl);
    StillAtMost(a1, rk1, a3, rk3, bd, lvl as int - 1);
    var n: nat := o3.id;
    AtMostFacts(a3, rk3, n, lvl);
    if !IsVal(a3.nodes, n) && a3.nodes[n].level == lvl {
      a2, rk2, o := MulSplit(a, rk, p, q, a3, rk3, ac, bd, n, fuel);
    } else {
      Lower(a3, rk3, n, lvl);
      a2, rk2, o := MulJoin(a, rk, p, q, a3, rk3, ac, bd, n);
    }
  }

  /** The end of `MulSame` for a sum `n = x*e + f` at the top level:
      `x*(x*(ac + e) + f) + bd`. */
  method MulSplit(a: Arena, ghost rk: seq<nat>, p: nat, q: nat, a1: Arena, ghost rk1: seq<nat>, ac: nat, bd: nat, n: nat, fuel: nat)
    returns (a2: Arena, ghost rk2: seq<nat>, o: Outcome)
    requires Valid(a, rk) && Guarded(a, rk, p) && Guarded(a, rk, q) && p < |a.nodes| && !IsVal(a.nodes, p)
    requires Evolved(a, rk, a1, rk1) && |a1.stack| == |a.stack| + 5
    requires AtMost(a1, rk1, ac, a.nodes[p].level as int) && AtMost(a1, rk1, bd, a.nodes[p].level as int - 1)
    requires AtMost(a1, rk1, n, a.nodes[p].level as int) && n < |a1.nodes| && !IsVal(a1.nodes, n)
    requires a1.nodes[n].level == a.nodes[p].level
    ensures Applied(a, rk, MulOp, p, q, a2, rk2, o)
    decreases fuel, 10
  {
    var lvl: nat := a.nodes[p].level;
    LevelInRange(a, rk, p);
    EvolvedFrame(a, rk, a1, rk1);
    AtMostFacts(a1, rk1, n, lvl);
    Children(a1, rk1, n);
    var e: nat, f: nat := a1.nodes[n].hi, a1.nodes[n].lo;
    var a4, rk4, o4 := PushApply(a1, rk1, ac, e, AddOp, lvl, fuel);
    EvolvedTrans(a, rk, a1, rk1, a4, rk4);
    if !o4.Ok? {
      Failed(a, rk, MulOp, p, q, a4, rk4, o4);
      return a4, rk4, o4;
    }
    StillAtMost(a1, rk1, a4, rk4, f, lvl as int - 1);
    StillAtMost(a1, rk1, a4, rk4, bd, lvl as int - 1);
    EvolvedFrame(a, rk, a4, rk4);
    var a5, rk5, o5 := PushMake(a4, rk4, lvl, f, o4.id);
    EvolvedTrans(a, rk, a4, rk4, a5, rk5);
    if !o5.Ok? {
      Failed(a, rk, MulOp, p, q, a5, rk5, o5);
      return a5, rk5, o5;
    }
    StillAtMost(a4, rk4, a5, rk5, bd, lvl as int - 1);
    a2, rk2, o := MakeAndPop(a, rk, MulOp, p, q, a5, rk5, bd, o5.id, 7);
  }

  /** The end of `MulSame` for a sum `n` below the top level: `x*(x*ac + n) + bd`. */
  method MulJoin(a: Arena, ghost rk: seq<nat>, p: nat, q: nat, a1: Arena, ghost rk1: seq<nat>, ac: nat, bd: nat, n: nat)
    returns (a2: Arena, ghost rk2: seq<nat>, o: Outcome)
    requires Valid(a, rk) && Guarded(a, rk, p) && Guarded(a, rk, q) && p < |a.nodes| && !IsVal(a.nodes, p)
    requires Evolved(a, rk, a1, rk1) && |a1.stack| == |a.stack| + 5
    requires AtMost(a1, rk1, ac, a.nodes[p].level as int) && AtMost(a1, rk1, bd, a.nodes[p].level as int - 1)
    requires AtMost(a1, rk1, n, a.nodes[p].level as int - 1)
    ensures Applied(a, rk, MulOp, p, q, a2, rk2, o)
  {
    var lvl: nat := a.nodes[p].level;
    LevelInRange(a, rk, p);
    EvolvedFrame(a, rk, a1, rk1);
    var a3, rk3, o3 := PushMake(a1, rk1, lvl, n, ac);
    EvolvedTrans(a, rk, a1, rk1, a3, rk3);
    if !o3.Ok? {
      Failed(a, rk, MulOp, p, q, a3, rk3, o3);
      return a3, rk3, o3;
    }
    StillAtMost(a1, rk1, a3, rk3, bd, lvl as int - 1);
    a2, rk2, o := MakeAndPop(a, rk, MulOp, p, q, a3, rk3, bd, o3.id, 6);
  }

  /** Multiplication under mod-2 semantics of two polynomials with the
      same top level `x`, for `p = x*a + b` and `q = x*c + d`:
      `x*((a + b)*(c + d) + bd) + bd`, with `bd` the product pushed first. */
  method MulMod2(a: Arena, ghost rk: seq<nat>, p: nat, q: nat, fuel: nat) returns (a2: Arena, ghost rk2: seq<nat>, o: Outcome)
    requires Valid(a, rk) && Guarded(a, rk, p) && Guarded(a, rk, q) && p < |a.nodes| && q < |a.nodes|
    requires !IsVal(a.nodes, p) && !IsVal(a.nodes, q) && a.nodes[p].level == a.nodes[q].level
    ensures Applied(a, rk, MulOp, p, q, a2, rk2, o)
    decreases fuel, 11
  {
    var lvl: nat := a.nodes[p].level;
    Children(a, rk, p);
    Children(a, rk, q);
    var pl: nat, ph: nat, ql: nat := a.nodes[p].lo, a.nodes[p].hi, a.nodes[q].lo;
    var a1, rk1, o1 := PushApply(a, rk, pl, ql, MulOp, lvl as int - 1, fuel);
    if !o1.Ok? {
      Failed(a, rk, MulOp, p, q, a1, rk1, o1);
      return a1, rk1, o1;
    }
    var bd: nat := Read(a1, 1);
    StillAtMost(a, rk, a1, rk1, ph, lvl);
    StillAtMost(a, rk, a1, rk1, pl, lvl);
    EvolvedFrame(a, rk, a1, rk1);
    var a3, rk3, o3 := PushApply(a1, rk1, ph, pl, AddOp, lvl, fuel);
    EvolvedTrans(a, rk, a1, rk1, a3, rk3);
    if !o3.Ok? {
      Failed(a, rk, MulOp, p, q, a3, rk3, o3);
      return a3, rk3, o3;
    }
    StillAtMost(a1, rk1, a3, rk3, bd, lvl as int - 1);
    a2, rk2, o := MulMod2Tail(a, rk, p, q, a3, rk3, bd, o3.id, fuel);
  }

  /** `MulMod2` with `bd` and `a + b` pushed: `c + d` and `(c + d)*(a + b)`. */
  method MulMod2Tail(a: Arena, ghost rk: seq<nat>, p: nat, q: nat, a1: Arena, ghost rk1: seq<nat>, bd: nat, sab: nat, fuel: nat)
    returns (a2: Arena, ghost rk2: seq<nat>, o: Outcome)
    requires Valid(a, rk) && Guarded(a, rk, p) && Guarded(a, rk, q) && p < |a.nodes| && q < |a.nodes|
    requires !IsVal(a.nodes, p) && !IsVal(a.nodes, q) && a.nodes[p].level == a.nodes[q].level
    requires Evolved(a, rk, a1, rk1) && |a1.stack| == |a.stack| + 2
    requires AtMost(a1, rk1, bd, a.nodes[p].level as int - 1) && AtMost(a1, rk1, sab, a.nodes[p].level as int)
    ensures Applied(a, rk, MulOp, p, q, a2, rk2, o)
    decreases fuel, 10
  {
    var lvl: nat := a.nodes[p].level;
    Children(a, rk, q);
    var ql: nat, qh: nat := a.nodes[q].lo, a.nodes[q].hi;
    StillAtMost(a, rk, a1, rk1, qh, lvl);
    StillAtMost(a, rk, a1, rk1, ql, lvl);
    EvolvedFrame(a, rk, a1, rk1);
    var a3, rk3, o3 := PushApply(a1, rk1, qh, ql, AddOp, lvl, fuel);
    EvolvedTrans(a, rk, a1, rk1, a3, rk3);
    if !o3.Ok? {
      Failed(a, rk, MulOp, p, q, a3, rk3, o3);
      return a3, rk3, o3;
    }
    StillAtMost(a1, rk1, a3, rk3, sab, lvl);
    StillAtMost(a1, rk1, a3, rk3, bd, lvl as int - 1);
    EvolvedFrame(a, rk, a3, rk3);
    var a4, rk4, o4 := PushApply(a3, rk3, o3.id, sab, MulOp, lvl, fuel);
    EvolvedTrans(a, rk, a3, rk3, a4, rk4);
    if !o4.Ok? {
      Failed(a, rk, MulOp, p, q, a4, rk4, o4);
      return a4, rk4, o4;
    }
    StillAtMost(a3, rk3, a4, rk4, bd, lvl as int - 1);
    a2, rk2, o := MulMod2End(a, rk, p, q, a4, rk4, bd, o4.id, fuel);
  }

  /** The end of `MulMod2`: `push((c + d)*(a + b) + bd)` and the node `x*that + bd`. */
  method MulMod2End(a: Arena, ghost rk: seq<nat>, p: nat, q: nat, a1: Arena, ghost rk1: seq<nat>, bd: nat, m: nat, fuel: nat)
    returns (a2: Arena, ghost rk2: seq<nat>, o: Outcome)
    requires Valid(a, rk) && Guarded(a, rk, p) && Guarded(a, rk, q) && p < |a.nodes| && !IsVal(a.nodes, p)
    requires Evolved(a, rk, a1, rk1) && |a1.stack| == |a.stack| + 4
    requires AtMost(a1, rk1, bd, a.nodes[p].level as int - 1) && AtMost(a1, rk1, m, a.nodes[p].level as int)
    ensures Applied(a, rk, MulOp, p, q, a2, rk2, o)
    decreases fuel, 9
  {
    var lvl: nat := a.nodes[p].level;
    EvolvedFrame(a, rk, a1, rk1);
    AtMostWeaken(a1, rk1, bd, lvl as int - 1);
    var a3, rk3, o3 := PushApply(a1, rk1, m, bd, AddOp, lvl, fuel);
    EvolvedTrans(a, rk, a1, rk1, a3, rk3);
    if !o3.Ok? {
      Failed(a, rk, MulOp, p, q, a3, rk3, o3);
      return a3, rk3, o3;
    }
    StillAtMost(a1, rk1, a3, rk3, bd, lvl as int - 1);
    a2, rk2, o := MakeAndPop(a, rk, MulOp, p, q, a3, rk3, bd, o3.id, 5);
  }

  /** The source takes `bd` as `read(3)` right after pushing `lo(p)*lo(q)`:
      the entry two places below that product, which belongs to an enclosing
      computation, or lies outside the stack when the product is alone on it. */
  function Mod2BdAsWritten(a1: Arena): nat
    requires |a1.stack| >= 3
  {
    Read(a1, 3)
  }

  /** On any stack with at least two entries before the push, the value read
      back is the caller's entry two below the top, not the product `ac`
      (unless they happen to coincide); with fewer than two entries there is
      no third one to read. */
  lemma Mod2BdAsWrittenWrong(a: Arena, ac: nat)
    ensures |a.stack| >= 2 ==> Mod2BdAsWritten(Push(a, ac)) == a.stack[|a.stack| - 2]
    ensures |a.stack| >= 2 && a.stack[|a.stack| - 2] != ac ==> Mod2BdAsWritten(Push(a, ac)) != ac
    ensures |a.stack| < 2 ==> |Push(a, ac).stack| < 3
  {
  }

  /** A concrete case of the harm: nodes 2 and 3 are the variables at levels
      0 and 1, and an enclosing computation has left `[x1, x0]` on the stack
      when a mod-2 product of two polynomials at level 1 starts. `bd` is then
      `x1`, whose level is not below 1, so `make_node(1, bd, x0)` violates
      `MakeNode`'s precondition and the node it would build breaks the
      level order. */
  lemma Mod2BdAsWrittenExample(a: Arena, ac: nat)
    ensures var b := a.(nodes := [Node(MaxRc, 0, 0, 0, 0), Node(MaxRc, 0, 1, 0, 1), Node(0, 0, 0, 1, 2), Node(0, 1, 0, 1, 3)],
                        stack := [3, 2]);
      var bd := Mod2BdAsWritten(Push(b, ac));
      bd == 3 && Live(b.nodes, bd) && Live(b.nodes, 2) && !(Top(b.nodes, bd) < 1) &&
      !WellFormedNode(b.nodes, InnerNode(1, bd, 2))
  {
  }

  // ------------------------------------------------------------ apply

  /** `try_gc` inside an operation: everything protected survives. */
  method GcStep(a: Arena, ghost rk: seq<nat>) returns (a2: Arena, ghost rk2: seq<nat>)
    requires Valid(a, rk)
    ensures Evolved(a, rk, a2, rk2) && a2.stack == a.stack && a2.cache == map[]
  {
    a2, rk2 := TryGc(a, rk);
    GcStepOk(a, rk, a2, rk2);
  }

  /** `apply(p, q, op)`: `apply_rec` in a scope that restores the stack on
      exit; when the arena is exhausted, `try_gc` and one more attempt on
      the stack as the first attempt left it, and a second exhaustion
      collects once more and is reported. */
  method Apply(a: Arena, ghost rk: seq<nat>, p: nat, q: nat, op: nat, fuel: nat) returns (a2: Arena, ghost rk2: seq<nat>, o: Outcome)
    requires Valid(a, rk) && Guarded(a, rk, p) && Guarded(a, rk, q) && IsApplyOp(op)
    ensures Applied(a, rk, op, p, q, a2, rk2, o) && a2.stack == a.stack
    ensures o.MemOut? ==> a2.cache == map[]
    ensures o.Ok? && op == ReduceOp ==> ReducedBy(a2.nodes, rk2, q, o.id)
    decreases fuel, 5
  {
    var a1, rk1, o1 := ApplyRec(a, rk, p, q, op, fuel);
    AppliedAnswer(a, rk, op, p, q, a1, rk1, o1);
    if o1.MemOut? {
      a1, rk1, o1 := Retry(a, rk, p, q, op, a1, rk1, fuel);
    }
    a2, rk2, o := Scoped(a, rk, op, p, q, a1, rk1, o1);
  }

  /** The second attempt of `apply` after an exhausted arena. */
  method Retry(a: Arena, ghost rk: seq<nat>, p: nat, q: nat, op: nat, a1: Arena, ghost rk1: seq<nat>, fuel: nat)
    returns (a2: Arena, ghost rk2: seq<nat>, o: Outcome)
    requires Valid(a, rk) && Guarded(a, rk, p) && Guarded(a, rk, q) && IsApplyOp(op) && Evolved(a, rk, a1, rk1)
    ensures Evolved(a, rk, a2, rk2) && Answer(a2.nodes, rk2, op, p, q, o)
    ensures o.MemOut? ==> a2.cache == map[]
    decreases fuel, 4
  {
    EvolvedFrame(a, rk, a1, rk1);
    var a3, rk3 := GcStep(a1, rk1);
    EvolvedTrans(a, rk, a1, rk1, a3, rk3);
    StillGuarded(a, rk, a3, rk3, p);
    StillGuarded(a, rk, a3, rk3, q);
    EvolvedFrame(a, rk, a3, rk3);
    var a4, rk4, o4 := ApplyRec(a3, rk3, p, q, op, fuel);
    AppliedAnswer(a3, rk3, op, p, q, a4, rk4, o4);
    EvolvedTrans(a, rk, a3, rk3, a4, rk4);
    if o4.MemOut? {
      EvolvedFrame(a, rk, a4, rk4);
      var a5, rk5 := GcStep(a4, rk4);
      EvolvedTrans(a, rk, a4, rk4, a5, rk5);
      return a5, rk5, o4;
    }
    return a4, rk4, o4;
  }

  /** The end of `apply`'s scope: the stack as it was. */
  method Scoped(a: Arena, ghost rk: seq<nat>, op: nat, p: nat, q: nat, a1: Arena, ghost rk1: seq<nat>, o1: Outcome)
    returns (a2: Arena, ghost rk2: seq<nat>, o: Outcome)
    requires Valid(a, rk) && Evolved(a, rk, a1, rk1) && Answer(a1.nodes, rk1, op, p, q, o1)
    ensures Applied(a, rk, op, p, q, a2, rk2, o) && a2.stack == a.stack && o == o1
    ensures a2 == a1.(stack := a.stack) && rk2 == rk1
  {
    Restored(a, rk, a1, rk1);
    a2, rk2, o := a1.(stack := a.stack), rk1, o1;
  }

  // ------------------------------------------------------------ reduction on a common top level

  /** `lt_quotient(p, q)`: minus the quotient of the leading term of `q` by
      that of `p`, built as the product of the variables of `q`'s leading
      monomial that `p`'s lacks and of `-val(q)/val(p)` at the bottom. A zero
      divisor is a failed assertion. */
  method LtQuotient(a: Arena, ghost rk: seq<nat>, p: nat, q: nat, fuel: nat) returns (a2: Arena, ghost rk2: seq<nat>, o: Outcome)
    requires Valid(a, rk) && Guarded(a, rk, p) && Guarded(a, rk, q)
    requires Ranked(a.nodes, rk) && p < |a.nodes| && q < |a.nodes| && LmDivides(a.nodes, rk, p, q)
    ensures Evolved(a, rk, a2, rk2)
    ensures o.Ok? ==> a2.stack == a.stack && Live(a2.nodes, o.id) && Top(a2.nodes, o.id) <= Top(a.nodes, q)
    ensures IsVal(a.nodes, p) && IsVal(a.nodes, q) ==>
      a.nodes[p].lo < |a.values| && a.nodes[q].lo < |a.values| &&
      var vp, vq := ValOf(a.nodes, a.values, p), ValOf(a.nodes, a.values, q);
      (vp == 0.0 ==> o == Fault) &&
      (vp != 0.0 ==>
        (o.Fault? <==> a.mod2 && !IsIntegral(MinusQuotient(vp, vq))) &&
        (o.Ok? ==> o.id < |a2.nodes| && IsValNode(a2.nodes[o.id]) && a2.nodes[o.id].lo < |a2.values| &&
                   ValOf(a2.nodes, a2.values, o.id) == Normalized(a.mod2, MinusQuotient(vp, vq))))
    decreases fuel, 6, rk[p] + rk[q], 1
  {
    ValueNodeValue(a, rk, p);
    ValueNodeValue(a, rk, q);
    if IsVal(a.nodes, p) && IsVal(a.nodes, q) {
      a2, rk2, o := LtQuotientVal(a, rk, p, q);
      return;
    }
    LmDividesVal(a.nodes, rk, p, q);
    RankDrops(a, rk, q);
    if !IsVal(a.nodes, p) && a.nodes[p].level == a.nodes[q].level {
      a2, rk2, o := LtQuotientHi(a, rk, p, q, fuel);
      return;
    }
    a2, rk2, o := LtQuotientVar(a, rk, p, q, fuel);
  }

  /** The coefficient `lt_quotient` gives for two values. */
  function MinusQuotient(vp: real, vq: real): real
    requires vp != 0.0
  {
    -vq / vp
  }

  /** `lt_quotient` of two values: `-val(q)/val(p)`, and a zero divisor is a failed assertion. */
  method LtQuotientVal(a: Arena, ghost rk: seq<nat>, p: nat, q: nat) returns (a2: Arena, ghost rk2: seq<nat>, o: Outcome)
    requires Valid(a, rk) && Guarded(a, rk, p) && Guarded(a, rk, q) && p < |a.nodes| && q < |a.nodes|
    requires IsVal(a.nodes, p) && IsVal(a.nodes, q) && a.nodes[p].lo < |a.values| && a.nodes[q].lo < |a.values|
    ensures Evolved(a, rk, a2, rk2)
    ensures o.Ok? ==> a2.stack == a.stack && Live(a2.nodes, o.id) && Top(a2.nodes, o.id) <= Top(a.nodes, q)
    ensures var vp, vq := ValOf(a.nodes, a.values, p), ValOf(a.nodes, a.values, q);
      (vp == 0.0 ==> o == Fault) &&
      (vp != 0.0 ==>
        (o.Fault? <==> a.mod2 && !IsIntegral(MinusQuotient(vp, vq))) &&
        (o.Ok? ==> o.id < |a2.nodes| && IsValNode(a2.nodes[o.id]) && a2.nodes[o.id].lo < |a2.values| &&
                   ValOf(a2.nodes, a2.values, o.id) == Normalized(a.mod2, MinusQuotient(vp, vq))))
  {
    var vp, vq := ValOf(a.nodes, a.values, p), ValOf(a.nodes, a.values, q);
    if vp == 0.0 {
      EvolvedRefl(a, rk);
      return a, rk, Fault;
    }
    a2, rk2, o := ValueStep(a, rk, NoOp, p, q, MinusQuotient(vp, vq));
    AppliedAnswer(a, rk, NoOp, p, q, a2, rk2, o);
  }

  /** `lt_quotient` at a common top level: `lt_quotient(hi(p), hi(q))`. */
  method LtQuotientHi(a: Arena, ghost rk: seq<nat>, p: nat, q: nat, fuel: nat) returns (a2: Arena, ghost rk2: seq<nat>, o: Outcome)
    requires Valid(a, rk) && Guarded(a, rk, p) && Guarded(a, rk, q)
    requires Ranked(a.nodes, rk) && p < |a.nodes| && q < |a.nodes| && !IsVal(a.nodes, p) && !IsVal(a.nodes, q)
    requires a.nodes[p].level == a.nodes[q].level && LmDivides(a.nodes, rk, a.nodes[p].hi, a.nodes[q].hi)
    ensures Evolved(a, rk, a2, rk2)
    ensures o.Ok? ==> a2.stack == a.stack && Live(a2.nodes, o.id) && Top(a2.nodes, o.id) <= Top(a.nodes, q)
    decreases fuel, 6, rk[p] + rk[q], 0
  {
    ChildrenGuarded(a, rk, p);
    ChildrenGuarded(a, rk, q);
    RankDrops(a, rk, p);
    RankDrops(a, rk, q);
    GuardedLive(a, rk, a.nodes[p].hi);
    GuardedLive(a, rk, a.nodes[q].hi);
    a2, rk2, o := LtQuotient(a, rk, a.nodes[p].hi, a.nodes[q].hi, fuel);
  }

  /** Past its value case, `lm_divides(p, q)` needs `q` to be a polynomial,
      and it continues on the `hi` children. */
  lemma LmDividesVal(ns: seq<Node>, rk: seq<nat>, p: nat, q: nat)
    requires Ranked(ns, rk) && p < |ns| && q < |ns| && LmDivides(ns, rk, p, q) && !(IsVal(ns, p) && IsVal(ns, q))
    ensures !IsVal(ns, q) && ns[q].hi < |ns|
    ensures !IsVal(ns, p) ==> ns[p].level <= ns[q].level && ns[p].hi < |ns|
    ensures !IsVal(ns, p) && ns[p].level == ns[q].level ==> LmDivides(ns, rk, ns[p].hi, ns[q].hi)
    ensures IsVal(ns, p) || ns[p].level < ns[q].level ==> LmDivides(ns, rk, p, ns[q].hi)
  {
  }

  /** The last case of `lt_quotient`: the variable of `q`'s top level times
      `lt_quotient(p, hi(q))`. */
  method LtQuotientVar(a: Arena, ghost rk: seq<nat>, p: nat, q: nat, fuel: nat) returns (a2: Arena, ghost rk2: seq<nat>, o: Outcome)
    requires Valid(a, rk) && Guarded(a, rk, p) && Guarded(a, rk, q)
    requires Ranked(a.nodes, rk) && p < |a.nodes| && q < |a.nodes| && !IsVal(a.nodes, q)
    requires LmDivides(a.nodes, rk, p, a.nodes[q].hi)
    ensures Evolved(a, rk, a2, rk2)
    ensures o.Ok? ==> a2.stack == a.stack && Live(a2.nodes, o.id) && Top(a2.nodes, o.id) <= Top(a.nodes, q)
    decreases fuel, 6, rk[p] + rk[q], 0
  {
    var lvl: nat := a.nodes[q].level;
    ChildrenGuarded(a, rk, q);
    RankDrops(a, rk, q);
    var h: nat := a.nodes[q].hi;
    var a1, rk1, o1 := LtQuotient(a, rk, p, h, fuel);
    if !o1.Ok? {
      return a1, rk1, o1;
    }
    a2, rk2, o := VarTimes(a, rk, q, a1, rk1, o1.id, fuel);
  }

  /** `pdd v = mk_var(var(level(q)))`, then `apply(v, x, mul)` with `x`
      pushed. */
  method VarTimes(a: Arena, ghost rk: seq<nat>, q: nat, a1: Arena, ghost rk1: seq<nat>, x: nat, fuel: nat)
    returns (a2: Arena, ghost rk2: seq<nat>, o: Outcome)
    requires Valid(a, rk) && Guarded(a, rk, q) && q < |a.nodes| && !IsVal(a.nodes, q)
    requires Evolved(a, rk, a1, rk1) && a1.stack == a.stack && Live(a1.nodes, x) && Top(a1.nodes, x) <= a.nodes[q].level as int
    ensures Evolved(a, rk, a2, rk2)
    ensures o.Ok? ==> a2.stack == a.stack && Live(a2.nodes, o.id) && Top(a2.nodes, o.id) <= Top(a.nodes, q)
    decreases fuel, 6, 0, 1
  {
    var lvl: nat := a.nodes[q].level;
    var o1 := Ok(x);
    LevelInRange(a, rk, q);
    EvolvedFrame(a, rk, a1, rk1);
    PushAtMost(a1, rk1, o1.id, lvl);
    var a3 := Push(a1, o1.id);
    EvolvedTrans(a, rk, a1, rk1, a3, rk1);
    EvolvedFrame(a, rk, a3, rk1);
    VarGuarded(a3, rk1, lvl);
    var v: nat := a3.v2p[a3.l2v[lvl]];
    a2, rk2, o := MulRestored(a, rk, a3, rk1, v, o1.id, lvl, fuel);
  }

  /** `apply(v, x, mul)` for operands at most at level `b`, then the stack
      of `a` restored. */
  method MulRestored(a: Arena, ghost rk: seq<nat>, a3: Arena, ghost rk3: seq<nat>, v: nat, x: nat, b: int, fuel: nat)
    returns (a2: Arena, ghost rk2: seq<nat>, o: Outcome)
    requires Valid(a, rk) && Evolved(a, rk, a3, rk3) && AtMost(a3, rk3, v, b) && AtMost(a3, rk3, x, b)
    ensures Evolved(a, rk, a2, rk2)
    ensures o.Ok? ==> a2.stack == a.stack && Live(a2.nodes, o.id) && Top(a2.nodes, o.id) <= b
    decreases fuel, 6, 0, 0
  {
    EvolvedFrame(a, rk, a3, rk3);
    AtMostFacts(a3, rk3, v, b);
    AtMostFacts(a3, rk3, x, b);
    var a4, rk4, o4 := Apply(a3, rk3, v, x, MulOp, fuel);
    if !o4.Ok? {
      EvolvedTrans(a, rk, a3, rk3, a4, rk4);
      return a4, rk4, o4;
    }
    AppliedBound(a3, rk3, MulOp, v, x, a4, rk4, o4, b);
    EvolvedTrans(a, rk, a3, rk3, a4, rk4);
    Restored(a, rk, a4, rk4);
    a2, rk2, o := a4.(stack := a.stack), rk4, o4;
  }

  /** `reduce_on_match(p, q)` for `p` and `q` with the same top level: while
      the leading monomial of `q` divides that of the current polynomial,
      the matching multiple of `q` is subtracted. The result's leading
      monomial is not divisible by that of `q`. A value `q` fails the
      opening assertion. The current polynomial is kept on the stack. */
  method ReduceOnMatch(a: Arena, ghost rk: seq<nat>, p: nat, q: nat, fuel: nat) returns (a2: Arena, ghost rk2: seq<nat>, o: Outcome)
    requires Valid(a, rk) && Guarded(a, rk, p) && Guarded(a, rk, q) && p < |a.nodes| && q < |a.nodes|
    requires !IsVal(a.nodes, p) && a.nodes[p].level == a.nodes[q].level
    ensures Applied(a, rk, ReduceOp, p, q, a2, rk2, o)
    ensures IsVal(a.nodes, q) ==> o == Fault
    ensures o.Ok? ==> Ranked(a2.nodes, rk2) && o.id < |a2.nodes| && q < |a2.nodes| && !LmDivides(a2.nodes, rk2, q, o.id)
    decreases fuel, 11
  {
    if IsVal(a.nodes, q) {
      EvolvedRefl(a, rk);
      Failed(a, rk, ReduceOp, p, q, a, rk, Fault);
      return a, rk, Fault;
    }
    var lvl: nat := a.nodes[p].level;
    Operand(a, rk, q, lvl);
    GuardedLive(a, rk, p);
    PushAtMost(a, rk, p, lvl);
    var s := Push(a, p);
    ghost var rs := rk;
    var cur: nat := p;
    var f: nat := fuel;
    while true
      invariant Evolved(a, rk, s, rs) && s.stack == a.stack + [cur] && AtMost(s, rs, cur, lvl)
      invariant f <= fuel
      decreases f
    {
      StillAtMost(a, rk, s, rs, q, lvl);
      AtMostFacts(s, rs, q, lvl);
      AtMostFacts(s, rs, cur, lvl);
      GuardedLive(s, rs, q);
      var d := PddQuery.LmDividesLoop(s.nodes, rs, q, cur);
      if !d {
        a2, rk2, o := ReduceDone(a, rk, p, q, s, rs, cur, lvl);
        return;
      }
      if f == 0 {
        Failed(a, rk, ReduceOp, p, q, s, rs, OutOfFuel);
        return s, rs, OutOfFuel;
      }
      f := f - 1;
      EvolvedFrame(a, rk, s, rs);
      var s2, rs2, o2 := ReduceStep(s, rs, q, cur, lvl, f);
      EvolvedTrans(a, rk, s, rs, s2, rs2);
      if !o2.Ok? {
        Failed(a, rk, ReduceOp, p, q, s2, rs2, o2);
        return s2, rs2, o2;
      }
      Replaced(a, rk, s2, rs2, o2.id, lvl);
      s, rs, cur := s2.(stack := a.stack + [o2.id]), rs2, o2.id;
    }
  }

  /** The end of `reduce_on_match`: the current polynomial, the stack as it was. */
  method ReduceDone(a: Arena, ghost rk: seq<nat>, p: nat, q: nat, s: Arena, ghost rs: seq<nat>, cur: nat, lvl: nat)
    returns (a2: Arena, ghost rk2: seq<nat>, o: Outcome)
    requires Valid(a, rk) && Guarded(a, rk, p) && Guarded(a, rk, q) && p < |a.nodes| && !IsVal(a.nodes, p)
    requires lvl == a.nodes[p].level
    requires Evolved(a, rk, s, rs) && AtMost(s, rs, cur, lvl)
    requires Ranked(s.nodes, rs) && cur < |s.nodes| && q < |s.nodes| && !LmDivides(s.nodes, rs, q, cur)
    ensures Applied(a, rk, ReduceOp, p, q, a2, rk2, o) && o == Ok(cur)
    ensures Ranked(a2.nodes, rk2) && cur < |a2.nodes| && q < |a2.nodes| && !LmDivides(a2.nodes, rk2, q, cur)
  {
    AtMostFacts(s, rs, cur, lvl);
    Restored(a, rk, s, rs);
    StillGuarded(a, rk, s, rs, p);
    StillGuarded(a, rk, s, rs, q);
    CloseOk(a, rk, ReduceOp, p, q, s.(stack := a.stack), rs, cur);
    a2, rk2, o := s.(stack := a.stack), rs, Ok(cur);
  }

  /** One round of `reduce_on_match` on the current polynomial `cur`:
      `q' = lt_quotient(q, cur)`, pushed, then the rest in `ReduceAdd`. */
  method ReduceStep(a: Arena, ghost rk: seq<nat>, q: nat, cur: nat, lvl: nat, fuel: nat) returns (a2: Arena, ghost rk2: seq<nat>, o: Outcome)
    requires Valid(a, rk) && AtMost(a, rk, q, lvl) && AtMost(a, rk, cur, lvl)
    requires Ranked(a.nodes, rk) && q < |a.nodes| && cur < |a.nodes| && LmDivides(a.nodes, rk, q, cur)
    ensures Evolved(a, rk, a2, rk2)
    ensures o.Ok? ==> a2.stack == a.stack && Live(a2.nodes, o.id) && Top(a2.nodes, o.id) <= lvl as int
    decreases fuel, 8
  {
    AtMostFacts(a, rk, q, lvl);
    AtMostFacts(a, rk, cur, lvl);
    var a1, rk1, o1 := LtQuotient(a, rk, q, cur, fuel);
    if !o1.Ok? {
      return a1, rk1, o1;
    }
    StillAtMost(a, rk, a1, rk1, q, lvl);
    StillAtMost(a, rk, a1, rk1, cur, lvl);
    EvolvedFrame(a, rk, a1, rk1);
    PushAtMost(a1, rk1, o1.id, lvl);
    var a3 := Push(a1, o1.id);
    EvolvedTrans(a, rk, a1, rk1, a3, rk1);
    StillAtMost(a1, rk1, a3, rk1, q, lvl);
    StillAtMost(a1, rk1, a3, rk1, cur, lvl);
    a2, rk2, o := ReduceAdd(a, rk, a3, rk1, q, cur, o1.id, lvl, fuel);
  }

  /** The rest of a round: `r = q' * q`, pushed, then `cur + r`; the two
      protecting entries are dropped again. */
  method ReduceAdd(a: Arena, ghost rk: seq<nat>, a1: Arena, ghost rk1: seq<nat>, q: nat, cur: nat, t: nat, lvl: nat, fuel: nat)
    returns (a2: Arena, ghost rk2: seq<nat>, o: Outcome)
    requires Valid(a, rk) && Evolved(a, rk, a1, rk1) && |a1.stack| == |a.stack| + 1
    requires AtMost(a1, rk1, q, lvl) && AtMost(a1, rk1, cur, lvl) && AtMost(a1, rk1, t, lvl)
    ensures Evolved(a, rk, a2, rk2)
    ensures o.Ok? ==> a2.stack == a.stack && Live(a2.nodes, o.id) && Top(a2.nodes, o.id) <= lvl as int
    decreases fuel, 7
  {
    EvolvedFrame(a, rk, a1, rk1);
    AtMostFacts(a1, rk1, q, lvl);
    AtMostFacts(a1, rk1, t, lvl);
    var a4, rk4, o4 := Apply(a1, rk1, t, q, MulOp, fuel);
    EvolvedTrans(a, rk, a1, rk1, a4, rk4);
    if !o4.Ok? {
      return a4, rk4, o4;
    }
    AppliedBound(a1, rk1, MulOp, t, q, a4, rk4, o4, lvl);
    StillAtMost(a1, rk1, a4, rk4, cur, lvl);
    EvolvedFrame(a, rk, a4, rk4);
    PushAtMost(a4, rk4, o4.id, lvl);
    var a5 := Push(a4, o4.id);
    EvolvedTrans(a, rk, a4, rk4, a5, rk4);
    StillAtMost(a4, rk4, a5, rk4, cur, lvl);
    AtMostFacts(a5, rk4, cur, lvl);
    AtMostFacts(a5, rk4, o4.id, lvl);
    EvolvedFrame(a, rk, a5, rk4);
    var a6, rk6, o6 := Apply(a5, rk4, cur, o4.id, AddOp, fuel);
    EvolvedTrans(a, rk, a5, rk4, a6, rk6);
    if !o6.Ok? {
      return a6, rk6, o6;
    }
    AppliedBound(a5, rk4, AddOp, cur, o4.id, a6, rk6, o6, lvl);
    Restored(a, rk, a6, rk6);
    a2, rk2, o := a6.(stack := a.stack), rk6, o6;
  }
}
