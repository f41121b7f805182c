/**
  Node records of the polynomial decision diagram (PDD) manager and the
  graph vocabulary shared by the rest of the model: which ids are values,
  the level ordering of children, acyclicity (a ghost rank that strictly
  drops from a node to its children), and reachability from the roots that
  the garbage collector keeps alive.
 */
module PddNode {

  /** The two reserved node ids: the additive and the multiplicative identity. */
  const ZeroPdd: nat := 0
  const OnePdd: nat := 1

  /** The largest value of the 10-bit reference count; it pins a node for good. */
  const MaxRc: nat := 1023

  /** Hard cap on the node arena: 1 << 24 slots. */
  const MaxNumPddNodes: nat := 0x100_0000

  /** Operation codes used as the third component of an operation-cache key. */
  const AddOp: nat := 2
  const MulOp: nat := 3
  const ReduceOp: nat := 4
  const MinusOp: nat := 5
  const NoOp: nat := 6

  /** A node record: `lo + var(level) * hi` for an internal node; for a value
      node `lo` is an index into the value pool and `hi` is 0. */
  datatype Node = Node(refcount: nat, level: nat, lo: nat, hi: nat, index: nat)

  /** What the unique table hashes and compares: level, lo and hi. */
  datatype Shape = Shape(level: nat, lo: nat, hi: nat)

  /** Key of an operation-cache entry. */
  datatype OpKey = OpKey(p: nat, q: nat, op: nat)

  /** Result slot of an operation-cache entry: `Pending` is the source's
      `null_pdd` placeholder of a computation still on the call stack. */
  datatype Slot = Pending | Done(r: nat)

  /** A prepared operation-cache entry, as handed out by `pop_entry`. */
  datatype OpEntry = OpEntry(key: OpKey, result: Slot)

  /** Value-table payload: where a rational lives in the value pool and which node stands for it. */
  datatype ConstInfo = ConstInfo(valueIndex: nat, nodeIndex: nat)

  /** Outcome of an operation that allocates: a node id, the memory-exhaustion
      failure, a failed internal assertion, or an exhausted recursion budget. */
  datatype Outcome = Ok(id: nat) | MemOut | Fault | OutOfFuel

  datatype Option<T> = None | Some(value: T)

  function ShapeOf(n: Node): Shape { Shape(n.level, n.lo, n.hi) }

  /** `pdd_node(level, lo, hi)`, `pdd_node(value)` and `pdd_node()`. */
  function InnerNode(level: nat, lo: nat, hi: nat): Node { Node(0, level, lo, hi, 0) }
  function ValueNode(vi: nat): Node { Node(0, 0, vi, 0, 0) }
  function BlankNode(): Node { Node(0, 0, 0, 0, 0) }

  predicate IsInternal(n: Node) { n.lo == 0 && n.hi == 0 }
  predicate IsValNode(n: Node) { n.hi == 0 && (n.lo != 0 || n.index == 0) }
  function SetInternal(n: Node): Node { n.(lo := 0, hi := 0) }

  predicate IsVal(ns: seq<Node>, p: nat)
    requires p < |ns|
  {
    IsValNode(ns[p])
  }

  /** An id that denotes a polynomial: a value node or a node with a non-zero `hi`. */
  predicate Live(ns: seq<Node>, p: nat)
  {
    p < |ns| && (IsValNode(ns[p]) || ns[p].hi != 0)
  }

  /** The top level of a polynomial; values sit below every level. */
  function Top(ns: seq<Node>, p: nat): int
    requires p < |ns|
  {
    if IsVal(ns, p) then -1 else ns[p].level
  }

  /** `well_formed(pdd_node const&)`: lo strictly below, hi at most at the node's level. */
  predicate WellFormedNode(ns: seq<Node>, n: Node)
    requires n.hi != 0 ==> n.lo < |ns| && n.hi < |ns|
  {
    if IsInternal(n) || n.hi == 0 then true
    else
      (IsVal(ns, n.lo) || (ns[n.lo].level < n.level && !IsInternal(ns[n.lo]))) &&
      (IsVal(ns, n.hi) || (ns[n.hi].level <= n.level && !IsInternal(ns[n.hi])))
  }

  /** Children of every non-value node are in range and of strictly smaller rank. */
  ghost predicate Ranked(ns: seq<Node>, rank: seq<nat>)
  {
    |rank| == |ns| &&
    forall i | 0 <= i < |ns| && !IsValNode(ns[i]) ::
      ns[i].lo < |ns| && ns[i].hi < |ns| &&
      rank[ns[i].lo] < rank[i] && rank[ns[i].hi] < rank[i]
  }

  /** The node graph is acyclic and every node with a non-zero `hi` is well formed. */
  ghost predicate GraphOk(ns: seq<Node>, rank: seq<nat>)
  {
    Ranked(ns, rank) &&
    forall i | 0 <= i < |ns| && ns[i].hi != 0 :: WellFormedNode(ns, ns[i])
  }

  lemma ChildrenLive(ns: seq<Node>, rank: seq<nat>, p: nat)
    requires GraphOk(ns, rank) && Live(ns, p) && !IsVal(ns, p)
    ensures Live(ns, ns[p].lo) && Live(ns, ns[p].hi)
    ensures Top(ns, ns[p].lo) < ns[p].level && Top(ns, ns[p].hi) <= ns[p].level
    ensures ns[p].hi != ZeroPdd
  {
    assert WellFormedNode(ns, ns[p]);
  }

  /** Ids reachable from `x` as the collector's mark phase walks them. */
  ghost function Reach(ns: seq<Node>, rank: seq<nat>, x: nat): set<nat>
    requires Ranked(ns, rank) && x < |ns|
    decreases rank[x]
  {
    if IsValNode(ns[x]) then {x}
    else {x} + Reach(ns, rank, ns[x].lo) + Reach(ns, rank, ns[x].hi)
  }

  lemma ReachBounded(ns: seq<Node>, rank: seq<nat>, x: nat)
    requires Ranked(ns, rank) && x < |ns|
    ensures forall y | y in Reach(ns, rank, x) :: y < |ns|
    decreases rank[x]
  {
    if !IsValNode(ns[x]) {
      ReachBounded(ns, rank, ns[x].lo);
      ReachBounded(ns, rank, ns[x].hi);
    }
  }

  /** A set is closed when it holds the children of each non-value member. */
  ghost predicate Closed(ns: seq<Node>, s: set<nat>)
  {
    forall y | y in s :: y < |ns| && (!IsValNode(ns[y]) ==> ns[y].lo in s && ns[y].hi in s)
  }

  lemma {:induction false} ReachWithinClosed(ns: seq<Node>, rank: seq<nat>, s: set<nat>, x: nat)
    requires Ranked(ns, rank) && Closed(ns, s) && x in s
    ensures Reach(ns, rank, x) <= s
    decreases rank[x]
  {
    if !IsValNode(ns[x]) {
      ReachWithinClosed(ns, rank, s, ns[x].lo);
      ReachWithinClosed(ns, rank, s, ns[x].hi);
    }
  }

  lemma {:induction false} ReachIsClosed(ns: seq<Node>, rank: seq<nat>, x: nat)
    requires Ranked(ns, rank) && x < |ns|
    ensures Closed(ns, Reach(ns, rank, x))
    decreases rank[x]
  {
    ReachBounded(ns, rank, x);
    if !IsValNode(ns[x]) {
      ReachIsClosed(ns, rank, ns[x].lo);
      ReachIsClosed(ns, rank, ns[x].hi);
    }
  }

  /** Two snapshots agree on a set of ids: same node record and same rank. */
  ghost predicate Agree(s: set<nat>, ns1: seq<Node>, rk1: seq<nat>, ns2: seq<Node>, rk2: seq<nat>)
  {
    forall i | i in s ::
      i < |ns1| && i < |rk1| && i < |ns2| && i < |rk2| && ns2[i] == ns1[i] && rk2[i] == rk1[i]
  }

  lemma {:induction false} ReachAgree(ns1: seq<Node>, rk1: seq<nat>, ns2: seq<Node>, rk2: seq<nat>, x: nat)
    requires Ranked(ns1, rk1) && Ranked(ns2, rk2) && x < |ns1|
    requires Agree(Reach(ns1, rk1, x), ns1, rk1, ns2, rk2)
    ensures x < |ns2| && Reach(ns2, rk2, x) == Reach(ns1, rk1, x)
    decreases rk1[x]
  {
    assert x in Reach(ns1, rk1, x);
    if !IsValNode(ns1[x]) {
      var l, h := ns1[x].lo, ns1[x].hi;
      assert Agree(Reach(ns1, rk1, l), ns1, rk1, ns2, rk2);
      assert Agree(Reach(ns1, rk1, h), ns1, rk1, ns2, rk2);
      ReachAgree(ns1, rk1, ns2, rk2, l);
      ReachAgree(ns1, rk1, ns2, rk2, h);
    }
  }

  /** The collector's roots: every id on the protection stack, and every node
      from index 2 on with a positive reference count. */
  ghost function Roots(ns: seq<Node>, stack: seq<nat>): set<nat>
  {
    (set x | x in stack) + (set i | 2 <= i < |ns| && ns[i].refcount > 0)
  }

  /** Everything reachable from the roots. */
  ghost function Protected(ns: seq<Node>, rank: seq<nat>, stack: seq<nat>): set<nat>
    requires Ranked(ns, rank) && forall k | 0 <= k < |stack| :: stack[k] < |ns|
  {
    set r, y | r in Roots(ns, stack) && y in Reach(ns, rank, r) :: y
  }

  lemma RootsBounded(ns: seq<Node>, stack: seq<nat>)
    requires forall k | 0 <= k < |stack| :: stack[k] < |ns|
    ensures forall r | r in Roots(ns, stack) :: r < |ns|
  {
  }

  lemma ProtectedFacts(ns: seq<Node>, rank: seq<nat>, stack: seq<nat>)
    requires Ranked(ns, rank) && forall k | 0 <= k < |stack| :: stack[k] < |ns|
    ensures Roots(ns, stack) <= Protected(ns, rank, stack)
    ensures Closed(ns, Protected(ns, rank, stack))
  {
    var P := Protected(ns, rank, stack);
    RootsBounded(ns, stack);
    forall r | r in Roots(ns, stack) ensures r in P {
      assert r in Reach(ns, rank, r);
    }
    forall y | y in P ensures y < |ns| && (!IsValNode(ns[y]) ==> ns[y].lo in P && ns[y].hi in P) {
      var r :| r in Roots(ns, stack) && y in Reach(ns, rank, r);
      ReachIsClosed(ns, rank, r);
      var R := Reach(ns, rank, r);
      assert y < |ns| && (!IsValNode(ns[y]) ==> ns[y].lo in R && ns[y].hi in R);
    }
  }

  /** The least closed superset of the roots is exactly the protected set. */
  lemma ProtectedLeast(ns: seq<Node>, rank: seq<nat>, stack: seq<nat>, s: set<nat>)
    requires Ranked(ns, rank) && forall k | 0 <= k < |stack| :: stack[k] < |ns|
    requires Closed(ns, s) && Roots(ns, stack) <= s
    ensures Protected(ns, rank, stack) <= s
  {
    forall y | y in Protected(ns, rank, stack) ensures y in s {
      var r :| r in Roots(ns, stack) && y in Reach(ns, rank, r);
      ReachWithinClosed(ns, rank, s, r);
    }
  }

  /** When the protected nodes are untouched and the roots only grow, the protected set only grows. */
  lemma ProtectedGrows(ns1: seq<Node>, rk1: seq<nat>, st1: seq<nat>, ns2: seq<Node>, rk2: seq<nat>, st2: seq<nat>)
    requires Ranked(ns1, rk1) && forall k | 0 <= k < |st1| :: st1[k] < |ns1|
    requires Ranked(ns2, rk2) && forall k | 0 <= k < |st2| :: st2[k] < |ns2|
    requires Agree(Protected(ns1, rk1, st1), ns1, rk1, ns2, rk2)
    requires forall x | x in st1 :: x in st2
    ensures Protected(ns1, rk1, st1) <= Protected(ns2, rk2, st2)
  {
    var P1 := Protected(ns1, rk1, st1);
    ProtectedFacts(ns1, rk1, st1);
    forall y | y in P1 ensures y in Protected(ns2, rk2, st2) {
      var r :| r in Roots(ns1, st1) && y in Reach(ns1, rk1, r);
      assert r in P1;
      assert Reach(ns1, rk1, r) <= P1 by { ReachWithinClosed(ns1, rk1, P1, r); }
      ReachAgree(ns1, rk1, ns2, rk2, r);
      assert r in Roots(ns2, st2);
    }
  }
}
