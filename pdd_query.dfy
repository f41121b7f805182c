/**
  The read-only walks of the manager: loops down the `hi` spines of one or
  two polynomials, each proved to compute the recursive definition it
  implements.
 */
module PddQuery {
  import opened PddNode
  import opened PddSpec
  import opened PddState

  /** `lm_divides(p, q)`: walks both `hi` spines together. */
  method LmDividesLoop(ns: seq<Node>, ghost rank: seq<nat>, p0: nat, q0: nat) returns (r: bool)
    requires Ranked(ns, rank) && p0 < |ns| && q0 < |ns|
    ensures r == LmDivides(ns, rank, p0, q0)
  {
    var p: nat, q: nat := p0, q0;
    while true
      invariant p < |ns| && q < |ns| && LmDivides(ns, rank, p, q) == LmDivides(ns, rank, p0, q0)
      decreases rank[p] + rank[q]
    {
      if IsVal(ns, p) {
        return true;
      }
      if IsVal(ns, q) {
        return false;
      }
      if ns[p].level > ns[q].level {
        return false;
      }
      if ns[p].level == ns[q].level {
        p, q := ns[p].hi, ns[q].hi;
      } else {
        q := ns[q].hi;
      }
    }
  }

  /** Hash-consing as the walks rely on it: two polynomial nodes of the same
      shape are the same node. */
  ghost predicate Canonical(ns: seq<Node>)
  {
    forall i, j | 0 <= i < |ns| && 0 <= j < |ns| && ns[i].hi != 0 && ShapeOf(ns[i]) == ShapeOf(ns[j]) :: i == j
  }

  /** `lt(a, b)`. The loop keeps the two ids apart, which is the source's
      assertion `x != y`: when the `hi` children agree, hash-consing makes
      the `lo` children differ. */
  method LtLoop(ns: seq<Node>, values: seq<real>, ghost rank: seq<nat>, a: nat, b: nat) returns (r: bool)
    requires GraphOk(ns, rank) && ValuesIndexed(ns, values) && Canonical(ns) && Live(ns, a) && Live(ns, b)
    ensures r == Lt(ns, values, rank, a, b)
  {
    if a == b {
      return false;
    }
    var x: nat, y: nat := a, b;
    while true
      invariant Live(ns, x) && Live(ns, y) && x != y
      invariant LtWalk(ns, values, rank, x, y) == Lt(ns, values, rank, a, b)
      decreases rank[x] + rank[y]
    {
      if IsVal(ns, x) {
        return !IsVal(ns, y) || ValOf(ns, values, x) < ValOf(ns, values, y);
      }
      if IsVal(ns, y) {
        return false;
      }
      ChildrenLive(ns, rank, x);
      ChildrenLive(ns, rank, y);
      if ns[x].level == ns[y].level {
        if ns[x].hi == ns[y].hi {
          assert ShapeOf(ns[x]) != ShapeOf(ns[y]);
          x, y := ns[x].lo, ns[y].lo;
        } else {
          x, y := ns[x].hi, ns[y].hi;
        }
      } else {
        return ns[x].level > ns[y].level;
      }
    }
  }

  /** `different_leading_term(a, b)`: walks both `hi` spines while the levels agree. */
  method DifferentLeadingTermLoop(ns: seq<Node>, ghost rank: seq<nat>, a: nat, b: nat) returns (r: bool)
    requires Ranked(ns, rank) && a < |ns| && b < |ns|
    ensures r == DifferentLeadingTerm(ns, rank, a, b)
  {
    var x: nat, y: nat := a, b;
    while true
      invariant x < |ns| && y < |ns|
      invariant DifferentLeadingTerm(ns, rank, x, y) == DifferentLeadingTerm(ns, rank, a, b)
      decreases rank[x] + rank[y]
    {
      if x == y {
        return false;
      }
      if IsVal(ns, x) || IsVal(ns, y) {
        return true;
      }
      if ns[x].level == ns[y].level {
        x, y := ns[x].hi, ns[y].hi;
      } else {
        return true;
      }
    }
  }

  /** `is_linear(p)`: walks the `lo` spine and fails at the first non-value `hi`. */
  method IsLinearLoop(ns: seq<Node>, ghost rank: seq<nat>, p0: nat) returns (r: bool)
    requires Ranked(ns, rank) && p0 < |ns|
    ensures r == IsLinear(ns, rank, p0)
  {
    var p: nat := p0;
    while true
      invariant p < |ns| && IsLinear(ns, rank, p) == IsLinear(ns, rank, p0)
      decreases rank[p]
    {
      if IsVal(ns, p) {
        return true;
      }
      if !IsVal(ns, ns[p].hi) {
        return false;
      }
      p := ns[p].lo;
    }
  }

  /** The leading coefficient of a polynomial other than zero is not the zero node. */
  lemma {:induction false} LeadLeafNonZero(ns: seq<Node>, rank: seq<nat>, p: nat)
    requires GraphOk(ns, rank) && Live(ns, p) && p != ZeroPdd
    ensures LeadLeaf(ns, rank, p) != ZeroPdd
    decreases rank[p]
  {
    if !IsVal(ns, p) {
      ChildrenLive(ns, rank, p);
      LeadLeafNonZero(ns, rank, ns[p].hi);
    }
  }

  lemma MapVarsSnoc(level2var: seq<nat>, ls: seq<nat>, l: nat)
    requires l < |level2var| && forall k | 0 <= k < |ls| :: ls[k] < |level2var|
    ensures MapVars(level2var, ls + [l]) == MapVars(level2var, ls) + [level2var[l]]
  {
    assert (ls + [l])[..|ls|] == ls;
  }

  /** `common_factors(a, b, p, q, pc, qc)`: one walk down both leading spines
      that collects the variables only one side has and notes whether a level
      was shared; then the rest of each spine, and the two leading
      coefficients, divided by their gcd when both are integers outside
      mod-2 mode. The variables are reported through `level2var`. */
  method CommonFactors(ns: seq<Node>, values: seq<real>, ghost rank: seq<nat>, level2var: seq<nat>, mod2: bool, a: nat, b: nat)
    returns (found: bool, p: seq<nat>, q: seq<nat>, pc: real, qc: real)
    requires GraphOk(ns, rank) && ValuesIndexed(ns, values) && NonZeroValues(ns, values)
    requires LevelsBelowOf(ns, |level2var|) && Live(ns, a) && Live(ns, b)
    ensures var res := CommonFactorsSpec(ns, rank, a, b);
      found == res.Common? &&
      (found ==>
        (forall k | 0 <= k < |res.f.p| :: res.f.p[k] < |level2var|) &&
        (forall k | 0 <= k < |res.f.q| :: res.f.q[k] < |level2var|) &&
        p == MapVars(level2var, res.f.p) && q == MapVars(level2var, res.f.q) &&
        var ca, cb := ValOf(ns, values, LeadLeaf(ns, rank, a)), ValOf(ns, values, LeadLeaf(ns, rank, b));
        ca != 0.0 && cb != 0.0 && (pc, qc) == ReducedCoefficients(mod2, ca, cb))
  {
    p, q := [], [];
    ghost var P: seq<nat>, Q: seq<nat> := [], [];
    var x: nat, y: nat := a, b;
    var hasCommon := false;
    while true
      invariant Live(ns, x) && Live(ns, y)
      invariant forall k | 0 <= k < |P| :: P[k] < |level2var|
      invariant forall k | 0 <= k < |Q| :: Q[k] < |level2var|
      invariant p == MapVars(level2var, P) && q == MapVars(level2var, Q)
      invariant hasCommon ==> x != ZeroPdd && y != ZeroPdd
      invariant LeadLeaf(ns, rank, x) == LeadLeaf(ns, rank, a) && LeadLeaf(ns, rank, y) == LeadLeaf(ns, rank, b)
      invariant CommonWalk(ns, rank, x, y, hasCommon, P, Q) == CommonFactorsSpec(ns, rank, a, b)
      decreases rank[x] + rank[y]
    {
      if IsVal(ns, x) || IsVal(ns, y) {
        if !hasCommon {
          return false, p, q, 0.0, 0.0;
        }
        found, p, q, pc, qc := FinishFactors(ns, values, rank, level2var, mod2, x, y, p, q, P, Q);
        return;
      }
      ChildrenLive(ns, rank, x);
      ChildrenLive(ns, rank, y);
      if ns[x].level == ns[y].level {
        hasCommon := true;
        x, y := ns[x].hi, ns[y].hi;
      } else if ns[x].level > ns[y].level {
        MapVarsSnoc(level2var, P, ns[x].level);
        p, P := p + [level2var[ns[x].level]], P + [ns[x].level];
        x := ns[x].hi;
      } else {
        MapVarsSnoc(level2var, Q, ns[y].level);
        q, Q := q + [level2var[ns[y].level]], Q + [ns[y].level];
        y := ns[y].hi;
      }
    }
  }

  /** The tail of `common_factors` once one side has reached a value. */
  method FinishFactors(ns: seq<Node>, values: seq<real>, ghost rank: seq<nat>, level2var: seq<nat>, mod2: bool,
                       x0: nat, y0: nat, p0: seq<nat>, q0: seq<nat>, ghost P0: seq<nat>, ghost Q0: seq<nat>)
    returns (found: bool, p: seq<nat>, q: seq<nat>, pc: real, qc: real)
    requires GraphOk(ns, rank) && ValuesIndexed(ns, values) && NonZeroValues(ns, values)
    requires LevelsBelowOf(ns, |level2var|) && Live(ns, x0) && Live(ns, y0) && x0 != ZeroPdd && y0 != ZeroPdd
    requires IsVal(ns, x0) || IsVal(ns, y0)
    requires forall k | 0 <= k < |P0| :: P0[k] < |level2var|
    requires forall k | 0 <= k < |Q0| :: Q0[k] < |level2var|
    requires p0 == MapVars(level2var, P0) && q0 == MapVars(level2var, Q0)
    ensures var res := CommonWalk(ns, rank, x0, y0, true, P0, Q0);
      found && res.Common? &&
      (forall k | 0 <= k < |res.f.p| :: res.f.p[k] < |level2var|) &&
      (forall k | 0 <= k < |res.f.q| :: res.f.q[k] < |level2var|) &&
      p == MapVars(level2var, res.f.p) && q == MapVars(level2var, res.f.q) &&
      var ca, cb := ValOf(ns, values, LeadLeaf(ns, rank, x0)), ValOf(ns, values, LeadLeaf(ns, rank, y0));
      ca != 0.0 && cb != 0.0 && (pc, qc) == ReducedCoefficients(mod2, ca, cb)
  {
    var x: nat, y: nat;
    ghost var P: seq<nat>, Q: seq<nat>;
    y, q, Q := CollectSpine(ns, rank, level2var, y0, q0, Q0);
    x, p, P := CollectSpine(ns, rank, level2var, x0, p0, P0);
    LeadLeafNonZero(ns, rank, x0);
    LeadLeafNonZero(ns, rank, y0);
    found, pc, qc := true, ValOf(ns, values, x), ValOf(ns, values, y);
    var reduced := ReducedCoefficients(mod2, pc, qc);
    pc, qc := reduced.0, reduced.1;
  }

  /** `while (!is_val(x)) p.push_back(var(x)), x = hi(x);` */
  method CollectSpine(ns: seq<Node>, ghost rank: seq<nat>, level2var: seq<nat>, x0: nat, p0: seq<nat>, ghost P0: seq<nat>)
    returns (x: nat, p: seq<nat>, ghost P: seq<nat>)
    requires GraphOk(ns, rank) && LevelsBelowOf(ns, |level2var|) && Live(ns, x0)
    requires forall k | 0 <= k < |P0| :: P0[k] < |level2var|
    requires p0 == MapVars(level2var, P0)
    ensures x == LeadLeaf(ns, rank, x0) && P == P0 + LeadingSpine(ns, rank, x0)
    ensures (forall k | 0 <= k < |P| :: P[k] < |level2var|) && p == MapVars(level2var, P)
  {
    x, p, P := x0, p0, P0;
    while !IsVal(ns, x)
      invariant Live(ns, x)
      invariant forall k | 0 <= k < |P| :: P[k] < |level2var|
      invariant p == MapVars(level2var, P) && P + LeadingSpine(ns, rank, x) == P0 + LeadingSpine(ns, rank, x0)
      invariant LeadLeaf(ns, rank, x) == LeadLeaf(ns, rank, x0)
      decreases rank[x]
    {
      SpineStep(ns, rank, level2var, x, P);
      MapVarsSnoc(level2var, P, ns[x].level);
      p, P := p + [level2var[ns[x].level]], P + [ns[x].level];
      x := ns[x].hi;
    }
  }

  /** One step down the `hi` spine moves its first level onto the collected levels. */
  lemma SpineStep(ns: seq<Node>, rank: seq<nat>, level2var: seq<nat>, x: nat, P: seq<nat>)
    requires GraphOk(ns, rank) && LevelsBelowOf(ns, |level2var|) && Live(ns, x) && !IsVal(ns, x)
    ensures ns[x].level < |level2var| && Live(ns, ns[x].hi)
    ensures (P + [ns[x].level]) + LeadingSpine(ns, rank, ns[x].hi) == P + LeadingSpine(ns, rank, x)
    ensures LeadLeaf(ns, rank, ns[x].hi) == LeadLeaf(ns, rank, x)
  {
    ChildrenLive(ns, rank, x);
    assert LeadingSpine(ns, rank, x) == [ns[x].level] + LeadingSpine(ns, rank, ns[x].hi);
  }

  /** `well_formed()`: every free node is blank with no references, and every
      node passes the per-node level check. */
  method WellFormed(ns: seq<Node>, free: seq<nat>) returns (ok: bool)
    requires forall k | 0 <= k < |free| :: free[k] < |ns|
    requires forall i | 0 <= i < |ns| && ns[i].hi != 0 :: ns[i].lo < |ns| && ns[i].hi < |ns|
    ensures ok <==> WellFormedState(ns, free)
  {
    ok := true;
    var k := 0;
    while k < |free|
      invariant 0 <= k <= |free| && ok
      invariant forall j | 0 <= j < k :: FreeBlank(ns, free[j])
    {
      ok := ok && ns[free[k]].lo == 0 && ns[free[k]].hi == 0 && ns[free[k]].refcount == 0;
      if !ok {
        return false;
      }
      k := k + 1;
    }
    var i := 0;
    while i < |ns|
      invariant 0 <= i <= |ns|
      invariant forall j | 0 <= j < i :: WellFormedAt(ns, j)
    {
      if !WellFormedNode(ns, ns[i]) {
        assert !WellFormedAt(ns, i);
        return false;
      }
      i := i + 1;
    }
  }

  predicate FreeBlank(ns: seq<Node>, n: nat)
    requires n < |ns|
  {
    IsInternal(ns[n]) && ns[n].refcount == 0
  }

  predicate WellFormedAt(ns: seq<Node>, i: nat)
    requires i < |ns| && (ns[i].hi != 0 ==> ns[i].lo < |ns| && ns[i].hi < |ns|)
  {
    WellFormedNode(ns, ns[i])
  }

  /** What `well_formed()` checks. */
  ghost predicate WellFormedState(ns: seq<Node>, free: seq<nat>)
    requires forall k | 0 <= k < |free| :: free[k] < |ns|
    requires forall i | 0 <= i < |ns| && ns[i].hi != 0 :: ns[i].lo < |ns| && ns[i].hi < |ns|
  {
    (forall k | 0 <= k < |free| :: FreeBlank(ns, free[k])) &&
    (forall i | 0 <= i < |ns| :: WellFormedAt(ns, i))
  }

  /** The manager's invariant implies what `well_formed()` checks, so its assertions never fail. */
  lemma CoreWellFormed(a: Arena, rk: seq<nat>)
    requires Core(a, rk)
    ensures (forall k | 0 <= k < |a.free| :: a.free[k] < |a.nodes|)
    ensures (forall i | 0 <= i < |a.nodes| && a.nodes[i].hi != 0 :: a.nodes[i].lo < |a.nodes| && a.nodes[i].hi < |a.nodes|)
    ensures WellFormedState(a.nodes, a.free)
  {
    assert CoreOf(a.nodes, rk, a.free, a.table, a.values, a.mpq, a.freeVals, a.freeze, a.cache, a.stack,
                  a.mark, a.markLevel, a.v2l, a.l2v, a.v2p);
  }

  /** The manager's invariant provides what the read-only walks require. */
  lemma ValidQueries(a: Arena, rk: seq<nat>)
    requires Valid(a, rk)
    ensures GraphOk(a.nodes, rk) && ValuesIndexed(a.nodes, a.values) && NonZeroValues(a.nodes, a.values)
    ensures Canonical(a.nodes) && LevelsBelowOf(a.nodes, |a.l2v|)
  {
    assert CoreOf(a.nodes, rk, a.free, a.table, a.values, a.mpq, a.freeVals, a.freeze, a.cache, a.stack,
                  a.mark, a.markLevel, a.v2l, a.l2v, a.v2p);
    assert ValueNodesOk(a.nodes, a.values, a.mpq, a.freeze);
    forall i | 0 <= i < |a.nodes| && IsValNode(a.nodes[i]) && i != ZeroPdd
      ensures a.values[a.nodes[i].lo] != 0.0
    {
      assert a.values[a.nodes[i].lo] in a.mpq;
    }
    assert CanonOf(a.nodes, a.table);
  }
}
