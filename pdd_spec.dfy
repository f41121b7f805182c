/**
  Reference definitions of the read-only queries of the PDD manager, written
  as recursion over the node array, and the facts proved about them: what the
  leading monomial is and when one divides another, that `lt` is a strict
  order, how linearity, degree and tree size relate, and what `common_factors`
  computes.
 */
module PddSpec {
  import opened PddNode

  /** Every value node points into the value pool. */
  ghost predicate ValuesIndexed(ns: seq<Node>, values: seq<real>)
  {
    forall i | 0 <= i < |ns| && IsValNode(ns[i]) :: ns[i].lo < |values|
  }

  /** Only node 0 holds the rational 0. */
  ghost predicate NonZeroValues(ns: seq<Node>, values: seq<real>)
    requires ValuesIndexed(ns, values)
  {
    forall i | 0 <= i < |ns| && IsValNode(ns[i]) && i != ZeroPdd :: values[ns[i].lo] != 0.0
  }

  function ValOf(ns: seq<Node>, values: seq<real>, p: nat): real
    requires p < |ns| && IsValNode(ns[p]) && ns[p].lo < |values|
  {
    values[ns[p].lo]
  }

  // ---------------------------------------------------------------- leading monomial

  /** Levels along the `hi` spine: the leading monomial, one entry per variable occurrence. */
  ghost function LeadingMonomial(ns: seq<Node>, rank: seq<nat>, p: nat): seq<nat>
    requires Ranked(ns, rank) && p < |ns|
    decreases rank[p]
  {
    if IsVal(ns, p) then [] else [ns[p].level] + LeadingMonomial(ns, rank, ns[p].hi)
  }

  /** The value node at the end of the `hi` spine: the leading coefficient. */
  function LeadLeaf(ns: seq<Node>, ghost rank: seq<nat>, p: nat): (r: nat)
    requires Ranked(ns, rank) && p < |ns|
    ensures r < |ns| && IsValNode(ns[r])
    decreases rank[p]
  {
    if IsVal(ns, p) then p else LeadLeaf(ns, rank, ns[p].hi)
  }

  lemma {:induction false} LeadingMonomialBelow(ns: seq<Node>, rank: seq<nat>, p: nat)
    requires GraphOk(ns, rank) && Live(ns, p)
    ensures forall k | 0 <= k < |LeadingMonomial(ns, rank, p)| :: LeadingMonomial(ns, rank, p)[k] as int <= Top(ns, p)
    decreases rank[p]
  {
    if !IsVal(ns, p) {
      ChildrenLive(ns, rank, p);
      LeadingMonomialBelow(ns, rank, ns[p].hi);
    }
  }

  lemma LevelNotIn(ns: seq<Node>, rank: seq<nat>, p: nat, l: nat)
    requires GraphOk(ns, rank) && Live(ns, p) && Top(ns, p) < l as int
    ensures l !in multiset(LeadingMonomial(ns, rank, p))
  {
    LeadingMonomialBelow(ns, rank, p);
  }

  /** The source's `lm_divides` walk. */
  function LmDivides(ns: seq<Node>, ghost rank: seq<nat>, p: nat, q: nat): bool
    requires Ranked(ns, rank) && p < |ns| && q < |ns|
    decreases rank[p] + rank[q]
  {
    if IsVal(ns, p) then true
    else if IsVal(ns, q) then false
    else if ns[p].level > ns[q].level then false
    else if ns[p].level == ns[q].level then LmDivides(ns, rank, ns[p].hi, ns[q].hi)
    else LmDivides(ns, rank, p, ns[q].hi)
  }

  /** `lm_divides(p, q)` holds exactly when the leading monomial of p divides that of q. */
  lemma {:induction false} LmDividesIff(ns: seq<Node>, rank: seq<nat>, p: nat, q: nat)
    requires GraphOk(ns, rank) && Live(ns, p) && Live(ns, q)
    ensures LmDivides(ns, rank, p, q) <==>
            multiset(LeadingMonomial(ns, rank, p)) <= multiset(LeadingMonomial(ns, rank, q))
    decreases rank[p] + rank[q]
  {
    if IsVal(ns, p) {
    } else if IsVal(ns, q) {
      assert ns[p].level in multiset(LeadingMonomial(ns, rank, p));
    } else {
      ChildrenLive(ns, rank, p);
      ChildrenLive(ns, rank, q);
      var lp, lq := ns[p].level, ns[q].level;
      var A := multiset(LeadingMonomial(ns, rank, ns[p].hi));
      var B := multiset(LeadingMonomial(ns, rank, ns[q].hi));
      assert multiset(LeadingMonomial(ns, rank, p)) == multiset{lp} + A;
      assert multiset(LeadingMonomial(ns, rank, q)) == multiset{lq} + B;
      if lp > lq {
        LevelNotIn(ns, rank, q, lp);
        assert lp in multiset(LeadingMonomial(ns, rank, p));
      } else if lp == lq {
        LmDividesIff(ns, rank, ns[p].hi, ns[q].hi);
        MultisetConsLe(lp, A, B);
      } else {
        LmDividesIff(ns, rank, p, ns[q].hi);
        LevelNotIn(ns, rank, p, lq);
        MultisetSkipLe(lq, multiset{lp} + A, B);
      }
    }
  }

  lemma MultisetConsLe(x: nat, A: multiset<nat>, B: multiset<nat>)
    ensures multiset{x} + A <= multiset{x} + B <==> A <= B
  {
    if multiset{x} + A <= multiset{x} + B {
      forall y ensures A[y] <= B[y] {
        assert (multiset{x} + A)[y] <= (multiset{x} + B)[y];
      }
    }
  }

  lemma MultisetSkipLe(x: nat, A: multiset<nat>, B: multiset<nat>)
    requires x !in A
    ensures A <= multiset{x} + B <==> A <= B
  {
    if A <= multiset{x} + B {
      forall y ensures A[y] <= B[y] {
        assert A[y] <= (multiset{x} + B)[y];
        if y == x { assert A[y] == 0; }
      }
    }
  }

  // ---------------------------------------------------------------- ordering

  /** The source's `lt` loop once `a != b` has been checked. */
  function LtWalk(ns: seq<Node>, values: seq<real>, ghost rank: seq<nat>, x: nat, y: nat): bool
    requires Ranked(ns, rank) && ValuesIndexed(ns, values) && x < |ns| && y < |ns|
    decreases rank[x] + rank[y]
  {
    if IsVal(ns, x) then !IsVal(ns, y) || ValOf(ns, values, x) < ValOf(ns, values, y)
    else if IsVal(ns, y) then false
    else if ns[x].level == ns[y].level then
      if ns[x].hi == ns[y].hi then LtWalk(ns, values, rank, ns[x].lo, ns[y].lo)
      else LtWalk(ns, values, rank, ns[x].hi, ns[y].hi)
    else ns[x].level > ns[y].level
  }

  /** `lt(a, b)`. */
  function Lt(ns: seq<Node>, values: seq<real>, ghost rank: seq<nat>, a: nat, b: nat): bool
    requires Ranked(ns, rank) && ValuesIndexed(ns, values) && a < |ns| && b < |ns|
  {
    if a == b then false else LtWalk(ns, values, rank, a, b)
  }

  /** Even without the `a == b` shortcut the walk never calls a polynomial smaller than itself. */
  lemma {:induction false} LtWalkIrreflexive(ns: seq<Node>, values: seq<real>, rank: seq<nat>, x: nat)
    requires Ranked(ns, rank) && ValuesIndexed(ns, values) && x < |ns|
    ensures !LtWalk(ns, values, rank, x, x)
    decreases rank[x]
  {
    if !IsVal(ns, x) {
      LtWalkIrreflexive(ns, values, rank, ns[x].lo);
    }
  }

  lemma {:induction false} LtWalkAsymmetric(ns: seq<Node>, values: seq<real>, rank: seq<nat>, x: nat, y: nat)
    requires Ranked(ns, rank) && ValuesIndexed(ns, values) && x < |ns| && y < |ns|
    ensures !(LtWalk(ns, values, rank, x, y) && LtWalk(ns, values, rank, y, x))
    decreases rank[x] + rank[y]
  {
    if !IsVal(ns, x) && !IsVal(ns, y) && ns[x].level == ns[y].level {
      if ns[x].hi == ns[y].hi {
        LtWalkAsymmetric(ns, values, rank, ns[x].lo, ns[y].lo);
      } else {
        LtWalkAsymmetric(ns, values, rank, ns[x].hi, ns[y].hi);
      }
    }
  }

  lemma {:induction false} LtWalkTransitive(ns: seq<Node>, values: seq<real>, rank: seq<nat>, x: nat, y: nat, z: nat)
    requires Ranked(ns, rank) && ValuesIndexed(ns, values) && x < |ns| && y < |ns| && z < |ns|
    requires LtWalk(ns, values, rank, x, y) && LtWalk(ns, values, rank, y, z)
    ensures LtWalk(ns, values, rank, x, z)
    decreases rank[x] + rank[y] + rank[z]
  {
    if IsVal(ns, x) || IsVal(ns, y) || IsVal(ns, z) {
    } else if ns[x].level == ns[y].level && ns[y].level == ns[z].level {
      var hx, hy, hz := ns[x].hi, ns[y].hi, ns[z].hi;
      if hx == hy && hy == hz {
        LtWalkTransitive(ns, values, rank, ns[x].lo, ns[y].lo, ns[z].lo);
      } else if hx == hy {
      } else if hy == hz {
      } else if hx == hz {
        LtWalkAsymmetric(ns, values, rank, hx, hy);
      } else {
        LtWalkTransitive(ns, values, rank, hx, hy, hz);
      }
    }
  }

  /** `lt` is a strict order on node ids. */
  lemma LtStrictOrder(ns: seq<Node>, values: seq<real>, rank: seq<nat>, a: nat, b: nat, c: nat)
    requires Ranked(ns, rank) && ValuesIndexed(ns, values) && a < |ns| && b < |ns| && c < |ns|
    ensures !Lt(ns, values, rank, a, a)
    ensures !(Lt(ns, values, rank, a, b) && Lt(ns, values, rank, b, a))
    ensures Lt(ns, values, rank, a, b) && Lt(ns, values, rank, b, c) ==> Lt(ns, values, rank, a, c)
  {
    if a != b {
      LtWalkAsymmetric(ns, values, rank, a, b);
    }
    if Lt(ns, values, rank, a, b) && Lt(ns, values, rank, b, c) {
      LtWalkTransitive(ns, values, rank, a, b, c);
      if a == c {
        LtWalkAsymmetric(ns, values, rank, a, b);
      }
    }
  }

  /** The source's `different_leading_term` walk. */
  function DifferentLeadingTerm(ns: seq<Node>, ghost rank: seq<nat>, x: nat, y: nat): bool
    requires Ranked(ns, rank) && x < |ns| && y < |ns|
    decreases rank[x] + rank[y]
  {
    if x == y then false
    else if IsVal(ns, x) || IsVal(ns, y) then true
    else if ns[x].level == ns[y].level then DifferentLeadingTerm(ns, rank, ns[x].hi, ns[y].hi)
    else true
  }

  /** When the leading terms are not different, the leading monomials and the leading coefficients coincide. */
  lemma {:induction false} SameLeadingTerm(ns: seq<Node>, rank: seq<nat>, x: nat, y: nat)
    requires Ranked(ns, rank) && x < |ns| && y < |ns|
    requires !DifferentLeadingTerm(ns, rank, x, y)
    ensures LeadingMonomial(ns, rank, x) == LeadingMonomial(ns, rank, y)
    ensures LeadLeaf(ns, rank, x) == LeadLeaf(ns, rank, y)
    decreases rank[x] + rank[y]
  {
    if x != y {
      SameLeadingTerm(ns, rank, ns[x].hi, ns[y].hi);
    }
  }

  /** Polynomials whose leading monomials differ have different leading terms. */
  lemma DifferentMonomialsDiffer(ns: seq<Node>, rank: seq<nat>, x: nat, y: nat)
    requires Ranked(ns, rank) && x < |ns| && y < |ns|
    requires LeadingMonomial(ns, rank, x) != LeadingMonomial(ns, rank, y)
    ensures DifferentLeadingTerm(ns, rank, x, y)
  {
    if !DifferentLeadingTerm(ns, rank, x, y) {
      SameLeadingTerm(ns, rank, x, y);
    }
  }

  // ---------------------------------------------------------------- shape queries

  /** The source's `is_linear` walk down the `lo` spine. */
  function IsLinear(ns: seq<Node>, ghost rank: seq<nat>, p: nat): bool
    requires Ranked(ns, rank) && p < |ns|
    decreases rank[p]
  {
    if IsVal(ns, p) then true
    else if !IsVal(ns, ns[p].hi) then false
    else IsLinear(ns, rank, ns[p].lo)
  }

  /** `degree`: a value has degree 0, a node `max(degree(lo), degree(hi) + 1)`. */
  function Degree(ns: seq<Node>, ghost rank: seq<nat>, p: nat): nat
    requires Ranked(ns, rank) && p < |ns|
    decreases rank[p]
  {
    if IsVal(ns, p) then 0
    else
      var dl, dh := Degree(ns, rank, ns[p].lo), Degree(ns, rank, ns[p].hi) + 1;
      if dl < dh then dh else dl
  }

  /** `tree_size`: the number of nodes of the DAG unfolded into a tree. */
  function TreeSize(ns: seq<Node>, ghost rank: seq<nat>, p: nat): nat
    requires Ranked(ns, rank) && p < |ns|
    decreases rank[p]
  {
    if IsVal(ns, p) then 1
    else 1 + TreeSize(ns, rank, ns[p].lo) + TreeSize(ns, rank, ns[p].hi)
  }

  lemma DegreeOfNode(ns: seq<Node>, rank: seq<nat>, p: nat)
    requires Ranked(ns, rank) && p < |ns| && !IsVal(ns, p)
    ensures Degree(ns, rank, p) >= 1
  {
  }

  /** A polynomial is linear exactly when its degree is at most one. */
  lemma {:induction false} LinearIffDegreeAtMostOne(ns: seq<Node>, rank: seq<nat>, p: nat)
    requires Ranked(ns, rank) && p < |ns|
    ensures IsLinear(ns, rank, p) <==> Degree(ns, rank, p) <= 1
    decreases rank[p]
  {
    if !IsVal(ns, p) {
      var h := ns[p].hi;
      if IsVal(ns, h) {
        LinearIffDegreeAtMostOne(ns, rank, ns[p].lo);
      } else {
        DegreeOfNode(ns, rank, h);
      }
    }
  }

  /** The leading monomial is one of the monomials, so its length bounds the degree from below. */
  lemma {:induction false} LeadingMonomialWithinDegree(ns: seq<Node>, rank: seq<nat>, p: nat)
    requires Ranked(ns, rank) && p < |ns|
    ensures |LeadingMonomial(ns, rank, p)| <= Degree(ns, rank, p)
    decreases rank[p]
  {
    if !IsVal(ns, p) {
      LeadingMonomialWithinDegree(ns, rank, ns[p].hi);
    }
  }

  /** Sharing can only shrink a DAG: it has at most as many nodes as its unfolded tree. */
  lemma {:induction false} ReachWithinTreeSize(ns: seq<Node>, rank: seq<nat>, p: nat)
    requires Ranked(ns, rank) && p < |ns|
    ensures |Reach(ns, rank, p)| <= TreeSize(ns, rank, p)
    decreases rank[p]
  {
    if !IsVal(ns, p) {
      var l, h := ns[p].lo, ns[p].hi;
      ReachWithinTreeSize(ns, rank, l);
      ReachWithinTreeSize(ns, rank, h);
      var A, B := Reach(ns, rank, l), Reach(ns, rank, h);
      assert |A + B| <= |A| + |B| by { UnionSize(A, B); }
      assert |{p} + (A + B)| <= 1 + |A + B|;
      assert Reach(ns, rank, p) == {p} + (A + B);
    }
  }

  lemma UnionSize(A: set<nat>, B: set<nat>)
    ensures |A + B| <= |A| + |B|
  {
    assert A + B == A + (B - A);
    assert |B - A| <= |B|;
  }

  // ---------------------------------------------------------------- common factors

  /** What `common_factors` computes, in levels: the levels only in a's and
      only in b's leading monomial, and the two leading-coefficient leaves. */
  datatype Factors = Factors(p: seq<nat>, q: seq<nat>, aLeaf: nat, bLeaf: nat)
  datatype FactorsResult = NoCommon | Common(f: Factors)

  /** The simultaneous walk of `common_factors` along both leading spines. */
  function CommonWalk(ns: seq<Node>, ghost rank: seq<nat>, x: nat, y: nat, hasCommon: bool, p: seq<nat>, q: seq<nat>): FactorsResult
    requires Ranked(ns, rank) && x < |ns| && y < |ns|
    decreases rank[x] + rank[y]
  {
    if IsVal(ns, x) || IsVal(ns, y) then
      if !hasCommon then NoCommon
      else Common(Factors(p + LeadingSpine(ns, rank, x), q + LeadingSpine(ns, rank, y),
                          LeadLeaf(ns, rank, x), LeadLeaf(ns, rank, y)))
    else if ns[x].level == ns[y].level then CommonWalk(ns, rank, ns[x].hi, ns[y].hi, true, p, q)
    else if ns[x].level > ns[y].level then CommonWalk(ns, rank, ns[x].hi, y, hasCommon, p + [ns[x].level], q)
    else CommonWalk(ns, rank, x, ns[y].hi, hasCommon, p, q + [ns[y].level])
  }

  /** The levels a `while (!is_val(y))` loop pushes while following `hi`. */
  function LeadingSpine(ns: seq<Node>, ghost rank: seq<nat>, x: nat): seq<nat>
    requires Ranked(ns, rank) && x < |ns|
    decreases rank[x]
  {
    if IsVal(ns, x) then [] else [ns[x].level] + LeadingSpine(ns, rank, ns[x].hi)
  }

  function CommonFactorsSpec(ns: seq<Node>, ghost rank: seq<nat>, a: nat, b: nat): FactorsResult
    requires Ranked(ns, rank) && a < |ns| && b < |ns|
  {
    CommonWalk(ns, rank, a, b, false, [], [])
  }

  lemma {:induction false} LeadingSpineIsMonomial(ns: seq<Node>, rank: seq<nat>, x: nat)
    requires Ranked(ns, rank) && x < |ns|
    ensures LeadingSpine(ns, rank, x) == LeadingMonomial(ns, rank, x)
    decreases rank[x]
  {
    if !IsVal(ns, x) {
      LeadingSpineIsMonomial(ns, rank, ns[x].hi);
    }
  }

  /** What a call of the walk delivers, relative to its accumulators. */
  ghost predicate WalkPost(ns: seq<Node>, rank: seq<nat>, x: nat, y: nat, hasCommon: bool, p: seq<nat>, q: seq<nat>)
    requires Ranked(ns, rank) && x < |ns| && y < |ns|
  {
    var A, B := multiset(LeadingMonomial(ns, rank, x)), multiset(LeadingMonomial(ns, rank, y));
    var res := CommonWalk(ns, rank, x, y, hasCommon, p, q);
    (res.Common? <==> hasCommon || A * B != multiset{}) &&
    (res.Common? ==>
      multiset(res.f.p) == multiset(p) + (A - B) &&
      multiset(res.f.q) == multiset(q) + (B - A) &&
      res.f.aLeaf == LeadLeaf(ns, rank, x) && res.f.bLeaf == LeadLeaf(ns, rank, y))
  }

  lemma {:induction false} CommonWalkCorrect(ns: seq<Node>, rank: seq<nat>, x: nat, y: nat, hasCommon: bool, p: seq<nat>, q: seq<nat>)
    requires GraphOk(ns, rank) && Live(ns, x) && Live(ns, y)
    ensures WalkPost(ns, rank, x, y, hasCommon, p, q)
    decreases rank[x] + rank[y], 1
  {
    if IsVal(ns, x) || IsVal(ns, y) {
      CommonWalkEnd(ns, rank, x, y, hasCommon, p, q);
    } else if ns[x].level == ns[y].level {
      CommonWalkSame(ns, rank, x, y, hasCommon, p, q);
    } else if ns[x].level > ns[y].level {
      CommonWalkLeft(ns, rank, x, y, hasCommon, p, q);
    } else {
      CommonWalkRight(ns, rank, x, y, hasCommon, p, q);
    }
  }

  lemma CommonWalkEnd(ns: seq<Node>, rank: seq<nat>, x: nat, y: nat, hasCommon: bool, p: seq<nat>, q: seq<nat>)
    requires GraphOk(ns, rank) && Live(ns, x) && Live(ns, y)
    requires IsVal(ns, x) || IsVal(ns, y)
    ensures WalkPost(ns, rank, x, y, hasCommon, p, q)
  {
    var A, B := multiset(LeadingMonomial(ns, rank, x)), multiset(LeadingMonomial(ns, rank, y));
    LeadingSpineIsMonomial(ns, rank, x);
    LeadingSpineIsMonomial(ns, rank, y);
    assert A == multiset{} || B == multiset{};
    assert A * B == multiset{};
    assert A - B == A && B - A == B;
  }

  lemma {:induction false} CommonWalkSame(ns: seq<Node>, rank: seq<nat>, x: nat, y: nat, hasCommon: bool, p: seq<nat>, q: seq<nat>)
    requires GraphOk(ns, rank) && Live(ns, x) && Live(ns, y)
    requires !IsVal(ns, x) && !IsVal(ns, y) && ns[x].level == ns[y].level
    ensures WalkPost(ns, rank, x, y, hasCommon, p, q)
    decreases rank[x] + rank[y], 0
  {
    ChildrenLive(ns, rank, x);
    ChildrenLive(ns, rank, y);
    var hx, hy := ns[x].hi, ns[y].hi;
    CommonWalkCorrect(ns, rank, hx, hy, true, p, q);
    MultisetConsAlgebra(ns[x].level, multiset(LeadingMonomial(ns, rank, hx)), multiset(LeadingMonomial(ns, rank, hy)));
  }

  lemma {:induction false} CommonWalkLeft(ns: seq<Node>, rank: seq<nat>, x: nat, y: nat, hasCommon: bool, p: seq<nat>, q: seq<nat>)
    requires GraphOk(ns, rank) && Live(ns, x) && Live(ns, y)
    requires !IsVal(ns, x) && !IsVal(ns, y) && ns[x].level > ns[y].level
    ensures WalkPost(ns, rank, x, y, hasCommon, p, q)
    decreases rank[x] + rank[y], 0
  {
    ChildrenLive(ns, rank, x);
    var lx, hx := ns[x].level, ns[x].hi;
    CommonWalkCorrect(ns, rank, hx, y, hasCommon, p + [lx], q);
    LevelNotIn(ns, rank, y, lx);
    var Ah, B := multiset(LeadingMonomial(ns, rank, hx)), multiset(LeadingMonomial(ns, rank, y));
    assert multiset(LeadingMonomial(ns, rank, x)) == multiset{lx} + Ah;
    assert LeadLeaf(ns, rank, x) == LeadLeaf(ns, rank, hx);
    var res := CommonWalk(ns, rank, hx, y, hasCommon, p + [lx], q);
    assert CommonWalk(ns, rank, x, y, hasCommon, p, q) == res;
    assert multiset(p + [lx]) == multiset(p) + multiset{lx};
    SkipStep(lx, Ah, B, multiset(p), multiset(q), hasCommon, res.Common?,
             if res.Common? then multiset(res.f.p) else multiset{}, if res.Common? then multiset(res.f.q) else multiset{});
  }

  /** The multiset bookkeeping of one step of the walk that skips level `x` of a's spine. */
  lemma SkipStep(x: nat, Ah: multiset<nat>, B: multiset<nat>, P: multiset<nat>, Q: multiset<nat>,
                 hasCommon: bool, found: bool, RP: multiset<nat>, RQ: multiset<nat>)
    requires x !in B
    requires found <==> hasCommon || Ah * B != multiset{}
    requires found ==> RP == (P + multiset{x}) + (Ah - B) && RQ == Q + (B - Ah)
    ensures found <==> hasCommon || (multiset{x} + Ah) * B != multiset{}
    ensures found ==> RP == P + ((multiset{x} + Ah) - B) && RQ == Q + (B - (multiset{x} + Ah))
  {
    MultisetSkipAlgebra(x, Ah, B);
  }

  lemma {:induction false} CommonWalkRight(ns: seq<Node>, rank: seq<nat>, x: nat, y: nat, hasCommon: bool, p: seq<nat>, q: seq<nat>)
    requires GraphOk(ns, rank) && Live(ns, x) && Live(ns, y)
    requires !IsVal(ns, x) && !IsVal(ns, y) && ns[x].level < ns[y].level
    ensures WalkPost(ns, rank, x, y, hasCommon, p, q)
    decreases rank[x] + rank[y], 0
  {
    ChildrenLive(ns, rank, y);
    var ly, hy := ns[y].level, ns[y].hi;
    CommonWalkCorrect(ns, rank, x, hy, hasCommon, p, q + [ly]);
    LevelNotIn(ns, rank, x, ly);
    var A, Bh := multiset(LeadingMonomial(ns, rank, x)), multiset(LeadingMonomial(ns, rank, hy));
    assert multiset(LeadingMonomial(ns, rank, y)) == multiset{ly} + Bh;
    assert LeadLeaf(ns, rank, y) == LeadLeaf(ns, rank, hy);
    var res := CommonWalk(ns, rank, x, hy, hasCommon, p, q + [ly]);
    assert CommonWalk(ns, rank, x, y, hasCommon, p, q) == res;
    assert multiset(q + [ly]) == multiset(q) + multiset{ly};
    SkipStepRight(ly, A, Bh, multiset(p), multiset(q), hasCommon, res.Common?,
                  if res.Common? then multiset(res.f.p) else multiset{}, if res.Common? then multiset(res.f.q) else multiset{});
  }

  /** The same for a step that skips level `x` of b's spine. */
  lemma SkipStepRight(x: nat, A: multiset<nat>, Bh: multiset<nat>, P: multiset<nat>, Q: multiset<nat>,
                      hasCommon: bool, found: bool, RP: multiset<nat>, RQ: multiset<nat>)
    requires x !in A
    requires found <==> hasCommon || A * Bh != multiset{}
    requires found ==> RP == P + (A - Bh) && RQ == (Q + multiset{x}) + (Bh - A)
    ensures found <==> hasCommon || A * (multiset{x} + Bh) != multiset{}
    ensures found ==> RP == P + (A - (multiset{x} + Bh)) && RQ == Q + ((multiset{x} + Bh) - A)
  {
    MultisetSkipAlgebraRight(x, A, Bh);
  }

  lemma MultisetSkipAlgebraRight(x: nat, A: multiset<nat>, B: multiset<nat>)
    requires x !in A
    ensures A * (multiset{x} + B) == A * B
    ensures A - (multiset{x} + B) == A - B
    ensures (multiset{x} + B) - A == multiset{x} + (B - A)
  {
    assert (A * (multiset{x} + B))[x] == 0;
  }

  lemma MultisetConsAlgebra(x: nat, A: multiset<nat>, B: multiset<nat>)
    ensures (multiset{x} + A) * (multiset{x} + B) != multiset{}
    ensures (multiset{x} + A) - (multiset{x} + B) == A - B
    ensures (multiset{x} + B) - (multiset{x} + A) == B - A
  {
    assert x in (multiset{x} + A) * (multiset{x} + B);
  }

  lemma MultisetSkipAlgebra(x: nat, A: multiset<nat>, B: multiset<nat>)
    requires x !in B
    ensures (multiset{x} + A) * B == A * B
    ensures (multiset{x} + A) - B == multiset{x} + (A - B)
    ensures B - (multiset{x} + A) == B - A
  {
    assert ((multiset{x} + A) * B)[x] == 0;
  }

  /** `common_factors(a, b)` fails exactly when the leading monomials share no
      variable; otherwise `p` and `q` are the complements of a's and b's leading
      monomial in their least common multiple. */
  lemma CommonFactorsCorrect(ns: seq<Node>, rank: seq<nat>, a: nat, b: nat)
    requires GraphOk(ns, rank) && Live(ns, a) && Live(ns, b)
    ensures var A, B := multiset(LeadingMonomial(ns, rank, a)), multiset(LeadingMonomial(ns, rank, b));
      var res := CommonFactorsSpec(ns, rank, a, b);
      (res.Common? <==> A * B != multiset{}) &&
      (res.Common? ==>
        multiset(res.f.p) == A - B && multiset(res.f.q) == B - A &&
        A + multiset(res.f.q) == B + multiset(res.f.p) &&
        res.f.aLeaf == LeadLeaf(ns, rank, a) && res.f.bLeaf == LeadLeaf(ns, rank, b))
  {
    CommonWalkCorrect(ns, rank, a, b, false, [], []);
    var nil: seq<nat> := [];
    assert multiset(nil) == multiset{};
    var A, B := multiset(LeadingMonomial(ns, rank, a)), multiset(LeadingMonomial(ns, rank, b));
    LcmSplit(A, B);
  }

  lemma LcmSplit(A: multiset<nat>, B: multiset<nat>)
    ensures A + (B - A) == B + (A - B)
  {
    forall y ensures (A + (B - A))[y] == (B + (A - B))[y] {
    }
  }

  // ---------------------------------------------------------------- gcd of the coefficients

  /** The greatest common divisor of two naturals (Euclid by subtraction). */
  function Gcd(a: nat, b: nat): nat
    decreases a + b
  {
    if a == 0 then b
    else if b == 0 then a
    else if a >= b then Gcd(a - b, b)
    else Gcd(a, b - a)
  }

  ghost predicate Divides(d: int, a: int) { exists k: int :: d * k == a }

  lemma DividesSelf(d: int)
    ensures Divides(d, d) && Divides(d, 0)
  {
    assert d * 1 == d;
    assert d * 0 == 0;
  }

  lemma DividesSum(d: int, x: int, y: int)
    requires Divides(d, x) && Divides(d, y)
    ensures Divides(d, x + y) && Divides(d, x - y)
  {
    var k1 :| d * k1 == x;
    var k2 :| d * k2 == y;
    assert d * (k1 + k2) == x + y;
    assert d * (k1 - k2) == x - y;
  }

  /** Gcd divides both arguments, is positive unless both are zero, and every common divisor divides it. */
  lemma {:induction false} GcdIsGreatest(a: nat, b: nat, d: int)
    ensures Gcd(a, b) > 0 <==> a > 0 || b > 0
    ensures Divides(Gcd(a, b), a) && Divides(Gcd(a, b), b)
    ensures Divides(d, a) && Divides(d, b) ==> Divides(d, Gcd(a, b))
    decreases a + b
  {
    var g := Gcd(a, b);
    if a == 0 {
      DividesSelf(b);
    } else if b == 0 {
      DividesSelf(a);
    } else if a >= b {
      GcdIsGreatest(a - b, b, d);
      DividesSum(g, a - b, b);
      if Divides(d, a) && Divides(d, b) {
        DividesSum(d, a, b);
      }
    } else {
      GcdIsGreatest(a, b - a, d);
      DividesSum(g, b - a, a);
      if Divides(d, a) && Divides(d, b) {
        DividesSum(d, b, a);
      }
    }
  }

  predicate IsIntegral(r: real) { r == r.Floor as real }

  function Abs(x: int): nat { if x < 0 then -x else x }

  /** The gcd does not depend on the order of its arguments. */
  lemma {:induction false} GcdSymmetric(a: nat, b: nat)
    ensures Gcd(a, b) == Gcd(b, a)
    decreases a + b
  {
    if a > 0 && b > 0 && a != b {
      if a > b {
        GcdSymmetric(a - b, b);
      } else {
        GcdSymmetric(a, b - a);
      }
    }
  }

  /** Scaling both arguments scales their gcd. */
  lemma {:induction false} GcdScale(k: nat, a: nat, b: nat)
    requires k > 0
    ensures Gcd(k * a, k * b) == k * Gcd(a, b)
    decreases a + b
  {
    if a == 0 {
      assert k * a == 0;
    } else if b == 0 {
      assert k * b == 0;
    } else if a >= b {
      assert k * a >= k * b > 0 && k * a - k * b == k * (a - b);
      GcdScale(k, a - b, b);
    } else {
      assert k * b > k * a > 0 && k * b - k * a == k * (b - a);
      GcdScale(k, a, b - a);
    }
  }

  /** The coefficients `common_factors` reports: outside mod-2 mode two
      integral coefficients are divided by their gcd. */
  function ReducedCoefficients(mod2: bool, pc: real, qc: real): (real, real)
    requires pc != 0.0 && qc != 0.0
  {
    if !mod2 && IsIntegral(pc) && IsIntegral(qc) then
      var g := Gcd(Abs(pc.Floor), Abs(qc.Floor));
      GcdIsGreatest(Abs(pc.Floor), Abs(qc.Floor), 1);
      (pc / (g as real), qc / (g as real))
    else (pc, qc)
  }

  /** An integral non-zero coefficient divided by a positive divisor of it. */
  lemma DivideIntegral(c: real, g: nat) returns (k: nat)
    requires IsIntegral(c) && c != 0.0 && g > 0 && Divides(g, Abs(c.Floor))
    ensures g * k == Abs(c.Floor) && k > 0
    ensures IsIntegral(c / (g as real)) && Abs((c / (g as real)).Floor) == k
    ensures (c / (g as real)) * (g as real) == c && (c / (g as real) > 0.0 <==> c > 0.0)
  {
    var j :| g * j == Abs(c.Floor);
    assert c.Floor != 0;
    PositiveFactor(g, j);
    k := j;
    var s: int := if c > 0.0 then k as int else -(k as int);
    SignedProduct(c.Floor, g, k, s);
    ExactQuotient(c, g, s);
  }

  /** Division by a factor of an integral real gives the other factor. */
  lemma ExactQuotient(c: real, g: nat, s: int)
    requires g > 0 && s * g == c.Floor && IsIntegral(c)
    ensures c / (g as real) == s as real && (s as real).Floor == s
    ensures (c / (g as real)) * (g as real) == c && (c / (g as real) > 0.0 <==> c > 0.0)
  {
    MulCast(s, g);
    RealDivExact(c, g as real, s as real);
    PositiveProduct(s as real, g as real, c);
  }

  lemma SignedProduct(f: int, g: nat, k: nat, s: int)
    requires g * k == Abs(f) && s == (if f > 0 then k as int else -(k as int))
    ensures s * g == f
  {
    if f <= 0 {
      assert s * g == -(g * k);
    }
  }

  /** The cofactors of the gcd are coprime. */
  lemma Cofactors(g: nat, P: nat, Q: nat, kp: nat, kq: nat)
    requires g == Gcd(P, Q) && g > 0 && g * kp == P && g * kq == Q
    ensures Gcd(kp, kq) == 1
  {
    GcdScale(g, kp, kq);
    CancelFactor(g, Gcd(kp, kq));
  }

  lemma CancelFactor(g: nat, x: nat)
    requires g > 0 && g * x == g
    ensures x == 1
  {
    assert g * (x - 1) == g * x - g;
  }

  lemma PositiveProduct(x: real, g: real, c: real)
    requires g > 0.0 && x * g == c
    ensures x > 0.0 <==> c > 0.0
  {
  }

  lemma PositiveFactor(g: int, j: int)
    requires g > 0 && g * j > 0
    ensures j > 0
  {
  }

  lemma MulCast(a: int, b: int)
    ensures (a as real) * (b as real) == (a * b) as real
  {
  }

  lemma RealDivExact(c: real, g: real, x: real)
    requires g != 0.0 && x * g == c
    ensures c / g == x
  {
  }

  lemma UnfoldReduced(pc: real, qc: real)
    requires pc != 0.0 && qc != 0.0 && IsIntegral(pc) && IsIntegral(qc)
    ensures Gcd(Abs(pc.Floor), Abs(qc.Floor)) > 0
    ensures ReducedCoefficients(false, pc, qc) ==
      (pc / (Gcd(Abs(pc.Floor), Abs(qc.Floor)) as real), qc / (Gcd(Abs(pc.Floor), Abs(qc.Floor)) as real))
  {
    GcdIsGreatest(Abs(pc.Floor), Abs(qc.Floor), 1);
  }

  /** After the division the two integral coefficients are coprime. */
  lemma ReducedCoprime(pc: real, qc: real)
    requires pc != 0.0 && qc != 0.0 && IsIntegral(pc) && IsIntegral(qc)
    ensures var (p2, q2) := ReducedCoefficients(false, pc, qc);
      IsIntegral(p2) && IsIntegral(q2) && Gcd(Abs(p2.Floor), Abs(q2.Floor)) == 1
  {
    var P, Q := Abs(pc.Floor), Abs(qc.Floor);
    var g := Gcd(P, Q);
    GcdIsGreatest(Abs(pc.Floor), Abs(qc.Floor), 1);
    UnfoldReduced(pc, qc);
    var kp := DivideIntegral(pc, g);
    var kq := DivideIntegral(qc, g);
    Cofactors(g, P, Q, kp, kq);
  }

  /** The reduced coefficients are the originals divided by a positive gcd
      (so `ScaleBack` multiplies them back), and keep their signs. */
  lemma ReducedKeepsSigns(pc: real, qc: real)
    requires pc != 0.0 && qc != 0.0 && IsIntegral(pc) && IsIntegral(qc)
    ensures ReducedCoefficients(false, pc, qc).0 > 0.0 <==> pc > 0.0
    ensures ReducedCoefficients(false, pc, qc).1 > 0.0 <==> qc > 0.0
  {
    UnfoldReduced(pc, qc);
    var g := Gcd(Abs(pc.Floor), Abs(qc.Floor));
    var r := ReducedCoefficients(false, pc, qc);
    ScaleBack(pc, g, r.0);
    ScaleBack(qc, g, r.1);
  }

  /** Dividing by a positive number and multiplying back is the identity,
      and keeps the sign. */
  lemma ScaleBack(c: real, g: nat, x: real)
    requires g > 0 && x == c / (g as real)
    ensures x * (g as real) == c && (x > 0.0 <==> c > 0.0)
  {
    PositiveProduct(x, g as real, c);
  }

  // ---------------------------------------------------------------- monomials

  datatype Monomial = Monomial(coeff: real, vars: seq<nat>)

  /** `to_monomials`: the terms of a polynomial, from the `hi` side first; each
      variable list is in increasing level order. */
  function ToMonomials(ns: seq<Node>, values: seq<real>, ghost rank: seq<nat>, level2var: seq<nat>, p: nat): seq<Monomial>
    requires Ranked(ns, rank) && ValuesIndexed(ns, values) && p < |ns|
    requires forall i | 0 <= i < |ns| && !IsValNode(ns[i]) :: ns[i].level < |level2var|
    decreases rank[p]
  {
    if IsVal(ns, p) then
      var c := ValOf(ns, values, p);
      if c != 0.0 then [Monomial(c, [])] else []
    else
      var v := level2var[ns[p].level];
      var his := ToMonomials(ns, values, rank, level2var, ns[p].hi);
      (seq(|his|, k requires 0 <= k < |his| => Monomial(his[k].coeff, his[k].vars + [v]))) +
      ToMonomials(ns, values, rank, level2var, ns[p].lo)
  }

  function MapVars(level2var: seq<nat>, ls: seq<nat>): seq<nat>
    requires forall k | 0 <= k < |ls| :: ls[k] < |level2var|
  {
    if ls == [] then [] else MapVars(level2var, ls[..|ls| - 1]) + [level2var[ls[|ls| - 1]]]
  }

  function Reverse(s: seq<nat>): seq<nat>
  {
    if s == [] then [] else Reverse(s[1..]) + [s[0]]
  }

  /** Every listed coefficient is non-zero. */
  lemma {:induction false} MonomialsNonZero(ns: seq<Node>, values: seq<real>, rank: seq<nat>, level2var: seq<nat>, p: nat)
    requires Ranked(ns, rank) && ValuesIndexed(ns, values) && p < |ns|
    requires forall i | 0 <= i < |ns| && !IsValNode(ns[i]) :: ns[i].level < |level2var|
    ensures forall k | 0 <= k < |ToMonomials(ns, values, rank, level2var, p)| ::
      ToMonomials(ns, values, rank, level2var, p)[k].coeff != 0.0
    decreases rank[p]
  {
    if !IsVal(ns, p) {
      MonomialsNonZero(ns, values, rank, level2var, ns[p].hi);
      MonomialsNonZero(ns, values, rank, level2var, ns[p].lo);
    }
  }

  /** The first monomial listed is the leading term: the leading coefficient
      times the leading monomial's variables, lowest level first. */
  lemma {:induction false} FirstMonomialIsLeading(ns: seq<Node>, values: seq<real>, rank: seq<nat>, level2var: seq<nat>, p: nat)
    requires GraphOk(ns, rank) && ValuesIndexed(ns, values) && NonZeroValues(ns, values)
    requires Live(ns, p) && p != ZeroPdd
    requires forall i | 0 <= i < |ns| && !IsValNode(ns[i]) :: ns[i].level < |level2var|
    ensures LeadLeaf(ns, rank, p) != ZeroPdd
    ensures var ms := ToMonomials(ns, values, rank, level2var, p);
      var lm := LeadingMonomial(ns, rank, p);
      (forall k | 0 <= k < |lm| :: lm[k] < |level2var|) &&
      ms != [] && ms[0] == Monomial(ValOf(ns, values, LeadLeaf(ns, rank, p)), Reverse(MapVars(level2var, lm)))
    decreases rank[p]
  {
    if !IsVal(ns, p) {
      ChildrenLive(ns, rank, p);
      var h := ns[p].hi;
      FirstMonomialIsLeading(ns, values, rank, level2var, h);
      var lmh := LeadingMonomial(ns, rank, h);
      var lm := LeadingMonomial(ns, rank, p);
      assert lm == [ns[p].level] + lmh;
      ReverseMapCons(level2var, ns[p].level, lmh);
    }
  }

  lemma ReverseMapCons(level2var: seq<nat>, l: nat, ls: seq<nat>)
    requires l < |level2var| && forall k | 0 <= k < |ls| :: ls[k] < |level2var|
    ensures Reverse(MapVars(level2var, [l] + ls)) == Reverse(MapVars(level2var, ls)) + [level2var[l]]
  {
    MapVarsCons(level2var, l, ls);
    ReverseAppend([level2var[l]], MapVars(level2var, ls));
  }

  lemma {:induction false} MapVarsCons(level2var: seq<nat>, l: nat, ls: seq<nat>)
    requires l < |level2var| && forall k | 0 <= k < |ls| :: ls[k] < |level2var|
    ensures MapVars(level2var, [l] + ls) == [level2var[l]] + MapVars(level2var, ls)
    decreases |ls|
  {
    if ls != [] {
      var init := ls[..|ls| - 1];
      assert ([l] + ls)[..|ls|] == [l] + init;
      MapVarsCons(level2var, l, init);
    }
  }

  lemma {:induction false} ReverseAppend(a: seq<nat>, b: seq<nat>)
    ensures Reverse(a + b) == Reverse(b) + Reverse(a)
    decreases |a|
  {
    if a == [] {
      assert a + b == b;
    } else {
      assert (a + b)[1..] == a[1..] + b;
      ReverseAppend(a[1..], b);
    }
  }

  // ---------------------------------------------------------------- negation

  /** `r` is the negation of `p`, node by node: two value nodes of opposite
      rationals, or two polynomial nodes at the same level whose children
      are negations of each other. */
  ghost predicate Negated(ns: seq<Node>, rank: seq<nat>, values: seq<real>, p: nat, r: nat)
    requires Ranked(ns, rank) && p < |ns| && r < |ns|
    decreases rank[p]
  {
    if IsVal(ns, p) then
      IsVal(ns, r) && ns[p].lo < |values| && ns[r].lo < |values| && values[ns[r].lo] == -values[ns[p].lo]
    else
      !IsVal(ns, r) && ns[r].level == ns[p].level &&
      Negated(ns, rank, values, ns[p].lo, ns[r].lo) && Negated(ns, rank, values, ns[p].hi, ns[r].hi)
  }

  /** Every coefficient of a list of monomials negated. */
  function NegMonomials(ms: seq<Monomial>): (ns: seq<Monomial>)
    ensures |ns| == |ms| && forall k | 0 <= k < |ms| :: ns[k] == Monomial(-ms[k].coeff, ms[k].vars)
  {
    seq(|ms|, k requires 0 <= k < |ms| => Monomial(-ms[k].coeff, ms[k].vars))
  }

  /** What a negation denotes: the terms of `r` are those of `p` with every
      coefficient negated, in the same order. */
  lemma {:induction false} NegatedMonomials(ns: seq<Node>, values: seq<real>, rank: seq<nat>, level2var: seq<nat>, p: nat, r: nat)
    requires Ranked(ns, rank) && ValuesIndexed(ns, values) && p < |ns| && r < |ns|
    requires forall i | 0 <= i < |ns| && !IsValNode(ns[i]) :: ns[i].level < |level2var|
    requires Negated(ns, rank, values, p, r)
    ensures ToMonomials(ns, values, rank, level2var, r) == NegMonomials(ToMonomials(ns, values, rank, level2var, p))
    decreases rank[p]
  {
    if IsVal(ns, p) {
      assert NegMonomials([]) == [];
      assert NegMonomials([Monomial(ValOf(ns, values, p), [])]) == [Monomial(ValOf(ns, values, r), [])];
    } else {
      var lp, hp, lr, hr := ns[p].lo, ns[p].hi, ns[r].lo, ns[r].hi;
      NegatedMonomials(ns, values, rank, level2var, lp, lr);
      NegatedMonomials(ns, values, rank, level2var, hp, hr);
      var v := level2var[ns[p].level];
      var hisP := ToMonomials(ns, values, rank, level2var, hp);
      var hisR := ToMonomials(ns, values, rank, level2var, hr);
      var upP := seq(|hisP|, k requires 0 <= k < |hisP| => Monomial(hisP[k].coeff, hisP[k].vars + [v]));
      var upR := seq(|hisR|, k requires 0 <= k < |hisR| => Monomial(hisR[k].coeff, hisR[k].vars + [v]));
      assert upR == NegMonomials(upP);
      NegMonomialsAppend(upP, ToMonomials(ns, values, rank, level2var, lp));
    }
  }

  lemma NegMonomialsAppend(a: seq<Monomial>, b: seq<Monomial>)
    ensures NegMonomials(a + b) == NegMonomials(a) + NegMonomials(b)
  {
  }

  /** Negation is symmetric: `p` is also the negation of `r`. */
  lemma {:induction false} NegatedSymmetric(ns: seq<Node>, rank: seq<nat>, values: seq<real>, p: nat, r: nat)
    requires Ranked(ns, rank) && p < |ns| && r < |ns| && Negated(ns, rank, values, p, r)
    ensures Negated(ns, rank, values, r, p)
    decreases rank[p]
  {
    if !IsVal(ns, p) {
      NegatedSymmetric(ns, rank, values, ns[p].lo, ns[r].lo);
      NegatedSymmetric(ns, rank, values, ns[p].hi, ns[r].hi);
    }
  }

  /** Two snapshots agree on a set of ids up to reference counts: the same
      level, children and index, and the same rational for a value node. */
  ghost predicate KeptOn(s: set<nat>, ns1: seq<Node>, v1: seq<real>, ns2: seq<Node>, v2: seq<real>)
  {
    forall i | i in s ::
      i < |ns1| && i < |ns2| && ns2[i].level == ns1[i].level && ns2[i].lo == ns1[i].lo &&
      ns2[i].hi == ns1[i].hi && ns2[i].index == ns1[i].index &&
      (IsValNode(ns1[i]) && ns1[i].lo < |v1| ==> ns1[i].lo < |v2| && v2[ns1[i].lo] == v1[ns1[i].lo])
  }

  /** A negation within a closed set the next snapshot keeps is still a negation there. */
  lemma {:induction false} NegatedKeptOn(s: set<nat>, ns1: seq<Node>, rk1: seq<nat>, v1: seq<real>,
                                         ns2: seq<Node>, rk2: seq<nat>, v2: seq<real>, p: nat, r: nat)
    requires Ranked(ns1, rk1) && Ranked(ns2, rk2) && Closed(ns1, s) && KeptOn(s, ns1, v1, ns2, v2)
    requires p in s && r in s && Negated(ns1, rk1, v1, p, r)
    ensures p < |ns2| && r < |ns2| && Negated(ns2, rk2, v2, p, r)
    decreases rk1[p]
  {
    if !IsVal(ns1, p) {
      NegatedKeptOn(s, ns1, rk1, v1, ns2, rk2, v2, ns1[p].lo, ns1[r].lo);
      NegatedKeptOn(s, ns1, rk1, v1, ns2, rk2, v2, ns1[p].hi, ns1[r].hi);
    }
  }

  /** Divisibility of leading monomials between nodes of a closed set the
      next snapshot keeps is the same in both snapshots. */
  lemma {:induction false} LmDividesKeptOn(s: set<nat>, ns1: seq<Node>, rk1: seq<nat>, v1: seq<real>,
                                           ns2: seq<Node>, rk2: seq<nat>, v2: seq<real>, p: nat, q: nat)
    requires Ranked(ns1, rk1) && Ranked(ns2, rk2) && Closed(ns1, s) && KeptOn(s, ns1, v1, ns2, v2)
    requires p in s && q in s
    ensures p < |ns2| && q < |ns2| && LmDivides(ns2, rk2, p, q) == LmDivides(ns1, rk1, p, q)
    decreases rk1[p] + rk1[q]
  {
    if !IsVal(ns1, p) && !IsVal(ns1, q) {
      if ns1[p].level == ns1[q].level {
        LmDividesKeptOn(s, ns1, rk1, v1, ns2, rk2, v2, ns1[p].hi, ns1[q].hi);
      } else if ns1[p].level < ns1[q].level {
        LmDividesKeptOn(s, ns1, rk1, v1, ns2, rk2, v2, p, ns1[q].hi);
      }
    }
  }
}
