/**
  S-polynomials: `try_spoly` looks for a common factor of the leading
  monomials of `a` and `b` and, when there is one, `spoly` forms
  `a*q*qc - b*p*pc`, with `p` and `q` the variables that complete each
  leading monomial to their least common multiple and `pc`, `qc` the
  leading coefficients. Intermediate results are kept on the stack, where
  the source keeps them in reference-counted handles.
 */
module PddSpoly {
  import opened PddNode
  import opened PddSpec
  import opened PddState
  import opened PddBuild
  import opened PddApply
  import opened PddQuery

  /** Every level names a variable of the order. */
  lemma LevelVars(a: Arena, rk: seq<nat>)
    requires Valid(a, rk)
    ensures forall l | 0 <= l < |a.l2v| :: a.l2v[l] < |a.v2l|
  {
    assert VarsOkOf(a.nodes, a.v2l, a.l2v, a.v2p);
  }

  /** The variables of a list of levels are variables of the order. */
  lemma {:induction false} MapVarsBound(l2v: seq<nat>, n: nat, ls: seq<nat>)
    requires forall l | 0 <= l < |l2v| :: l2v[l] < n
    requires forall k | 0 <= k < |ls| :: ls[k] < |l2v|
    ensures forall k | 0 <= k < |MapVars(l2v, ls)| :: MapVars(l2v, ls)[k] < n
  {
    if ls != [] {
      MapVarsBound(l2v, n, ls[..|ls| - 1]);
    }
  }

  /** The pinned node of a reserved variable is guarded, at the variable's level. */
  lemma VarIdGuarded(a: Arena, rk: seq<nat>, v: nat)
    requires Valid(a, rk) && v < |a.v2l|
    ensures v < |a.v2p| && a.v2l[v] < |a.l2v| && a.l2v[a.v2l[v]] == v && AtMost(a, rk, a.v2p[v], a.v2l[v])
  {
    assert VarsOkOf(a.nodes, a.v2l, a.l2v, a.v2p);
    VarGuarded(a, rk, a.v2l[v]);
  }

  /** One half of `spoly`: `mul(x, mk_var(vs[0])*(... *(mk_var(vs[n-1])*mk_val(c))))`,
      multiplied from the last variable on. The result is left on the stack. */
  method Multiple(a: Arena, ghost rk: seq<nat>, x: nat, vs: seq<nat>, c: real, fuel: nat)
    returns (a2: Arena, ghost rk2: seq<nat>, o: Outcome)
    requires Valid(a, rk) && Guarded(a, rk, x) && forall k | 0 <= k < |vs| :: vs[k] < |a.v2l|
    ensures Evolved(a, rk, a2, rk2)
    ensures o.Ok? ==> a2.stack == a.stack + [o.id] && Guarded(a2, rk2, o.id)
    ensures !o.Ok? ==> a2.stack == a.stack
  {
    var b, rb, ov := ImkVal(a, rk, c);
    ImkValStep(a, rk, b, rb);
    if !ov.Ok? {
      return b, rb, ov;
    }
    var r: nat := ov.id;
    PushEvolved(b, rb, r);
    var cur := Push(b, r);
    ghost var rc := rb;
    EvolvedTrans(a, rk, b, rb, cur, rc);
    var i := |vs|;
    while i > 0
      invariant 0 <= i <= |vs|
      invariant Evolved(a, rk, cur, rc) && cur.stack == a.stack + [r] && Guarded(cur, rc, r)
      decreases i
    {
      i := i - 1;
      EvolvedFrame(a, rk, cur, rc);
      var c1, rc1, ov1 := MkVar(cur, rc, vs[i]);
      VarIdGuarded(cur, rc, vs[i]);
      AtMostFacts(cur, rc, ov1.id, cur.v2l[vs[i]]);
      var d, rd, od := Times(a, rk, cur, rc, ov1.id, r, fuel);
      if !od.Ok? {
        return d, rd, od;
      }
      cur, rc, r := d, rd, od.id;
    }
    StillGuarded(a, rk, cur, rc, x);
    a2, rk2, o := Times(a, rk, cur, rc, x, r, fuel);
  }

  /** `r = mul(x, r)` for the `r` held on top of the stack, which then holds the product instead. */
  method Times(a: Arena, ghost rk: seq<nat>, cur: Arena, ghost rc: seq<nat>, x: nat, r: nat, fuel: nat)
    returns (a2: Arena, ghost rk2: seq<nat>, o: Outcome)
    requires Valid(a, rk) && Evolved(a, rk, cur, rc) && cur.stack == a.stack + [r]
    requires Guarded(cur, rc, r) && Guarded(cur, rc, x)
    ensures Evolved(a, rk, a2, rk2)
    ensures o.Ok? ==> a2.stack == a.stack + [o.id] && Guarded(a2, rk2, o.id)
    ensures !o.Ok? ==> a2.stack == a.stack
  {
    EvolvedFrame(a, rk, cur, rc);
    var d, rd, od := Apply(cur, rc, x, r, MulOp, fuel);
    EvolvedTrans(a, rk, cur, rc, d, rd);
    if !od.Ok? {
      Restored(a, rk, d, rd);
      return d.(stack := a.stack), rd, od;
    }
    AppliedAnswer(cur, rc, MulOp, x, r, d, rd, od);
    Replaced(a, rk, d, rd, od.id, Top(d.nodes, od.id));
    a2, rk2, o := d.(stack := a.stack + [od.id]), rd, od;
  }

  /** `spoly(a, b, p, q, pc, qc)`: `a*q*qc + b*p*(-pc)`, the two products
      built by `Multiple` and added. The stack is as it was afterwards. */
  method Spoly(a: Arena, ghost rk: seq<nat>, pa: nat, pb: nat, p: seq<nat>, q: seq<nat>, pc: real, qc: real, fuel: nat)
    returns (a2: Arena, ghost rk2: seq<nat>, o: Outcome)
    requires Valid(a, rk) && Guarded(a, rk, pa) && Guarded(a, rk, pb)
    requires (forall k | 0 <= k < |p| :: p[k] < |a.v2l|) && (forall k | 0 <= k < |q| :: q[k] < |a.v2l|)
    ensures Evolved(a, rk, a2, rk2) && a2.stack == a.stack
    ensures o.Ok? ==> Live(a2.nodes, o.id)
  {
    var a1, r1, o1 := Multiple(a, rk, pa, q, qc, fuel);
    if !o1.Ok? {
      return a1, r1, o1;
    }
    StillGuarded(a, rk, a1, r1, pb);
    EvolvedFrame(a, rk, a1, r1);
    var a3, r3, o3 := Multiple(a1, r1, pb, p, -pc, fuel);
    EvolvedTrans(a, rk, a1, r1, a3, r3);
    if !o3.Ok? {
      Restored(a, rk, a3, r3);
      return a3.(stack := a.stack), r3, o3;
    }
    StillGuarded(a1, r1, a3, r3, o1.id);
    var a4, r4, o4 := Apply(a3, r3, o1.id, o3.id, AddOp, fuel);
    EvolvedTrans(a, rk, a3, r3, a4, r4);
    AppliedAnswer(a3, r3, AddOp, o1.id, o3.id, a4, r4, o4);
    Restored(a, rk, a4, r4);
    a2, rk2, o := a4.(stack := a.stack), r4, o4;
  }

  /** `try_spoly(a, b, r)`: false, with `r` and the manager untouched, when
      the leading monomials of `a` and `b` share no variable; otherwise the
      S-polynomial of the common factors. The manager's `m_p`, `m_q`,
      `m_pc` and `m_qc` are locals. */
  method TrySpoly(a: Arena, ghost rk: seq<nat>, pa: nat, pb: nat, r0: nat, fuel: nat)
    returns (a2: Arena, ghost rk2: seq<nat>, found: bool, o: Outcome)
    requires Valid(a, rk) && Guarded(a, rk, pa) && Guarded(a, rk, pb)
    ensures Ranked(a.nodes, rk) && pa < |a.nodes| && pb < |a.nodes|
    ensures found == CommonFactorsSpec(a.nodes, rk, pa, pb).Common?
    ensures !found ==> a2 == a && rk2 == rk && o == Ok(r0)
    ensures Evolved(a, rk, a2, rk2) && a2.stack == a.stack
    ensures found && o.Ok? ==> Live(a2.nodes, o.id)
  {
    ValidQueries(a, rk);
    GuardedLive(a, rk, pa);
    GuardedLive(a, rk, pb);
    var p, q, pc, qc;
    found, p, q, pc, qc := CommonFactors(a.nodes, a.values, rk, a.l2v, a.mod2, pa, pb);
    if !found {
      EvolvedRefl(a, rk);
      return a, rk, false, Ok(r0);
    }
    ghost var res := CommonFactorsSpec(a.nodes, rk, pa, pb);
    LevelVars(a, rk);
    MapVarsBound(a.l2v, |a.v2l|, res.f.p);
    MapVarsBound(a.l2v, |a.v2l|, res.f.q);
    a2, rk2, o := Spoly(a, rk, pa, pb, p, q, pc, qc, fuel);
  }
}
