/**
  The manager object. Its fields are the arena value of `PddState`, which its
  methods replace in place by the state the operations of the other modules
  compute; the rank is the ghost witness that the node graph is acyclic.
 */
module PddManager {
  import opened PddNode
  import opened PddSpec
  import opened PddState
  import PddAlloc
  import PddBuild
  import PddApply
  import PddMinus
  import PddTraverse
  import PddInit

  class Manager {
    var st: Arena
    ghost var rk: seq<nat>

    ghost predicate Valid()
      reads this
    {
      PddState.Valid(st, rk)
    }

    /** `pdd_manager(num_vars)`: the first `num_vars` variables, variable `v`
        at level `v`; the initial arena always has room for all of them. */
    constructor (numVars: nat)
      ensures Valid() && |st.v2l| == numVars && st.stack == [] && st.values == [0.0, 1.0]
      ensures forall v | 0 <= v < |st.v2l| :: st.v2l[v] == v && st.l2v[v] == v
    {
      var a;
      ghost var r;
      a, r := PddInit.Init(numVars);
      st, rk := a, r;
    }

    /** `push(b)`: protects the polynomial `b` from collection. */
    method Push(b: nat)
      requires Valid() && Live(st.nodes, b)
      modifies this
      ensures Valid() && st == PddApply.Push(old(st), b) && rk == old(rk)
      ensures PddApply.Guarded(st, rk, b)
    {
      PddApply.PushEvolved(st, rk, b);
      st := PddApply.Push(st, b);
    }

    /** `apply(p, q, op)` for addition, multiplication and reduction. */
    method Apply(p: nat, q: nat, op: nat, fuel: nat) returns (o: Outcome)
      requires Valid() && PddApply.Guarded(st, rk, p) && PddApply.Guarded(st, rk, q) && PddApply.IsApplyOp(op)
      modifies this
      ensures Valid() && PddApply.Applied(old(st), old(rk), op, p, q, st, rk, o) && st.stack == old(st.stack)
      ensures o.MemOut? ==> st.cache == map[]
      ensures o.Ok? && op == ReduceOp ==> ReducedBy(st.nodes, rk, q, o.id)
    {
      var a;
      ghost var r;
      a, r, o := PddApply.Apply(st, rk, p, q, op, fuel);
      st, rk := a, r;
    }

    /** `minus(p)`. */
    method Minus(p: nat, fuel: nat) returns (o: Outcome)
      requires Valid() && PddApply.Guarded(st, rk, p) && p < |st.nodes|
      modifies this
      ensures Valid() && PddApply.Applied(old(st), old(rk), MinusOp, p, p, st, rk, o) && st.stack == old(st.stack)
      ensures old(st.mod2) ==> o == Ok(p) && st == old(st)
      ensures !old(st.mod2) && p == ZeroPdd ==> o == Ok(ZeroPdd) && st == old(st)
      ensures o.MemOut? ==> st.cache == map[]
      ensures !old(st.mod2) && o.Ok? ==> Ranked(st.nodes, rk) && p < |st.nodes| && o.id < |st.nodes| &&
                                         Negated(st.nodes, rk, st.values, p, o.id)
    {
      var a;
      ghost var r;
      a, r, o := PddMinus.Minus(st, rk, p, fuel);
      st, rk := a, r;
    }

    /** `mk_var(i)`: the pinned node of variable `i`, reserving the variables up to `i`. */
    method MkVar(i: nat) returns (o: Outcome)
      requires Valid()
      modifies this
      ensures Valid() && (o.Ok? || o.MemOut?) && st.stack == old(st.stack)
      ensures st == old(st).(nodes := st.nodes, free := st.free, table := st.table, mpq := st.mpq, freeVals := st.freeVals,
                             cache := st.cache, isNew := st.isNew, v2l := st.v2l, l2v := st.l2v, v2p := st.v2p)
      ensures o.Ok? ==>
        i < |st.v2p| && o.id == st.v2p[i] && o.id < |st.nodes| &&
        ShapeOf(st.nodes[o.id]) == Shape(st.v2l[i], ZeroPdd, OnePdd) && st.nodes[o.id].refcount == MaxRc
      ensures i < |old(st.v2l)| ==> o == Ok(old(st.v2p)[i]) && st == old(st)
    {
      var a;
      ghost var r;
      a, r, o := PddBuild.MkVar(st, rk, i);
      st, rk := a, r;
    }

    /** `try_gc()`: collection, then an empty operation cache. */
    method TryGc()
      requires Valid()
      modifies this
      ensures Valid() && st.cache == map[] && st.stack == old(st.stack)
      ensures PddAlloc.Kept(old(st.nodes), old(rk), old(st.stack), old(st.values), st.nodes, rk, st.values)
    {
      var a;
      ghost var r;
      a, r := PddApply.GcStep(st, rk);
      st, rk := a, r;
    }

    /** `dag_size(p)`: the number of polynomial nodes reachable from `p`. */
    method DagSize(p: nat) returns (sz: nat)
      requires Valid() && p < |st.nodes|
      modifies this
      ensures Valid() && st == old(st).(mark := st.mark, markLevel := st.markLevel)
      ensures sz == |Reach(st.nodes, rk, p) - {ZeroPdd, OnePdd}|
    {
      PddApply.CoreRanked(st, rk);
      var a;
      a, sz := PddTraverse.DagSize(st, rk, p);
      PddTraverse.MarksKeepValid(st, rk, a);
      st := a;
    }

    /** `degree(p)`. */
    method Degree(p: nat) returns (d: nat)
      requires Valid() && p < |st.nodes|
      modifies this
      ensures Valid() && st == old(st).(mark := st.mark, markLevel := st.markLevel)
      ensures d == PddSpec.Degree(st.nodes, rk, p)
    {
      PddApply.CoreRanked(st, rk);
      var a;
      a, d := PddTraverse.DegreeWalk(st, rk, p);
      PddTraverse.MarksKeepValid(st, rk, a);
      st := a;
    }

    /** `free_vars(p)`: the variables of `p`, each once. */
    method FreeVars(p: nat) returns (vars: seq<nat>)
      requires Valid() && Live(st.nodes, p)
      modifies this
      ensures Valid() && st == old(st).(mark := st.mark, markLevel := st.markLevel)
      ensures forall i, j | 0 <= i < j < |vars| :: vars[i] != vars[j]
      ensures forall w :: w in vars <==> w in PddTraverse.VarsOf(st.nodes, st.l2v, Reach(st.nodes, rk, p))
    {
      var a;
      a, vars := PddTraverse.FreeVarsWalk(st, rk, p);
      st := a;
    }
  }
}
