/**
  Changing the variable order with `set_level2var`: the order is a
  permutation, as written the operation leaves `var2pdd` pointing at the
  nodes of the old order, and the corrected operation re-points it.
 */
module PddOrder {
  import opened PddNode
  import opened PddState

  /** A variable order: `q[l]` is the variable at level `l`, every variable once. */
  predicate IsOrder(q: seq<nat>)
  {
    (forall l | 0 <= l < |q| :: q[l] < |q|) && (forall j, k | 0 <= j < k < |q| :: q[j] != q[k])
  }

  ghost function Image(q: seq<nat>, k: nat): set<nat>
    requires k <= |q|
  {
    set l | 0 <= l < k :: q[l]
  }

  lemma {:induction false} ImageSize(q: seq<nat>, k: nat)
    requires k <= |q| && forall j, l | 0 <= j < l < |q| :: q[j] != q[l]
    ensures |Image(q, k)| == k
  {
    if k > 0 {
      ImageSize(q, k - 1);
      assert Image(q, k) == Image(q, k - 1) + {q[k - 1]};
      assert q[k - 1] !in Image(q, k - 1);
    }
  }

  function Range(n: nat): (xs: seq<nat>)
    ensures |xs| == n && forall k | 0 <= k < n :: xs[k] == k
  {
    seq(n, k requires 0 <= k < n => k)
  }

  lemma {:induction false} SubsetSize(A: set<nat>, B: set<nat>)
    requires A <= B
    ensures |A| <= |B|
  {
    if A != {} {
      var x :| x in A;
      SubsetSize(A - {x}, B - {x});
    }
  }

  /** Every variable has a level: an order is onto. */
  lemma OrderOnto(q: seq<nat>, v: nat)
    requires IsOrder(q) && v < |q|
    ensures exists l :: 0 <= l < |q| && q[l] == v
  {
    var n := |q|;
    ImageSize(q, n);
    ImageSize(Range(n), n);
    if forall l | 0 <= l < n :: q[l] != v {
      var below := Image(Range(n), n) - {v};
      forall y | y in Image(q, n) ensures y in below {
        assert Range(n)[y] == y;
      }
      assert Range(n)[v] == v;
      SubsetSize(Image(q, n), below);
    }
  }

  // ------------------------------------------------------------ set_level2var

  /** `set_level2var(level2var)` as written: for each level `l` in turn,
      `var2level[level2var[l]] := l` and `level2var[l] := level2var[l]`;
      nothing else changes, `var2pdd` included. */
  method SetLevel2VarAsWritten(a: Arena, q: seq<nat>) returns (a2: Arena)
    requires |q| == |a.l2v| == |a.v2l| && IsOrder(q)
    ensures a2 == a.(v2l := a2.v2l, l2v := q)
    ensures |a2.v2l| == |q| && forall l | 0 <= l < |q| :: a2.v2l[q[l]] == l
  {
    var v2l: seq<nat>, l2v: seq<nat> := a.v2l, a.l2v;
    var i: nat := 0;
    while i < |q|
      invariant 0 <= i <= |q| && |v2l| == |l2v| == |q|
      invariant forall k | 0 <= k < i :: v2l[q[k]] == k && l2v[k] == q[k]
      invariant forall k | i <= k < |q| :: l2v[k] == a.l2v[k]
    {
      v2l := v2l[q[i] := i];
      l2v := l2v[i := q[i]];
      i := i + 1;
    }
    assert l2v == q;
    a2 := a.(v2l := v2l, l2v := l2v);
  }

  /** With two variables a reversed order breaks the tie between `var2pdd`
      and `var2level`: node 2 stays at level 0, which now stands for
      variable 1, yet `mk_var(0)` still answers it. */
  lemma StaleVarNode()
    ensures var ns := [Node(MaxRc, 0, 0, 0, 0), Node(MaxRc, 0, 1, 0, 1), Node(MaxRc, 0, 0, 1, 2), Node(MaxRc, 1, 0, 1, 3)];
      var q := [1, 0];
      VarsOkOf(ns, [0, 1], [0, 1], [2, 3]) && IsOrder(q) &&
      forall v2l: seq<nat> | |v2l| == 2 && v2l[q[0]] == 0 && v2l[q[1]] == 1 ::
        !VarsOkOf(ns, v2l, q, [2, 3]) && q[ns[[2, 3][0]].level] == 1
  {
    var ns := [Node(MaxRc, 0, 0, 0, 0), Node(MaxRc, 0, 1, 0, 1), Node(MaxRc, 0, 0, 1, 2), Node(MaxRc, 1, 0, 1, 3)];
    forall v2l: seq<nat> | |v2l| == 2 && v2l[1] == 0 && v2l[0] == 1 ensures !VarsOkOf(ns, v2l, [1, 0], [2, 3]) {
      assert ShapeOf(ns[2]) != Shape(v2l[0], ZeroPdd, OnePdd);
    }
  }

  /** `set_level2var(level2var)` with `var2pdd` re-pointed: the node of the
      variable now at level `l` is the pinned node at level `l`, the one the
      old order gave to the variable that was at level `l`. */
  method SetLevel2Var(a: Arena, ghost rk: seq<nat>, q: seq<nat>) returns (a2: Arena)
    requires Valid(a, rk) && |q| == |a.l2v| && IsOrder(q)
    ensures Valid(a2, rk)
    ensures a2 == a.(v2l := a2.v2l, l2v := q, v2p := a2.v2p)
    ensures |a2.v2l| == |q| && forall l | 0 <= l < |q| :: a2.v2l[q[l]] == l && a2.v2p[q[l]] == a.v2p[a.l2v[l]]
  {
    assert VarsOkOf(a.nodes, a.v2l, a.l2v, a.v2p) && |a.v2l| == |a.l2v| == |a.v2p|;
    var v2l, v2p := Repoint(a.v2l, a.l2v, a.v2p, q);
    ReorderedOk(a.nodes, a.v2l, a.l2v, a.v2p, q, v2l, v2p);
    a2 := a.(v2l := v2l, l2v := q, v2p := v2p);
    VarsKeepValid(a, rk, a2);
  }

  /** The loop of `set_level2var`: level `l` goes to variable `q[l]`, which
      takes over the pinned node of the variable previously at `l`. */
  method Repoint(v2l0: seq<nat>, l2v0: seq<nat>, v2p0: seq<nat>, q: seq<nat>) returns (v2l: seq<nat>, v2p: seq<nat>)
    requires |v2l0| == |l2v0| == |v2p0| == |q| && IsOrder(q) && forall l | 0 <= l < |l2v0| :: l2v0[l] < |v2p0|
    ensures |v2l| == |v2p| == |q| && forall l | 0 <= l < |q| :: v2l[q[l]] == l && v2p[q[l]] == v2p0[l2v0[l]]
  {
    v2l, v2p := v2l0, v2p0;
    var l2v := l2v0;
    var i: nat := 0;
    while i < |q|
      invariant 0 <= i <= |q| && |v2l| == |l2v| == |v2p| == |q|
      invariant forall k | 0 <= k < i :: v2l[q[k]] == k && l2v[k] == q[k] && v2p[q[k]] == v2p0[l2v0[k]]
      invariant forall k | i <= k < |q| :: l2v[k] == l2v0[k]
    {
      v2l := v2l[q[i] := i];
      v2p := v2p[q[i] := v2p0[l2v0[i]]];
      l2v := l2v[i := q[i]];
      i := i + 1;
    }
  }

  /** Replacing the variable order by another of the same length keeps the
      manager's invariant when the variable invariant holds for it. */
  lemma VarsKeepValid(a: Arena, rk: seq<nat>, a2: Arena)
    requires Valid(a, rk) && a2 == a.(v2l := a2.v2l, l2v := a2.l2v, v2p := a2.v2p) && |a2.l2v| == |a.l2v|
    requires VarsOkOf(a2.nodes, a2.v2l, a2.l2v, a2.v2p)
    ensures Valid(a2, rk)
  {
    assert CoreOf(a.nodes, rk, a.free, a.table, a.values, a.mpq, a.freeVals, a.freeze, a.cache, a.stack,
                  a.mark, a.markLevel, a.v2l, a.l2v, a.v2p);
  }

  /** The re-pointed vectors satisfy the variable invariant again. */
  lemma ReorderedOk(ns: seq<Node>, v2l: seq<nat>, l2v: seq<nat>, v2p: seq<nat>, q: seq<nat>, v2l2: seq<nat>, v2p2: seq<nat>)
    requires VarsOkOf(ns, v2l, l2v, v2p) && |q| == |l2v| && IsOrder(q) && |v2l2| == |v2p2| == |q|
    requires forall l | 0 <= l < |q| :: v2l2[q[l]] == l && v2p2[q[l]] == v2p[l2v[l]]
    ensures VarsOkOf(ns, v2l2, q, v2p2)
  {
    forall v | 0 <= v < |q| ensures v2l2[v] < |q| && q[v2l2[v]] == v &&
      v2p2[v] < |ns| && ShapeOf(ns[v2p2[v]]) == Shape(v2l2[v], ZeroPdd, OnePdd) && ns[v2p2[v]].refcount == MaxRc
    {
      OrderOnto(q, v);
      var l :| 0 <= l < |q| && q[l] == v;
      assert v2l[l2v[l]] == l;
    }
  }
}
