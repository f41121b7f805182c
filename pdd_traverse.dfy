/**
  The marking traversals of the manager: `init_mark` starts a new marking
  generation, and `dag_size`, `degree`, `tree_size` and `free_vars` walk a
  polynomial with an explicit work list, using the marks to visit each
  node once. Each is proved to compute its recursive reference definition.
  They change nothing but the marks.
 */
module PddTraverse {
  import opened PddNode
  import opened PddSpec
  import opened PddState

  /** `mark[i] == level` is the source's `is_marked(i)`. */
  ghost predicate NoneMarked(mark: seq<nat>, level: nat)
  {
    forall i | 0 <= i < |mark| :: mark[i] < level
  }

  /** `init_mark()`: the marks grow to one per node, with zeros for the new
      ones, and the 32-bit generation counter is incremented; when it wraps
      around to 0 every mark is cleared and the counter becomes 1. Either
      way no node is marked afterwards. */
  method InitMark(a: Arena) returns (a2: Arena)
    requires MarkOkOf(a.nodes, a.mark, a.markLevel)
    ensures a2 == a.(mark := a2.mark, markLevel := a2.markLevel)
    ensures MarkOkOf(a2.nodes, a2.mark, a2.markLevel) && |a2.mark| == |a.nodes| && a2.markLevel > 0
    ensures NoneMarked(a2.mark, a2.markLevel)
    ensures a.markLevel + 1 < MarkWrap ==>
      a2.markLevel == a.markLevel + 1 && a2.mark[..|a.mark|] == a.mark &&
      forall i | |a.mark| <= i < |a2.mark| :: a2.mark[i] == 0
    ensures a.markLevel + 1 == MarkWrap ==>
      a2.markLevel == 1 && forall i | 0 <= i < |a2.mark| :: a2.mark[i] == 0
  {
    var mark := a.mark + seq(|a.nodes| - |a.mark|, _ => 0);
    assert mark[..|a.mark|] == a.mark;
    var level := (a.markLevel + 1) % MarkWrap;
    if level == 0 {
      mark := seq(|mark|, _ => 0);
      level := 1;
    }
    a2 := a.(mark := mark, markLevel := level);
  }

  /** A change of the marks alone keeps the manager's invariant. */
  lemma MarksKeepValid(a: Arena, rk: seq<nat>, a2: Arena)
    requires Valid(a, rk) && a2 == a.(mark := a2.mark, markLevel := a2.markLevel)
    requires MarkOkOf(a2.nodes, a2.mark, a2.markLevel)
    ensures Valid(a2, rk)
  {
    assert CoreOf(a.nodes, rk, a.free, a.table, a.values, a.mpq, a.freeVals, a.freeze, a.cache, a.stack,
                  a.mark, a.markLevel, a.v2l, a.l2v, a.v2p);
  }

  /** `dag_size(p)`: the number of distinct nodes of `p` other than the
      constants 0 and 1, which are marked before the walk starts. */
  method DagSize(a: Arena, ghost rk: seq<nat>, p: nat) returns (a2: Arena, sz: nat)
    requires Ranked(a.nodes, rk) && MarkOkOf(a.nodes, a.mark, a.markLevel) && p < |a.nodes|
    requires 2 <= |a.nodes| && IsValNode(a.nodes[ZeroPdd]) && IsValNode(a.nodes[OnePdd])
    ensures a2 == a.(mark := a2.mark, markLevel := a2.markLevel) && MarkOkOf(a2.nodes, a2.mark, a2.markLevel)
    ensures sz == |Reach(a.nodes, rk, p) - {ZeroPdd, OnePdd}|
  {
    var b := InitMark(a);
    var mark;
    mark, sz := CountLoop(a.nodes, rk, b.mark, b.markLevel, p);
    a2 := b.(mark := mark);
    assert a2.nodes == a.nodes;
    assert a2.markLevel < MarkWrap;
    assert |a2.mark| <= |a2.nodes|;
  }

  /** Ids below `n` from `lo` on are at most `n - lo` many. */
  lemma {:induction false} CardBelow(s: set<nat>, lo: nat, n: nat)
    requires lo <= n && forall y | y in s :: lo <= y < n
    ensures |s| <= n - lo
    decreases n - lo
  {
    if n > lo && n - 1 in s {
      CardBelow(s - {n - 1}, lo, n - 1);
    } else if n > lo {
      CardBelow(s, lo, n - 1);
    } else {
      assert s == {} by {
        forall y | y in s ensures false {
        }
      }
    }
  }

  /** The children of a visited node that `dag_size` pushes: the unmarked ones, `lo` first. */
  function Pushes(ns: seq<Node>, ghost rk: seq<nat>, mark: seq<nat>, lvl: nat, r: nat): seq<nat>
    requires Ranked(ns, rk) && r < |ns| && |mark| == |ns|
  {
    if IsValNode(ns[r]) then []
    else (if mark[ns[r].lo] != lvl then [ns[r].lo] else []) + (if mark[ns[r].hi] != lvl then [ns[r].hi] else [])
  }

  /** The loop invariant of `dag_size`: the marked ids are 0, 1 and the
      counted ones, all reachable from `p`; the work list stays within the
      reachable set; and every counted node has its children marked or
      still on the work list, as has `p`. */
  ghost predicate CountInv(ns: seq<Node>, rk: seq<nat>, R: set<nat>, p: nat,
                           mark: seq<nat>, lvl: nat, todo: seq<nat>, counted: set<nat>, sz: nat)
    requires Ranked(ns, rk) && p < |ns|
  {
    CountMarks(ns, R, mark, lvl, counted, sz) && CountTodo(ns, rk, R, p, mark, lvl, todo, counted)
  }

  ghost predicate CountMarks(ns: seq<Node>, R: set<nat>, mark: seq<nat>, lvl: nat, counted: set<nat>, sz: nat)
  {
    |mark| == |ns| && (forall i | 0 <= i < |ns| :: mark[i] <= lvl) &&
    (forall i | 0 <= i < |ns| :: mark[i] == lvl <==> i in counted || i < 2) &&
    counted <= R && (forall y | y in counted :: 2 <= y < |ns|) && sz == |counted| && sz + 2 <= |ns|
  }

  ghost predicate CountTodo(ns: seq<Node>, rk: seq<nat>, R: set<nat>, p: nat,
                            mark: seq<nat>, lvl: nat, todo: seq<nat>, counted: set<nat>)
    requires Ranked(ns, rk) && p < |ns| && |mark| == |ns|
  {
    (forall y | y in counted :: y < |ns|) &&
    (forall t | 0 <= t < |todo| :: todo[t] in R) &&
    (forall y | y in counted && !IsValNode(ns[y]) ::
      (mark[ns[y].lo] == lvl || ns[y].lo in todo) && (mark[ns[y].hi] == lvl || ns[y].hi in todo)) &&
    (mark[p] == lvl || p in todo)
  }

  /** Popping a marked id keeps the invariant. */
  lemma CountSkip(ns: seq<Node>, rk: seq<nat>, R: set<nat>, p: nat,
                  mark: seq<nat>, lvl: nat, todo: seq<nat>, counted: set<nat>, sz: nat)
    requires Ranked(ns, rk) && p < |ns| && CountInv(ns, rk, R, p, mark, lvl, todo, counted, sz)
    requires todo != [] && todo[|todo| - 1] < |ns| && mark[todo[|todo| - 1]] == lvl
    ensures CountInv(ns, rk, R, p, mark, lvl, todo[..|todo| - 1], counted, sz)
  {
    assert todo == todo[..|todo| - 1] + [todo[|todo| - 1]];
  }

  /** Visiting an unmarked id: it is counted and marked, and its unmarked children are pushed. */
  lemma CountVisit(ns: seq<Node>, rk: seq<nat>, R: set<nat>, p: nat,
                   mark: seq<nat>, lvl: nat, todo: seq<nat>, counted: set<nat>, sz: nat, todo2: seq<nat>)
    requires Ranked(ns, rk) && p < |ns| && Closed(ns, R) && CountInv(ns, rk, R, p, mark, lvl, todo, counted, sz)
    requires todo != [] && todo[|todo| - 1] < |ns| && mark[todo[|todo| - 1]] != lvl
    requires todo2 == todo[..|todo| - 1] + Pushes(ns, rk, mark[todo[|todo| - 1] := lvl], lvl, todo[|todo| - 1])
    ensures var r := todo[|todo| - 1];
      CountInv(ns, rk, R, p, mark[r := lvl], lvl, todo2, counted + {r}, sz + 1)
  {
    var r := todo[|todo| - 1];
    CountVisitMarks(ns, R, mark, lvl, counted, sz, r);
    CountVisitTodo(ns, rk, R, p, mark, lvl, todo, counted, todo2);
  }

  lemma CountVisitMarks(ns: seq<Node>, R: set<nat>, mark: seq<nat>, lvl: nat, counted: set<nat>, sz: nat, r: nat)
    requires CountMarks(ns, R, mark, lvl, counted, sz) && r < |ns| && mark[r] != lvl && r in R
    ensures CountMarks(ns, R, mark[r := lvl], lvl, counted + {r}, sz + 1)
  {
    assert r !in counted && r >= 2;
    CardBelow(counted + {r}, 2, |ns|);
  }

  lemma CountVisitTodo(ns: seq<Node>, rk: seq<nat>, R: set<nat>, p: nat,
                       mark: seq<nat>, lvl: nat, todo: seq<nat>, counted: set<nat>, todo2: seq<nat>)
    requires Ranked(ns, rk) && p < |ns| && Closed(ns, R) && |mark| == |ns|
    requires CountTodo(ns, rk, R, p, mark, lvl, todo, counted)
    requires todo != [] && todo[|todo| - 1] < |ns|
    requires todo2 == todo[..|todo| - 1] + Pushes(ns, rk, mark[todo[|todo| - 1] := lvl], lvl, todo[|todo| - 1])
    ensures var r := todo[|todo| - 1];
      CountTodo(ns, rk, R, p, mark[r := lvl], lvl, todo2, counted + {r})
  {
    var r := todo[|todo| - 1];
    assert todo == todo[..|todo| - 1] + [r];
  }

  /** The work-list loop of `dag_size`, from freshly cleared marks. */
  method CountLoop(ns: seq<Node>, ghost rk: seq<nat>, mark0: seq<nat>, lvl: nat, p: nat) returns (mark: seq<nat>, sz: nat)
    requires Ranked(ns, rk) && p < |ns| && 2 <= |ns| && IsValNode(ns[ZeroPdd]) && IsValNode(ns[OnePdd])
    requires |mark0| == |ns| && NoneMarked(mark0, lvl)
    ensures |mark| == |ns| && forall i | 0 <= i < |ns| :: mark[i] <= lvl
    ensures sz == |Reach(ns, rk, p) - {ZeroPdd, OnePdd}|
  {
    mark := mark0[ZeroPdd := lvl][OnePdd := lvl];
    var todo: seq<nat> := [p];
    ghost var counted: set<nat> := {};
    ghost var R := Reach(ns, rk, p);
    ReachBounded(ns, rk, p);
    ReachIsClosed(ns, rk, p);
    sz := 0;
    while todo != []
      invariant CountInv(ns, rk, R, p, mark, lvl, todo, counted, sz)
      decreases |ns| - sz, |todo|
    {
      var r := todo[|todo| - 1];
      if mark[r] == lvl {
        CountSkip(ns, rk, R, p, mark, lvl, todo, counted, sz);
        todo := todo[..|todo| - 1];
        continue;
      }
      ghost var todo1, mark1 := todo, mark;
      todo := todo[..|todo| - 1];
      sz := sz + 1;
      mark := mark[r := lvl];
      if !IsVal(ns, r) {
        if mark[ns[r].lo] != lvl {
          todo := todo + [ns[r].lo];
        }
        if mark[ns[r].hi] != lvl {
          todo := todo + [ns[r].hi];
        }
      }
      CountVisit(ns, rk, R, p, mark1, lvl, todo1, counted, sz - 1, todo);
      counted := counted + {r};
    }
    CountDone(ns, rk, p, mark, lvl, counted, sz);
  }

  /** With the work list empty, the counted ids are exactly the reachable ones other than 0 and 1. */
  lemma CountDone(ns: seq<Node>, rk: seq<nat>, p: nat, mark: seq<nat>, lvl: nat, counted: set<nat>, sz: nat)
    requires Ranked(ns, rk) && p < |ns| && 2 <= |ns| && IsValNode(ns[ZeroPdd]) && IsValNode(ns[OnePdd])
    requires CountInv(ns, rk, Reach(ns, rk, p), p, mark, lvl, [], counted, sz)
    ensures counted == Reach(ns, rk, p) - {ZeroPdd, OnePdd}
  {
    var S := counted + {ZeroPdd, OnePdd};
    forall y | y in S ensures y < |ns| && (!IsValNode(ns[y]) ==> ns[y].lo in S && ns[y].hi in S) {
      if y in counted && !IsValNode(ns[y]) {
        var l, h := ns[y].lo, ns[y].hi;
        assert mark[l] == lvl && mark[h] == lvl;
        assert (l in counted || l < 2) && (h in counted || h < 2);
      }
    }
    ReachWithinClosed(ns, rk, S, p);
  }


  // ------------------------------------------------------------ post-order walks

  /** The shape of the work list of `degree` and `tree_size`, which leave a
      node on the list until both children are done. `done` is the marked
      set and `ex[t]` says that the entry at position `t` has pushed its
      children. An expanded entry that is not done has its children done or
      above it, and everything above it has a smaller rank; an expanded node
      that is not done is still on the list as an expanded entry; and the
      root stays at the bottom until it is done. */
  ghost predicate PostShape(ns: seq<Node>, rk: seq<nat>, mark: seq<nat>, lvl: nat, todo: seq<nat>, ex: seq<bool>,
                            expanded: set<nat>, done: set<nat>, p: nat)
    requires Ranked(ns, rk)
  {
    PostMarks(ns, mark, lvl, done) && PostBounds(ns, todo, ex, expanded) &&
    PostRanks(ns, rk, todo, ex, expanded, done) && PostChildren(ns, rk, todo, ex, expanded, done) &&
    PostPending(todo, ex, expanded, done) && ((todo != [] && todo[0] == p) || p in done)
  }

  ghost predicate PostMarks(ns: seq<Node>, mark: seq<nat>, lvl: nat, done: set<nat>)
  {
    |mark| == |ns| && (forall i | 0 <= i < |ns| :: mark[i] <= lvl) &&
    (forall i | 0 <= i < |ns| :: mark[i] == lvl <==> i in done) &&
    (forall i | i in done :: i < |ns|)
  }

  ghost predicate PostBounds(ns: seq<Node>, todo: seq<nat>, ex: seq<bool>, expanded: set<nat>)
  {
    |ex| == |todo| && (forall i | i in expanded :: i < |ns|) && (forall t | 0 <= t < |todo| :: todo[t] < |ns|)
  }

  ghost predicate PostRanks(ns: seq<Node>, rk: seq<nat>, todo: seq<nat>, ex: seq<bool>, expanded: set<nat>, done: set<nat>)
    requires Ranked(ns, rk) && PostBounds(ns, todo, ex, expanded)
  {
    forall i, j | 0 <= i < j < |todo| && ex[i] && todo[i] !in done :: rk[todo[j]] < rk[todo[i]]
  }

  ghost predicate PostChildren(ns: seq<Node>, rk: seq<nat>, todo: seq<nat>, ex: seq<bool>, expanded: set<nat>, done: set<nat>)
    requires Ranked(ns, rk) && PostBounds(ns, todo, ex, expanded)
  {
    forall j | 0 <= j < |todo| && ex[j] && todo[j] !in done ::
      !IsValNode(ns[todo[j]]) &&
      (ns[todo[j]].lo in done || ns[todo[j]].lo in todo[j + 1..]) &&
      (ns[todo[j]].hi in done || ns[todo[j]].hi in todo[j + 1..])
  }

  ghost predicate PostPending(todo: seq<nat>, ex: seq<bool>, expanded: set<nat>, done: set<nat>)
    requires |ex| == |todo|
  {
    forall x | x in expanded && x !in done :: exists t | 0 <= t < |todo| :: todo[t] == x && ex[t]
  }

  lemma PostStart(ns: seq<Node>, rk: seq<nat>, mark: seq<nat>, lvl: nat, p: nat)
    requires Ranked(ns, rk) && p < |ns| && |mark| == |ns| && NoneMarked(mark, lvl)
    ensures PostShape(ns, rk, mark, lvl, [p], [false], {}, {}, p)
  {
  }

  /** Popping a done node. */
  lemma PostPop(ns: seq<Node>, rk: seq<nat>, mark: seq<nat>, lvl: nat, todo: seq<nat>, ex: seq<bool>,
                expanded: set<nat>, done: set<nat>, p: nat)
    requires Ranked(ns, rk) && PostShape(ns, rk, mark, lvl, todo, ex, expanded, done, p)
    requires todo != [] && todo[|todo| - 1] in done
    ensures PostShape(ns, rk, mark, lvl, todo[..|todo| - 1], ex[..|todo| - 1], expanded, done, p)
  {
    var n := |todo| - 1;
    var t2 := todo[..n];
    forall j | 0 <= j < n && ex[j] && t2[j] !in done
      ensures (ns[t2[j]].lo in done || ns[t2[j]].lo in t2[j + 1..]) && (ns[t2[j]].hi in done || ns[t2[j]].hi in t2[j + 1..])
    {
      assert todo[j + 1..] == t2[j + 1..] + [todo[n]];
    }
    forall x | x in expanded && x !in done ensures exists t | 0 <= t < n :: t2[t] == x && ex[t] {
      var t :| 0 <= t < |todo| && todo[t] == x && ex[t];
      assert t < n;
    }
  }

  /** Marking the node on top of the list. */
  lemma PostMark(ns: seq<Node>, rk: seq<nat>, mark: seq<nat>, lvl: nat, todo: seq<nat>, ex: seq<bool>,
                 expanded: set<nat>, done: set<nat>, p: nat)
    requires Ranked(ns, rk) && PostShape(ns, rk, mark, lvl, todo, ex, expanded, done, p)
    requires todo != [] && todo[|todo| - 1] !in done
    ensures var r := todo[|todo| - 1];
      r < |ns| && PostShape(ns, rk, mark[r := lvl], lvl, todo, ex, expanded, done + {r}, p)
  {
    var r := todo[|todo| - 1];
    forall x | x in expanded && x !in done + {r} ensures exists t | 0 <= t < |todo| :: todo[t] == x && ex[t] {
    }
  }

  /** Pushing both children of the unfinished node on top, which is expanded for the first time. */
  lemma PostExpand(ns: seq<Node>, rk: seq<nat>, mark: seq<nat>, lvl: nat, todo: seq<nat>, ex: seq<bool>,
                   expanded: set<nat>, done: set<nat>, p: nat)
    requires Ranked(ns, rk) && PostShape(ns, rk, mark, lvl, todo, ex, expanded, done, p)
    requires todo != [] && todo[|todo| - 1] !in done && !IsValNode(ns[todo[|todo| - 1]])
    requires !(ns[todo[|todo| - 1]].lo in done && ns[todo[|todo| - 1]].hi in done)
    ensures var r, n := todo[|todo| - 1], |todo| - 1;
      r !in expanded &&
      PostShape(ns, rk, mark, lvl, todo + [ns[r].lo, ns[r].hi], ex[n := true] + [false, false], expanded + {r}, done, p)
  {
    var n := |todo| - 1;
    var r := todo[n];
    TopNotExpanded(ns, rk, todo, ex, expanded, done);
    ExpandRanks(ns, rk, todo, ex, expanded, done);
    ExpandChildren(ns, rk, todo, ex, expanded, done);
    ExpandPending(todo, ex, expanded, done, ns[r].lo, ns[r].hi);
  }

  /** The top node has not been expanded before: an earlier expansion would
      either have finished its children or sit below it with a larger rank. */
  lemma TopNotExpanded(ns: seq<Node>, rk: seq<nat>, todo: seq<nat>, ex: seq<bool>, expanded: set<nat>, done: set<nat>)
    requires Ranked(ns, rk) && PostBounds(ns, todo, ex, expanded)
    requires PostRanks(ns, rk, todo, ex, expanded, done) && PostChildren(ns, rk, todo, ex, expanded, done)
    requires PostPending(todo, ex, expanded, done)
    requires todo != [] && todo[|todo| - 1] !in done && !IsValNode(ns[todo[|todo| - 1]])
    requires !(ns[todo[|todo| - 1]].lo in done && ns[todo[|todo| - 1]].hi in done)
    ensures todo[|todo| - 1] !in expanded
  {
    var n := |todo| - 1;
    assert todo[n + 1..] == [];
    assert !ex[n];
    assert forall k | 0 <= k < |todo| && ex[k] :: todo[k] != todo[n];
  }

  lemma ExpandRanks(ns: seq<Node>, rk: seq<nat>, todo: seq<nat>, ex: seq<bool>, expanded: set<nat>, done: set<nat>)
    requires Ranked(ns, rk) && PostBounds(ns, todo, ex, expanded) && PostRanks(ns, rk, todo, ex, expanded, done)
    requires todo != [] && !IsValNode(ns[todo[|todo| - 1]])
    ensures var r, n := todo[|todo| - 1], |todo| - 1;
      var t2, e2 := todo + [ns[r].lo, ns[r].hi], ex[n := true] + [false, false];
      PostBounds(ns, t2, e2, expanded + {r}) && PostRanks(ns, rk, t2, e2, expanded + {r}, done)
  {
    var n := |todo| - 1;
    var r := todo[n];
    var t2, e2 := todo + [ns[r].lo, ns[r].hi], ex[n := true] + [false, false];
    forall i, j | 0 <= i < j < |t2| && e2[i] && t2[i] !in done ensures rk[t2[j]] < rk[t2[i]] {
      if i < n && j > n {
        assert rk[todo[n]] < rk[todo[i]];
      }
    }
  }

  lemma ExpandChildren(ns: seq<Node>, rk: seq<nat>, todo: seq<nat>, ex: seq<bool>, expanded: set<nat>, done: set<nat>)
    requires Ranked(ns, rk) && PostBounds(ns, todo, ex, expanded) && PostChildren(ns, rk, todo, ex, expanded, done)
    requires todo != [] && !IsValNode(ns[todo[|todo| - 1]])
    ensures var r, n := todo[|todo| - 1], |todo| - 1;
      var t2, e2 := todo + [ns[r].lo, ns[r].hi], ex[n := true] + [false, false];
      PostBounds(ns, t2, e2, expanded + {r}) && PostChildren(ns, rk, t2, e2, expanded + {r}, done)
  {
    var n := |todo| - 1;
    var r := todo[n];
    var l, h := ns[r].lo, ns[r].hi;
    var t2, e2 := todo + [l, h], ex[n := true] + [false, false];
    assert t2[n + 1..] == [l, h];
    forall j | 0 <= j < |t2| && e2[j] && t2[j] !in done
      ensures (ns[t2[j]].lo in done || ns[t2[j]].lo in t2[j + 1..]) && (ns[t2[j]].hi in done || ns[t2[j]].hi in t2[j + 1..])
    {
      if j < n {
        assert t2[j + 1..] == todo[j + 1..] + [l, h];
      }
    }
  }

  lemma ExpandPending(todo: seq<nat>, ex: seq<bool>, expanded: set<nat>, done: set<nat>, l: nat, h: nat)
    requires |ex| == |todo| && PostPending(todo, ex, expanded, done) && todo != []
    ensures var r, n := todo[|todo| - 1], |todo| - 1;
      PostPending(todo + [l, h], ex[n := true] + [false, false], expanded + {r}, done)
  {
    var n := |todo| - 1;
    var t2, e2 := todo + [l, h], ex[n := true] + [false, false];
    forall x | x in expanded + {todo[n]} && x !in done ensures exists t | 0 <= t < |t2| :: t2[t] == x && e2[t] {
      if x == todo[n] {
        assert t2[n] == x && e2[n];
      } else {
        var t :| 0 <= t < |todo| && todo[t] == x && ex[t];
        assert t2[t] == x && e2[t];
      }
    }
  }

  /** `degree(p)`: `init_mark`, then the post-order walk. */
  method DegreeWalk(a: Arena, ghost rk: seq<nat>, p: nat) returns (a2: Arena, d: nat)
    requires Ranked(a.nodes, rk) && MarkOkOf(a.nodes, a.mark, a.markLevel) && p < |a.nodes|
    ensures a2 == a.(mark := a2.mark, markLevel := a2.markLevel) && MarkOkOf(a2.nodes, a2.mark, a2.markLevel)
    ensures d == Degree(a.nodes, rk, p)
  {
    var b := InitMark(a);
    var mark;
    mark, d := DegreeLoop(a.nodes, rk, b.mark, b.markLevel, p);
    a2 := b.(mark := mark);
    assert a2.nodes == a.nodes && a2.markLevel < MarkWrap;
  }

  /** The work-list loop of `degree`: a node stays on the list until both
      children are marked, and is then marked with its degree, the larger
      of its `lo` child's degree and one more than its `hi` child's. The
      manager's `m_degree` vector is the local `deg`. */
  method DegreeLoop(ns: seq<Node>, ghost rk: seq<nat>, mark0: seq<nat>, lvl: nat, p: nat) returns (mark: seq<nat>, d: nat)
    requires Ranked(ns, rk) && p < |ns| && |mark0| == |ns| && NoneMarked(mark0, lvl)
    ensures |mark| == |ns| && forall i | 0 <= i < |ns| :: mark[i] <= lvl
    ensures d == Degree(ns, rk, p)
  {
    mark := mark0;
    var deg: seq<nat> := seq(|ns|, _ => 0);
    var todo: seq<nat> := [p];
    ghost var ex: seq<bool> := [false];
    ghost var expanded: set<nat> := {};
    ghost var done: set<nat> := {};
    PostStart(ns, rk, mark, lvl, p);
    while todo != []
      invariant PostShape(ns, rk, mark, lvl, todo, ex, expanded, done, p)
      invariant |expanded| <= |ns| && |done| <= |ns|
      invariant DegreesKnown(ns, rk, deg, done)
      decreases |ns| - |expanded|, |ns| - |done|, |todo|
    {
      mark, todo, deg, ex, expanded, done := DegreeVisit(ns, rk, lvl, p, mark, todo, deg, ex, expanded, done);
    }
    d := deg[p];
  }

  /** Marking the unmarked node on top: one more node is done. */
  lemma PostDone(ns: seq<Node>, rk: seq<nat>, mark: seq<nat>, lvl: nat, todo: seq<nat>, ex: seq<bool>,
                 expanded: set<nat>, done: set<nat>, p: nat)
    requires Ranked(ns, rk) && PostShape(ns, rk, mark, lvl, todo, ex, expanded, done, p)
    requires todo != [] && todo[|todo| - 1] < |ns| && mark[todo[|todo| - 1]] != lvl
    ensures var r := todo[|todo| - 1];
      PostShape(ns, rk, mark[r := lvl], lvl, todo, ex, expanded, done + {r}, p) &&
      |done| < |done + {r}| <= |ns|
  {
    var r := todo[|todo| - 1];
    PostMark(ns, rk, mark, lvl, todo, ex, expanded, done, p);
    CardBelow(done + {r}, 0, |ns|);
  }

  /** Expanding the unmarked node on top whose children are not both marked:
      one more node is expanded. */
  lemma PostGrow(ns: seq<Node>, rk: seq<nat>, mark: seq<nat>, lvl: nat, todo: seq<nat>, ex: seq<bool>,
                 expanded: set<nat>, done: set<nat>, p: nat)
    requires Ranked(ns, rk) && PostShape(ns, rk, mark, lvl, todo, ex, expanded, done, p)
    requires todo != [] && todo[|todo| - 1] < |ns| && mark[todo[|todo| - 1]] != lvl && !IsValNode(ns[todo[|todo| - 1]])
    requires mark[ns[todo[|todo| - 1]].lo] != lvl || mark[ns[todo[|todo| - 1]].hi] != lvl
    ensures var r, n := todo[|todo| - 1], |todo| - 1;
      PostShape(ns, rk, mark, lvl, todo + [ns[r].lo, ns[r].hi], ex[n := true] + [false, false], expanded + {r}, done, p) &&
      |expanded| < |expanded + {r}| <= |ns|
  {
    var r := todo[|todo| - 1];
    PostExpand(ns, rk, mark, lvl, todo, ex, expanded, done, p);
    CardBelow(expanded + {r}, 0, |ns|);
  }

  /** The walks' progress: more nodes expanded, or as many and more done,
      or as many of both and a shorter work list. */
  ghost predicate Progress(n: nat, expanded: set<nat>, done: set<nat>, todo: seq<nat>,
                           expanded2: set<nat>, done2: set<nat>, todo2: seq<nat>)
  {
    |expanded2| <= n && |done2| <= n &&
    (|expanded2| > |expanded| ||
     (|expanded2| == |expanded| && (|done2| > |done| || (|done2| == |done| && |todo2| < |todo|))))
  }

  /** One pass of the `degree` loop: pop a marked entry, mark a value with
      degree 0, push the children of an unfinished node, or mark a node whose
      children are both marked with its degree. */
  method DegreeVisit(ns: seq<Node>, ghost rk: seq<nat>, lvl: nat, ghost p: nat, mark: seq<nat>, todo: seq<nat>, deg: seq<nat>,
                     ghost ex: seq<bool>, ghost expanded: set<nat>, ghost done: set<nat>)
    returns (mark2: seq<nat>, todo2: seq<nat>, deg2: seq<nat>,
             ghost ex2: seq<bool>, ghost expanded2: set<nat>, ghost done2: set<nat>)
    requires Ranked(ns, rk) && todo != [] && PostShape(ns, rk, mark, lvl, todo, ex, expanded, done, p)
    requires |expanded| <= |ns| && |done| <= |ns| && DegreesKnown(ns, rk, deg, done)
    ensures PostShape(ns, rk, mark2, lvl, todo2, ex2, expanded2, done2, p)
    ensures DegreesKnown(ns, rk, deg2, done2)
    ensures Progress(|ns|, expanded, done, todo, expanded2, done2, todo2)
  {
    var n := |todo| - 1;
    var r := todo[n];
    mark2, todo2, deg2, ex2, expanded2, done2 := mark, todo, deg, ex, expanded, done;
    if mark[r] == lvl {
      PostPop(ns, rk, mark, lvl, todo, ex, expanded, done, p);
      todo2, ex2 := todo[..n], ex[..n];
    } else if IsVal(ns, r) {
      PostDone(ns, rk, mark, lvl, todo, ex, expanded, done, p);
      DegreeStep(ns, rk, deg, done, r, 0);
      deg2 := deg[r := 0];
      mark2, done2 := mark[r := lvl], done + {r};
    } else if mark[ns[r].lo] != lvl || mark[ns[r].hi] != lvl {
      PostGrow(ns, rk, mark, lvl, todo, ex, expanded, done, p);
      todo2, ex2, expanded2 := todo + [ns[r].lo, ns[r].hi], ex[n := true] + [false, false], expanded + {r};
    } else {
      PostDone(ns, rk, mark, lvl, todo, ex, expanded, done, p);
      var dl, dh := deg[ns[r].lo], deg[ns[r].hi] + 1;
      DegreeStep(ns, rk, deg, done, r, if dl < dh then dh else dl);
      deg2 := deg[r := if dl < dh then dh else dl];
      mark2, done2 := mark[r := lvl], done + {r};
    }
  }

  /** `deg` holds the degree of every done node. */
  ghost predicate DegreesKnown(ns: seq<Node>, rk: seq<nat>, deg: seq<nat>, done: set<nat>)
    requires Ranked(ns, rk)
  {
    |deg| == |ns| && forall i | i in done :: i < |ns| && deg[i] == Degree(ns, rk, i)
  }

  /** Recording the degree of a value, or of a node whose children are done. */
  lemma DegreeStep(ns: seq<Node>, rk: seq<nat>, deg: seq<nat>, done: set<nat>, r: nat, d: nat)
    requires Ranked(ns, rk) && DegreesKnown(ns, rk, deg, done) && r < |ns|
    requires IsVal(ns, r) ==> d == 0
    requires !IsVal(ns, r) ==>
      ns[r].lo in done && ns[r].hi in done &&
      d == (if deg[ns[r].lo] < deg[ns[r].hi] + 1 then deg[ns[r].hi] + 1 else deg[ns[r].lo])
    ensures DegreesKnown(ns, rk, deg[r := d], done + {r})
  {
    assert d == Degree(ns, rk, r);
  }

  /** `tree_size(p)`: `init_mark`, then the post-order walk. */
  method TreeSizeWalk(a: Arena, ghost rk: seq<nat>, p: nat) returns (a2: Arena, sz: nat)
    requires Ranked(a.nodes, rk) && MarkOkOf(a.nodes, a.mark, a.markLevel) && p < |a.nodes|
    ensures a2 == a.(mark := a2.mark, markLevel := a2.markLevel) && MarkOkOf(a2.nodes, a2.mark, a2.markLevel)
    ensures sz == TreeSize(a.nodes, rk, p)
  {
    var b := InitMark(a);
    var mark;
    mark, sz := TreeSizeLoop(a.nodes, rk, b.mark, b.markLevel, p);
    a2 := b.(mark := mark);
    assert a2.nodes == a.nodes && a2.markLevel < MarkWrap;
  }

  /** The work-list loop of `tree_size`, the same walk as `degree`'s: a
      value counts one, an inner node one more than its two children. The
      manager's `m_tree_size` vector is the local `ts`. */
  method TreeSizeLoop(ns: seq<Node>, ghost rk: seq<nat>, mark0: seq<nat>, lvl: nat, p: nat) returns (mark: seq<nat>, sz: nat)
    requires Ranked(ns, rk) && p < |ns| && |mark0| == |ns| && NoneMarked(mark0, lvl)
    ensures |mark| == |ns| && forall i | 0 <= i < |ns| :: mark[i] <= lvl
    ensures sz == TreeSize(ns, rk, p)
  {
    mark := mark0;
    var ts: seq<nat> := seq(|ns|, _ => 0);
    var todo: seq<nat> := [p];
    ghost var ex: seq<bool> := [false];
    ghost var expanded: set<nat> := {};
    ghost var done: set<nat> := {};
    PostStart(ns, rk, mark, lvl, p);
    while todo != []
      invariant PostShape(ns, rk, mark, lvl, todo, ex, expanded, done, p)
      invariant |expanded| <= |ns| && |done| <= |ns|
      invariant SizesKnown(ns, rk, ts, done)
      decreases |ns| - |expanded|, |ns| - |done|, |todo|
    {
      mark, todo, ts, ex, expanded, done := SizeVisit(ns, rk, lvl, p, mark, todo, ts, ex, expanded, done);
    }
    sz := ts[p];
  }

  /** One pass of the `tree_size` loop, as `DegreeVisit` with sizes. */
  method SizeVisit(ns: seq<Node>, ghost rk: seq<nat>, lvl: nat, ghost p: nat, mark: seq<nat>, todo: seq<nat>, ts: seq<nat>,
                   ghost ex: seq<bool>, ghost expanded: set<nat>, ghost done: set<nat>)
    returns (mark2: seq<nat>, todo2: seq<nat>, ts2: seq<nat>,
             ghost ex2: seq<bool>, ghost expanded2: set<nat>, ghost done2: set<nat>)
    requires Ranked(ns, rk) && todo != [] && PostShape(ns, rk, mark, lvl, todo, ex, expanded, done, p)
    requires |expanded| <= |ns| && |done| <= |ns| && SizesKnown(ns, rk, ts, done)
    ensures PostShape(ns, rk, mark2, lvl, todo2, ex2, expanded2, done2, p)
    ensures SizesKnown(ns, rk, ts2, done2)
    ensures Progress(|ns|, expanded, done, todo, expanded2, done2, todo2)
  {
    var n := |todo| - 1;
    var r := todo[n];
    mark2, todo2, ts2, ex2, expanded2, done2 := mark, todo, ts, ex, expanded, done;
    if mark[r] == lvl {
      PostPop(ns, rk, mark, lvl, todo, ex, expanded, done, p);
      todo2, ex2 := todo[..n], ex[..n];
    } else if IsVal(ns, r) {
      PostDone(ns, rk, mark, lvl, todo, ex, expanded, done, p);
      SizeStep(ns, rk, ts, done, r, 1);
      ts2 := ts[r := 1];
      mark2, done2 := mark[r := lvl], done + {r};
    } else if mark[ns[r].lo] != lvl || mark[ns[r].hi] != lvl {
      PostGrow(ns, rk, mark, lvl, todo, ex, expanded, done, p);
      todo2, ex2, expanded2 := todo + [ns[r].lo, ns[r].hi], ex[n := true] + [false, false], expanded + {r};
    } else {
      PostDone(ns, rk, mark, lvl, todo, ex, expanded, done, p);
      SizeStep(ns, rk, ts, done, r, 1 + ts[ns[r].lo] + ts[ns[r].hi]);
      ts2 := ts[r := 1 + ts[ns[r].lo] + ts[ns[r].hi]];
      mark2, done2 := mark[r := lvl], done + {r};
    }
  }

  /** `ts` holds the tree size of every done node. */
  ghost predicate SizesKnown(ns: seq<Node>, rk: seq<nat>, ts: seq<nat>, done: set<nat>)
    requires Ranked(ns, rk)
  {
    |ts| == |ns| && forall i | i in done :: i < |ns| && ts[i] == TreeSize(ns, rk, i)
  }

  /** Recording the tree size of a value, or of a node whose children are done. */
  lemma SizeStep(ns: seq<Node>, rk: seq<nat>, ts: seq<nat>, done: set<nat>, r: nat, s: nat)
    requires Ranked(ns, rk) && SizesKnown(ns, rk, ts, done) && r < |ns|
    requires IsVal(ns, r) ==> s == 1
    requires !IsVal(ns, r) ==> ns[r].lo in done && ns[r].hi in done && s == 1 + ts[ns[r].lo] + ts[ns[r].hi]
    ensures SizesKnown(ns, rk, ts[r := s], done + {r})
  {
    assert s == TreeSize(ns, rk, r);
  }


  // ------------------------------------------------------------ free variables

  /** `var(x)`: the variable at the level of `x`. */
  function VarOf(ns: seq<Node>, l2v: seq<nat>, x: nat): nat
    requires x < |ns| && ns[x].level < |l2v|
  {
    l2v[ns[x].level]
  }

  /** The variables of the inner nodes of `s`. */
  ghost function VarsOf(ns: seq<Node>, l2v: seq<nat>, s: set<nat>): set<nat>
  {
    set x | x in s && x < |ns| && !IsValNode(ns[x]) && ns[x].level < |l2v| :: VarOf(ns, l2v, x)
  }

  /** The pinned node of the variable at each level is at that level, with children 0 and 1. */
  ghost predicate VarTable(ns: seq<Node>, l2v: seq<nat>, v2p: seq<nat>)
  {
    forall l | 0 <= l < |l2v| ::
      l2v[l] < |v2p| && v2p[l2v[l]] < |ns| && ShapeOf(ns[v2p[l2v[l]]]) == Shape(l, ZeroPdd, OnePdd)
  }

  /** `free_vars(p)`: `init_mark`, then the walk. The manager's
      `m_free_vars` vector is the result. */
  method FreeVarsWalk(a: Arena, ghost rk: seq<nat>, p: nat) returns (a2: Arena, vars: seq<nat>)
    requires Valid(a, rk) && Live(a.nodes, p)
    ensures a2 == a.(mark := a2.mark, markLevel := a2.markLevel) && Valid(a2, rk)
    ensures forall i, j | 0 <= i < j < |vars| :: vars[i] != vars[j]
    ensures forall w :: w in vars <==> w in VarsOf(a.nodes, a.l2v, Reach(a.nodes, rk, p))
  {
    assert Core(a, rk);
    assert CoreOf(a.nodes, rk, a.free, a.table, a.values, a.mpq, a.freeVals, a.freeze, a.cache, a.stack,
                  a.mark, a.markLevel, a.v2l, a.l2v, a.v2p);
    assert VarTable(a.nodes, a.l2v, a.v2p) by {
      forall l | 0 <= l < |a.l2v|
        ensures a.l2v[l] < |a.v2p| && a.v2p[a.l2v[l]] < |a.nodes| &&
                ShapeOf(a.nodes[a.v2p[a.l2v[l]]]) == Shape(l, ZeroPdd, OnePdd)
      {
        assert a.l2v[l] < |a.v2l|;
      }
    }
    var b := InitMark(a);
    var mark;
    mark, vars := FreeLoop(a.nodes, rk, a.l2v, a.v2p, b.mark, b.markLevel, p);
    a2 := b.(mark := mark);
    assert a2.nodes == a.nodes && a2.markLevel < MarkWrap;
    MarksKeepValid(a, rk, a2);
  }

  /** The work-list loop of `free_vars`: each unmarked inner node is
      marked together with the pinned node of its variable, and the
      variable is recorded unless that pinned node was marked already. */
  method FreeLoop(ns: seq<Node>, ghost rk: seq<nat>, l2v: seq<nat>, v2p: seq<nat>, mark0: seq<nat>, lvl: nat, p: nat)
    returns (mark: seq<nat>, vars: seq<nat>)
    requires GraphOk(ns, rk) && LevelsBelowOf(ns, |l2v|) && VarTable(ns, l2v, v2p) && Live(ns, p)
    requires 2 <= |ns| && IsValNode(ns[ZeroPdd]) && IsValNode(ns[OnePdd])
    requires |mark0| == |ns| && NoneMarked(mark0, lvl)
    ensures |mark| == |ns| && forall i | 0 <= i < |ns| :: mark[i] <= lvl
    ensures forall i, j | 0 <= i < j < |vars| :: vars[i] != vars[j]
    ensures forall w :: w in vars <==> w in VarsOf(ns, l2v, Reach(ns, rk, p))
  {
    mark := mark0;
    vars := [];
    var todo: seq<nat> := [p];
    ghost var visited: set<nat> := {};
    ghost var wit: seq<nat> := [];
    ghost var R := Reach(ns, rk, p);
    assert p in R;
    ReachIsClosed(ns, rk, p);
    while todo != []
      invariant FreeMarks(ns, l2v, v2p, mark, lvl, visited, vars, wit)
      invariant FreeTodo(ns, rk, R, p, mark, lvl, todo, visited)
      invariant |visited| <= |ns|
      decreases |ns| - |visited|, |todo|
    {
      mark, todo, vars, visited, wit := FreeStep(ns, rk, l2v, v2p, mark, lvl, todo, vars, visited, wit, R, p);
    }
    FreeDone(ns, rk, l2v, v2p, p, mark, lvl, visited, vars, wit);
  }

  /** One pass of the `free_vars` loop: the entry on top is popped if it is
      a value or marked, and visited otherwise. */
  method FreeStep(ns: seq<Node>, ghost rk: seq<nat>, l2v: seq<nat>, v2p: seq<nat>, mark: seq<nat>, lvl: nat,
                  todo: seq<nat>, vars: seq<nat>, ghost visited: set<nat>, ghost wit: seq<nat>, ghost R: set<nat>, ghost p: nat)
    returns (mark2: seq<nat>, todo2: seq<nat>, vars2: seq<nat>, ghost visited2: set<nat>, ghost wit2: seq<nat>)
    requires GraphOk(ns, rk) && LevelsBelowOf(ns, |l2v|) && VarTable(ns, l2v, v2p) && p < |ns| && Closed(ns, R)
    requires FreeMarks(ns, l2v, v2p, mark, lvl, visited, vars, wit) && FreeTodo(ns, rk, R, p, mark, lvl, todo, visited)
    requires todo != [] && |visited| <= |ns|
    ensures FreeMarks(ns, l2v, v2p, mark2, lvl, visited2, vars2, wit2) && FreeTodo(ns, rk, R, p, mark2, lvl, todo2, visited2)
    ensures |visited| < |visited2| <= |ns| || (visited2 == visited && |todo2| < |todo|)
  {
    var n := |todo| - 1;
    var r := todo[n];
    if IsVal(ns, r) || mark[r] == lvl {
      FreeSkip(ns, rk, R, p, mark, lvl, todo, visited);
      return mark, todo[..n], vars, visited, wit;
    }
    VisitedGrows(ns, l2v, v2p, mark, lvl, visited, r);
    mark2, todo2, vars2, wit2 := FreeVisit(ns, rk, l2v, v2p, mark, lvl, todo, vars, visited, wit, R, p);
    visited2 := visited + {r};
  }

  /** Visiting an unmarked node adds it to the visited ones, which stay ids. */
  lemma VisitedGrows(ns: seq<Node>, l2v: seq<nat>, v2p: seq<nat>, mark: seq<nat>, lvl: nat, visited: set<nat>, r: nat)
    requires FreeMarked(ns, l2v, v2p, mark, lvl, visited) && r < |ns| && mark[r] != lvl
    ensures |visited| < |visited + {r}| <= |ns|
  {
    assert r !in visited;
    CardBelow(visited + {r}, 0, |ns|);
  }

  /** One visit of `free_vars`: the unmarked inner node `r` on top of the
      list is popped and marked with the pinned node `v` of its variable,
      which is recorded if `v` was unmarked, and the unmarked children of
      `r` are pushed, `lo` first. */
  method FreeVisit(ns: seq<Node>, ghost rk: seq<nat>, l2v: seq<nat>, v2p: seq<nat>, mark: seq<nat>, lvl: nat,
                   todo: seq<nat>, vars: seq<nat>, ghost visited: set<nat>, ghost wit: seq<nat>, ghost R: set<nat>, ghost p: nat)
    returns (mark2: seq<nat>, todo2: seq<nat>, vars2: seq<nat>, ghost wit2: seq<nat>)
    requires GraphOk(ns, rk) && LevelsBelowOf(ns, |l2v|) && VarTable(ns, l2v, v2p) && p < |ns| && Closed(ns, R)
    requires FreeMarks(ns, l2v, v2p, mark, lvl, visited, vars, wit) && FreeTodo(ns, rk, R, p, mark, lvl, todo, visited)
    requires todo != [] && !IsValNode(ns[todo[|todo| - 1]]) && mark[todo[|todo| - 1]] != lvl
    ensures var r := todo[|todo| - 1];
      FreeMarks(ns, l2v, v2p, mark2, lvl, visited + {r}, vars2, wit2) &&
      FreeTodo(ns, rk, R, p, mark2, lvl, todo2, visited + {r})
  {
    var n := |todo| - 1;
    var r := todo[n];
    VisitFacts(ns, rk, l2v, v2p, R, todo, r);
    var v := v2p[VarOf(ns, l2v, r)];
    vars2, wit2 := vars, wit;
    if mark[v] != lvl {
      vars2, wit2 := vars + [VarOf(ns, l2v, r)], wit + [r];
    }
    mark2 := mark[r := lvl][v := lvl];
    FreeVisitMarks(ns, l2v, v2p, mark, lvl, visited, vars, wit, r, vars2, wit2);
    FreeVisitTodo(ns, rk, R, p, mark, lvl, todo, visited, v);
    todo2 := todo[..n] + Pushes(ns, rk, mark2, lvl, r);
  }

  /** The top of the list is live; when it is an inner node its level names
      a variable whose pinned node exists. */
  lemma VisitFacts(ns: seq<Node>, rk: seq<nat>, l2v: seq<nat>, v2p: seq<nat>, R: set<nat>, todo: seq<nat>, r: nat)
    requires LevelsBelowOf(ns, |l2v|) && VarTable(ns, l2v, v2p)
    requires forall t | 0 <= t < |todo| :: todo[t] in R && Live(ns, todo[t])
    requires todo != [] && r == todo[|todo| - 1] && r < |ns| && !IsValNode(ns[r])
    ensures ns[r].hi != 0 && ns[r].level < |l2v| && VarOf(ns, l2v, r) < |v2p| && v2p[VarOf(ns, l2v, r)] < |ns|
  {
    assert Live(ns, todo[|todo| - 1]);
  }

  /** Every node reachable from a live node is live. */
  lemma {:induction false} ReachLive(ns: seq<Node>, rk: seq<nat>, p: nat)
    requires GraphOk(ns, rk) && Live(ns, p)
    ensures forall y | y in Reach(ns, rk, p) :: Live(ns, y)
    decreases rk[p]
  {
    if !IsVal(ns, p) {
      ChildrenLive(ns, rk, p);
      ReachLive(ns, rk, ns[p].lo);
      ReachLive(ns, rk, ns[p].hi);
    }
  }

  /** The marks of `free_vars`: the marked nodes are the visited inner
      nodes and pinned variable nodes, the pinned node of a level is marked
      exactly when its variable is recorded, the recorded variables are
      distinct, each is the variable of a visited node (`wit` names one), and
      every visited node's variable is recorded. */
  ghost predicate FreeMarks(ns: seq<Node>, l2v: seq<nat>, v2p: seq<nat>, mark: seq<nat>, lvl: nat,
                            visited: set<nat>, out: seq<nat>, wit: seq<nat>)
  {
    FreeMarked(ns, l2v, v2p, mark, lvl, visited) && FreeRecorded(ns, l2v, v2p, mark, lvl, visited, out, wit)
  }

  ghost predicate FreeMarked(ns: seq<Node>, l2v: seq<nat>, v2p: seq<nat>, mark: seq<nat>, lvl: nat, visited: set<nat>)
  {
    |mark| == |ns| && (forall i | 0 <= i < |ns| :: mark[i] <= lvl) &&
    (forall x | x in visited :: x < |ns| && ns[x].hi != 0 && ns[x].level < |l2v| && mark[x] == lvl) &&
    (forall i | 0 <= i < |ns| && mark[i] == lvl ::
      i in visited || (ns[i].level < |l2v| && l2v[ns[i].level] < |v2p| && v2p[l2v[ns[i].level]] == i))
  }

  ghost predicate FreeRecorded(ns: seq<Node>, l2v: seq<nat>, v2p: seq<nat>, mark: seq<nat>, lvl: nat,
                               visited: set<nat>, out: seq<nat>, wit: seq<nat>)
    requires |mark| == |ns|
  {
    FreePins(ns, l2v, v2p, mark, lvl, out) && FreeWitnessed(ns, l2v, visited, out, wit)
  }

  ghost predicate FreePins(ns: seq<Node>, l2v: seq<nat>, v2p: seq<nat>, mark: seq<nat>, lvl: nat, out: seq<nat>)
    requires |mark| == |ns|
  {
    forall l | 0 <= l < |l2v| && l2v[l] < |v2p| && v2p[l2v[l]] < |ns| :: mark[v2p[l2v[l]]] == lvl <==> l2v[l] in out
  }

  ghost predicate FreeWitnessed(ns: seq<Node>, l2v: seq<nat>, visited: set<nat>, out: seq<nat>, wit: seq<nat>)
  {
    (forall i, j | 0 <= i < j < |out| :: out[i] != out[j]) &&
    |wit| == |out| &&
    (forall k | 0 <= k < |out| :: wit[k] in visited && wit[k] < |ns| && ns[wit[k]].level < |l2v| && out[k] == VarOf(ns, l2v, wit[k])) &&
    (forall x | x in visited && x < |ns| && ns[x].level < |l2v| :: VarOf(ns, l2v, x) in out)
  }

  /** The work list of `free_vars` stays live and within the reachable set,
      and every visited node has each child marked, a value or still on the
      list, as has `p`. */
  ghost predicate FreeTodo(ns: seq<Node>, rk: seq<nat>, R: set<nat>, p: nat, mark: seq<nat>, lvl: nat, todo: seq<nat>, visited: set<nat>)
    requires |mark| == |ns|
  {
    (forall t | 0 <= t < |todo| :: todo[t] in R && Live(ns, todo[t])) && visited <= R &&
    (forall x | x in visited && x < |ns| ::
      Settled(ns, mark, lvl, todo, ns[x].lo) && Settled(ns, mark, lvl, todo, ns[x].hi)) &&
    Settled(ns, mark, lvl, todo, p)
  }

  ghost predicate Settled(ns: seq<Node>, mark: seq<nat>, lvl: nat, todo: seq<nat>, y: nat)
    requires |mark| == |ns|
  {
    y < |ns| && (mark[y] == lvl || IsValNode(ns[y]) || y in todo)
  }

  lemma FreeSkip(ns: seq<Node>, rk: seq<nat>, R: set<nat>, p: nat, mark: seq<nat>, lvl: nat, todo: seq<nat>, visited: set<nat>)
    requires |mark| == |ns| && FreeTodo(ns, rk, R, p, mark, lvl, todo, visited)
    requires todo != [] && (IsValNode(ns[todo[|todo| - 1]]) || mark[todo[|todo| - 1]] == lvl)
    ensures FreeTodo(ns, rk, R, p, mark, lvl, todo[..|todo| - 1], visited)
  {
    assert todo == todo[..|todo| - 1] + [todo[|todo| - 1]];
  }

  lemma FreeVisitMarks(ns: seq<Node>, l2v: seq<nat>, v2p: seq<nat>, mark: seq<nat>, lvl: nat,
                        visited: set<nat>, out: seq<nat>, wit: seq<nat>, r: nat, out2: seq<nat>, wit2: seq<nat>)
    requires VarTable(ns, l2v, v2p) && FreeMarks(ns, l2v, v2p, mark, lvl, visited, out, wit)
    requires r < |ns| && ns[r].hi != 0 && ns[r].level < |l2v| && mark[r] != lvl
    requires var v := v2p[VarOf(ns, l2v, r)];
      out2 == (if mark[v] != lvl then out + [VarOf(ns, l2v, r)] else out) &&
      wit2 == (if mark[v] != lvl then wit + [r] else wit)
    ensures FreeMarks(ns, l2v, v2p, mark[r := lvl][v2p[VarOf(ns, l2v, r)] := lvl], lvl, visited + {r}, out2, wit2)
  {
    var v := v2p[VarOf(ns, l2v, r)];
    assert ns[v].level == ns[r].level;
    assert FreeMarked(ns, l2v, v2p, mark, lvl, visited);
    FreeVisitMarked(ns, l2v, v2p, mark, lvl, visited, r);
    FreeVisitRecorded(ns, l2v, v2p, mark, lvl, visited, out, wit, r, out2, wit2);
  }

  lemma FreeVisitMarked(ns: seq<Node>, l2v: seq<nat>, v2p: seq<nat>, mark: seq<nat>, lvl: nat, visited: set<nat>, r: nat)
    requires VarTable(ns, l2v, v2p) && FreeMarked(ns, l2v, v2p, mark, lvl, visited)
    requires r < |ns| && ns[r].hi != 0 && ns[r].level < |l2v|
    ensures FreeMarked(ns, l2v, v2p, mark[r := lvl][v2p[VarOf(ns, l2v, r)] := lvl], lvl, visited + {r})
  {
    var v := v2p[VarOf(ns, l2v, r)];
    assert ns[v].level == ns[r].level;
  }

  lemma FreeVisitRecorded(ns: seq<Node>, l2v: seq<nat>, v2p: seq<nat>, mark: seq<nat>, lvl: nat,
                          visited: set<nat>, out: seq<nat>, wit: seq<nat>, r: nat, out2: seq<nat>, wit2: seq<nat>)
    requires VarTable(ns, l2v, v2p) && |mark| == |ns| && FreeRecorded(ns, l2v, v2p, mark, lvl, visited, out, wit)
    requires r < |ns| && ns[r].level < |l2v|
    requires var v := v2p[VarOf(ns, l2v, r)];
      out2 == (if mark[v] != lvl then out + [VarOf(ns, l2v, r)] else out) &&
      wit2 == (if mark[v] != lvl then wit + [r] else wit)
    ensures FreeRecorded(ns, l2v, v2p, mark[r := lvl][v2p[VarOf(ns, l2v, r)] := lvl], lvl, visited + {r}, out2, wit2)
  {
    var w := VarOf(ns, l2v, r);
    var v := v2p[w];
    assert FreePins(ns, l2v, v2p, mark, lvl, out) && FreeWitnessed(ns, l2v, visited, out, wit);
    PinsStep(ns, l2v, v2p, mark, lvl, out, r, out2);
    assert ns[v].level == ns[r].level;
    assert mark[v] != lvl ==> w !in out;
    WitnessedStep(ns, l2v, visited, out, wit, r, mark[v] != lvl, out2, wit2);
  }

  /** Marking `r` and the pinned node of its variable, recording the variable if that node was unmarked. */
  lemma PinsStep(ns: seq<Node>, l2v: seq<nat>, v2p: seq<nat>, mark: seq<nat>, lvl: nat, out: seq<nat>, r: nat, out2: seq<nat>)
    requires VarTable(ns, l2v, v2p) && |mark| == |ns| && FreePins(ns, l2v, v2p, mark, lvl, out)
    requires r < |ns| && ns[r].level < |l2v|
    requires out2 == (if mark[v2p[VarOf(ns, l2v, r)]] != lvl then out + [VarOf(ns, l2v, r)] else out)
    ensures FreePins(ns, l2v, v2p, mark[r := lvl][v2p[VarOf(ns, l2v, r)] := lvl], lvl, out2)
  {
    var l := ns[r].level;
    var w := VarOf(ns, l2v, r);
    var v := v2p[w];
    assert ns[v].level == l;
    var mark2 := mark[r := lvl][v := lvl];
    forall l' | 0 <= l' < |l2v| && l2v[l'] < |v2p| && v2p[l2v[l']] < |ns|
      ensures mark2[v2p[l2v[l']]] == lvl <==> l2v[l'] in out2
    {
      var u := v2p[l2v[l']];
      assert ns[u].level == l';
    }
  }

  /** Visiting `r`, and recording its variable when `add` holds; that variable is new then. */
  lemma WitnessedStep(ns: seq<Node>, l2v: seq<nat>, visited: set<nat>, out: seq<nat>, wit: seq<nat>, r: nat, add: bool,
                      out2: seq<nat>, wit2: seq<nat>)
    requires FreeWitnessed(ns, l2v, visited, out, wit) && r < |ns| && ns[r].level < |l2v|
    requires add ==> VarOf(ns, l2v, r) !in out
    requires !add ==> VarOf(ns, l2v, r) in out
    requires out2 == (if add then out + [VarOf(ns, l2v, r)] else out) && wit2 == (if add then wit + [r] else wit)
    ensures FreeWitnessed(ns, l2v, visited + {r}, out2, wit2)
  {
  }

  lemma FreeVisitTodo(ns: seq<Node>, rk: seq<nat>, R: set<nat>, p: nat, mark: seq<nat>, lvl: nat,
                      todo: seq<nat>, visited: set<nat>, v: nat)
    requires GraphOk(ns, rk) && p < |ns| && Closed(ns, R) && |mark| == |ns| && v < |ns|
    requires FreeTodo(ns, rk, R, p, mark, lvl, todo, visited)
    requires todo != [] && !IsValNode(ns[todo[|todo| - 1]])
    ensures var r := todo[|todo| - 1];
      var mark2 := mark[r := lvl][v := lvl];
      FreeTodo(ns, rk, R, p, mark2, lvl, todo[..|todo| - 1] + Pushes(ns, rk, mark2, lvl, r), visited + {r})
  {
    var n := |todo| - 1;
    var r := todo[n];
    var mark2 := mark[r := lvl][v := lvl];
    var P := Pushes(ns, rk, mark2, lvl, r);
    var todo2 := todo[..n] + P;
    ChildrenLive(ns, rk, r);
    assert forall t | 0 <= t < |P| :: P[t] == ns[r].lo || P[t] == ns[r].hi;
    forall t | 0 <= t < |todo2| ensures todo2[t] in R && Live(ns, todo2[t]) {
      if t < n {
        assert todo2[t] == todo[t];
      } else {
        assert todo2[t] == P[t - n];
      }
    }
    forall x | x in visited + {r} && x < |ns|
      ensures Settled(ns, mark2, lvl, todo2, ns[x].lo) && Settled(ns, mark2, lvl, todo2, ns[x].hi)
    {
      if x == r {
        assert todo2[n..] == P;
      } else {
        SettledStep(ns, mark, lvl, todo, v, P, ns[x].lo);
        SettledStep(ns, mark, lvl, todo, v, P, ns[x].hi);
      }
    }
    SettledStep(ns, mark, lvl, todo, v, P, p);
  }

  /** A settled node stays settled when the top of the list is marked and replaced. */
  lemma SettledStep(ns: seq<Node>, mark: seq<nat>, lvl: nat, todo: seq<nat>, v: nat, P: seq<nat>, y: nat)
    requires |mark| == |ns| && v < |ns| && todo != [] && todo[|todo| - 1] < |ns| && Settled(ns, mark, lvl, todo, y)
    ensures var n := |todo| - 1;
      Settled(ns, mark[todo[n] := lvl][v := lvl], lvl, todo[..n] + P, y)
  {
    var n := |todo| - 1;
    if y in todo && y != todo[n] {
      var k :| 0 <= k < |todo| && todo[k] == y;
      assert (todo[..n] + P)[k] == y;
    }
  }

  /** The marked nodes and the values. */
  ghost function MarkedOrValue(ns: seq<Node>, mark: seq<nat>, lvl: nat): set<nat>
    requires |mark| == |ns|
  {
    set i | 0 <= i < |ns| && (mark[i] == lvl || IsValNode(ns[i]))
  }

  /** With the work list empty, the marked nodes and the values are closed
      under children: a visited node has its children settled, and a pinned
      variable node has the children 0 and 1. */
  lemma FreeClosed(ns: seq<Node>, l2v: seq<nat>, v2p: seq<nat>, mark: seq<nat>, lvl: nat,
                   visited: set<nat>, out: seq<nat>, wit: seq<nat>, rk: seq<nat>, p: nat)
    requires Ranked(ns, rk) && VarTable(ns, l2v, v2p) && p < |ns|
    requires 2 <= |ns| && IsValNode(ns[ZeroPdd]) && IsValNode(ns[OnePdd])
    requires FreeMarks(ns, l2v, v2p, mark, lvl, visited, out, wit)
    requires FreeTodo(ns, rk, Reach(ns, rk, p), p, mark, lvl, [], visited)
    ensures Closed(ns, MarkedOrValue(ns, mark, lvl)) && p in MarkedOrValue(ns, mark, lvl)
  {
    var S := MarkedOrValue(ns, mark, lvl);
    forall y | y in S ensures y < |ns| && (!IsValNode(ns[y]) ==> ns[y].lo in S && ns[y].hi in S) {
      if !IsValNode(ns[y]) && y !in visited {
        assert ShapeOf(ns[y]) == Shape(ns[y].level, ZeroPdd, OnePdd);
      }
    }
  }

  /** With the work list empty, every inner node reachable from `p` is
      visited or the pinned node of a recorded variable. */
  lemma FreeDone(ns: seq<Node>, rk: seq<nat>, l2v: seq<nat>, v2p: seq<nat>, p: nat, mark: seq<nat>, lvl: nat,
                 visited: set<nat>, out: seq<nat>, wit: seq<nat>)
    requires GraphOk(ns, rk) && LevelsBelowOf(ns, |l2v|) && VarTable(ns, l2v, v2p) && Live(ns, p)
    requires 2 <= |ns| && IsValNode(ns[ZeroPdd]) && IsValNode(ns[OnePdd])
    requires FreeMarks(ns, l2v, v2p, mark, lvl, visited, out, wit)
    requires FreeTodo(ns, rk, Reach(ns, rk, p), p, mark, lvl, [], visited)
    ensures forall w :: w in out <==> w in VarsOf(ns, l2v, Reach(ns, rk, p))
  {
    var R := Reach(ns, rk, p);
    ReachLive(ns, rk, p);
    var S := MarkedOrValue(ns, mark, lvl);
    FreeClosed(ns, l2v, v2p, mark, lvl, visited, out, wit, rk, p);
    ReachWithinClosed(ns, rk, S, p);
    forall w ensures w in out <==> w in VarsOf(ns, l2v, R) {
      if w in out {
        var k :| 0 <= k < |out| && out[k] == w;
        assert wit[k] in R;
      }
      if w in VarsOf(ns, l2v, R) {
        var x :| x in R && x < |ns| && !IsValNode(ns[x]) && ns[x].level < |l2v| && VarOf(ns, l2v, x) == w;
        if x !in visited {
          assert mark[x] == lvl;
        }
      }
    }
  }
}
