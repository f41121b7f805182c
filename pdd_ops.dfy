/**
  The manager's allocating operations, each computing the manager's next
  state from the current one: growing the arena, collecting garbage,
  inserting a node into the unique table, building nodes and value nodes,
  and reserving variables. The ghost `rank` that witnesses acyclicity is
  threaded alongside the state.
 */
module PddOps {
  import opened PddNode
  import opened PddSpec
  import opened PddState
  import opened PddGc
  import opened PddAlloc

  // ------------------------------------------------------------ arena

  /** The state after `alloc_free_nodes(n)`. */
  function Grown(a: Arena, n: nat): Arena
  {
    a.(nodes := a.nodes + Blanks(|a.nodes|, n), free := Reverse(a.free + Indices(|a.nodes|, n)))
  }

  /** Growing the arena keeps the invariant, the level bound and the registration of value nodes. */
  lemma GrownOk(a: Arena, rk: seq<nat>, n: nat)
    requires Core(a, rk)
    ensures Core(Grown(a, n), rk + seq(n, _ => 1))
    ensures forall m: nat | LevelsBelowOf(a.nodes, m) :: LevelsBelowOf(Grown(a, n).nodes, m)
    ensures StrictValuesOf(a.nodes, a.values, a.mpq) ==> StrictValuesOf(Grown(a, n).nodes, a.values, a.mpq)
  {
    BlanksNodesOk(a.nodes, rk, n);
    BlanksFreeOk(a.nodes, a.free, n);
    BlanksTableFree(a.nodes, a.table, a.free, n);
    BlanksKeep(a.nodes, a.values, a.mpq, a.freeVals, a.freeze, a.table, a.cache, a.stack, n);
    BlanksVarsOk(a.nodes, a.v2l, a.l2v, a.v2p, a.mark, a.markLevel, n);
    CacheMeaningGrown(a.nodes, rk, a.values, a.cache, Grown(a, n).nodes, rk + seq(n, _ => 1));
  }

  /** `alloc_free_nodes`: appends `n` blank nodes, pushes their indices on
      the free list and then reverses the whole list. */
  method AllocFreeNodes(a: Arena, ghost rk: seq<nat>, n: nat) returns (a2: Arena, ghost rk2: seq<nat>)
    requires Core(a, rk)
    ensures a2 == Grown(a, n) && rk2 == rk + seq(n, _ => 1)
    ensures Core(a2, rk2)
    ensures forall m: nat | LevelsBelowOf(a.nodes, m) :: LevelsBelowOf(a2.nodes, m)
    ensures StrictValuesOf(a.nodes, a.values, a.mpq) ==> StrictValuesOf(a2.nodes, a2.values, a2.mpq)
  {
    var ns, free := a.nodes, a.free;
    rk2 := rk;
    var i := 0;
    while i < n
      invariant 0 <= i <= n
      invariant ns == a.nodes + Blanks(|a.nodes|, i)
      invariant rk2 == rk + seq(i, _ => 1)
      invariant free == a.free + Indices(|a.nodes|, i)
    {
      free := free + [|ns|];
      ns := ns + [Node(0, 0, 0, 0, |ns|)];
      rk2 := rk2 + [1];
      assert Blanks(|a.nodes|, i) + [Node(0, 0, 0, 0, |a.nodes| + i)] == Blanks(|a.nodes|, i + 1);
      assert Indices(|a.nodes|, i) + [|a.nodes| + i] == Indices(|a.nodes|, i + 1);
      assert seq(i, _ => 1) + [1] == seq(i + 1, _ => 1);
      i := i + 1;
    }
    a2 := a.(nodes := ns, free := Reverse(free));
    GrownOk(a, rk, n);
  }

  // ------------------------------------------------------------ garbage collection

  /** `gc`: every node outside the protected set from index 2 on is
      reclaimed onto a fresh free list, listed from the highest index down,
      except a value node holding the freeze value; the values of reclaimed
      value nodes leave the value table, computed cache entries are dropped
      and the unique table is rebuilt. */
  method Gc(a: Arena, ghost rk: seq<nat>) returns (a2: Arena, ghost rk2: seq<nat>)
    requires Core(a, rk)
    ensures Core(a2, rk2)
    ensures a2 == a.(nodes := a2.nodes, free := a2.free, table := a2.table, mpq := a2.mpq,
                     freeVals := a2.freeVals, cache := a2.cache)
    ensures GcEffect(a.nodes, rk, a.stack, a.values, a.freeze, a.mpq, a.cache, a2.nodes, rk2, a2.free, a2.mpq, a2.cache)
    ensures forall m: nat | LevelsBelowOf(a.nodes, m) :: LevelsBelowOf(a2.nodes, m)
    ensures StrictValuesOf(a.nodes, a.values, a.mpq) ==> StrictValuesOf(a2.nodes, a2.values, a2.mpq)
    ensures forall x | x in a2.freeVals :: x in a.freeVals || x in ValueSlots(a.nodes)
  {
    var ns2, free, table2, mpq2, fv2, cache2;
    ns2, rk2, free, table2, mpq2, fv2, cache2 :=
      Collect(a.nodes, rk, a.table, a.values, a.mpq, a.freeVals, a.freeze, a.cache, a.stack,
              a.mark, a.markLevel, a.v2l, a.l2v, a.v2p);
    a2 := a.(nodes := ns2, free := free, table := table2, mpq := mpq2, freeVals := fv2, cache := cache2);
  }

  /** `try_gc`: collects and then empties the operation cache. */
  method TryGc(a: Arena, ghost rk: seq<nat>) returns (a2: Arena, ghost rk2: seq<nat>)
    requires Core(a, rk)
    ensures Core(a2, rk2) && a2.cache == map[]
    ensures a2 == a.(nodes := a2.nodes, free := a2.free, table := a2.table, mpq := a2.mpq,
                     freeVals := a2.freeVals, cache := map[])
    ensures Kept(a.nodes, rk, a.stack, a.values, a2.nodes, rk2, a2.values)
    ensures forall m: nat | LevelsBelowOf(a.nodes, m) :: LevelsBelowOf(a2.nodes, m)
    ensures StrictValuesOf(a.nodes, a.values, a.mpq) ==> StrictValuesOf(a2.nodes, a2.values, a2.mpq)
  {
    var a1;
    a1, rk2 := Gc(a, rk);
    GcKept(a.nodes, rk, a.stack, a.values, a.freeze, a.mpq, a.cache, a1.nodes, rk2, a1.free, a1.mpq, a1.cache);
    a2 := a1.(cache := map[]);
  }

  // ------------------------------------------------------------ node allocation

  /** The collection `insert_node` runs when the free list is empty:
      `fault` reports that the new node's children were collected; otherwise
      the table again holds a placeholder for `s` and the shape can still be
      stored. */
  method CollectFor(a: Arena, ghost rk: seq<nat>, s: Shape) returns (a2: Arena, ghost rk2: seq<nat>, fault: bool)
    requires Core(a, rk) && !Hit(a.table, s)
    requires Admissible(a.nodes, a.values, a.mpq, a.freeVals, a.freeze, s) && Absent(a.nodes, s)
    ensures Core(a2, rk2) && Kept(a.nodes, rk, a.stack, a.values, a2.nodes, rk2, a2.values)
    ensures a2 == a.(nodes := a2.nodes, free := a2.free, table := a2.table, mpq := a2.mpq,
                     freeVals := a2.freeVals, cache := a2.cache)
    ensures |a2.nodes| == |a.nodes|
    ensures forall m: nat | LevelsBelowOf(a.nodes, m) :: LevelsBelowOf(a2.nodes, m)
    ensures StrictValuesOf(a.nodes, a.values, a.mpq) ==> StrictValuesOf(a2.nodes, a2.values, a2.mpq)
    ensures forall x | x in a2.freeVals :: x in a.freeVals || x in ValueSlots(a.nodes)
    ensures forall r | r in a2.mpq :: r in a.mpq && a2.mpq[r] == a.mpq[r]
    ensures !fault ==>
      !Hit(a2.table, s) && Admissible(a2.nodes, a2.values, a2.mpq, a2.freeVals, a2.freeze, s) && Absent(a2.nodes, s)
    ensures fault ==>
      s.hi != 0 &&
      (Collected(a.nodes, rk, a.stack, a.values, a.freeze, s.lo) ||
       Collected(a.nodes, rk, a.stack, a.values, a.freeze, s.hi))
  {
    a2, rk2 := Gc(a, rk);
    GcKept(a.nodes, rk, a.stack, a.values, a.freeze, a.mpq, a.cache, a2.nodes, rk2, a2.free, a2.mpq, a2.cache);
    GcFreeAndValues(a.nodes, rk, a.stack, a.values, a.freeze, a.mpq, a.cache, a2.nodes, rk2, a2.free, a2.mpq, a2.cache);
    if s.hi != 0 && (s.lo in a2.free || s.hi in a2.free) {
      return a2, rk2, true;
    }
    GcAdmissible(a.nodes, rk, a.stack, a.values, a.freeze, a.mpq, a.cache, a2.nodes, rk2, a2.free, a2.mpq, a2.cache,
                 a.freeVals, a2.freeVals, s);
    PlaceholderCore(a2, rk2, s);
    a2, fault := a2.(table := a2.table[s := 0]), false;
  }

  /** What `insert_node` reads off a collection: the free ids are the
      collected ones, and the value table only loses entries. */
  lemma GcFreeAndValues(ns: seq<Node>, rk: seq<nat>, stack: seq<nat>, values: seq<real>, freeze: real,
                        mpq: map<real, ConstInfo>, cache: map<OpKey, Slot>,
                        ns2: seq<Node>, rk2: seq<nat>, free: seq<nat>, mpq2: map<real, ConstInfo>, cache2: map<OpKey, Slot>)
    requires Ranked(ns, rk) && forall k | 0 <= k < |stack| :: stack[k] < |ns|
    requires GcEffect(ns, rk, stack, values, freeze, mpq, cache, ns2, rk2, free, mpq2, cache2)
    ensures forall j: nat | j in free :: Collected(ns, rk, stack, values, freeze, j)
    ensures forall r | r in mpq2 :: r in mpq && mpq2[r] == mpq[r]
  {
  }

  /** A placeholder entry for a shape no live node has keeps the invariant. */
  lemma PlaceholderCore(a: Arena, rk: seq<nat>, s: Shape)
    requires Core(a, rk) && Absent(a.nodes, s)
    ensures Core(a.(table := a.table[s := 0]), rk)
  {
    assert CoreOf(a.nodes, rk, a.free, a.table, a.values, a.mpq, a.freeVals, a.freeze, a.cache, a.stack,
                  a.mark, a.markLevel, a.v2l, a.l2v, a.v2p);
    PlaceholderOk(a.nodes, a.table, a.free, s);
  }

  /** The end of `insert_node`'s slow path: memory exhaustion when the arena
      is over its cap, and otherwise growth by half its size. */
  method GrowOrFail(a: Arena, ghost rk: seq<nat>, s: Shape) returns (a2: Arena, ghost rk2: seq<nat>, err: Option<Outcome>)
    requires Core(a, rk) && !Hit(a.table, s)
    requires Admissible(a.nodes, a.values, a.mpq, a.freeVals, a.freeze, s) && Absent(a.nodes, s)
    ensures Core(a2, rk2) && Kept(a.nodes, rk, a.stack, a.values, a2.nodes, rk2, a2.values)
    ensures err == None || err == Some(MemOut)
    ensures err == Some(MemOut) <==> |a.nodes| > MaxNumPddNodes
    ensures err == Some(MemOut) ==> a2 == a && rk2 == rk
    ensures err == None ==>
      a2 == Grown(a, |a.nodes| / 2) && a2.free != [] &&
      Admissible(a2.nodes, a2.values, a2.mpq, a2.freeVals, a2.freeze, s) && Absent(a2.nodes, s)
    ensures forall m: nat | LevelsBelowOf(a.nodes, m) :: LevelsBelowOf(a2.nodes, m)
    ensures StrictValuesOf(a.nodes, a.values, a.mpq) ==> StrictValuesOf(a2.nodes, a2.values, a2.mpq)
  {
    if |a.nodes| > MaxNumPddNodes {
      KeptRefl(a.nodes, rk, a.stack, a.values);
      return a, rk, Some(MemOut);
    }
    BlanksAdmissible(a.nodes, rk, a.stack, a.values, a.mpq, a.freeVals, a.freeze, s, |a.nodes| / 2);
    a2, rk2 := AllocFreeNodes(a, rk, |a.nodes| / 2);
    ReverseIndex(a.free + Indices(|a.nodes|, |a.nodes| / 2));
    err := None;
  }

  /** The step of `insert_node` that runs when the free list is empty:
      collect unless collection is disabled, fail when the new node's
      children were collected, fail with memory exhaustion when the arena is
      over its cap, and otherwise grow the arena by half its size. */
  method MakeRoom(a: Arena, ghost rk: seq<nat>, s: Shape) returns (a2: Arena, ghost rk2: seq<nat>, err: Option<Outcome>)
    requires Core(a, rk) && !Hit(a.table, s)
    requires Admissible(a.nodes, a.values, a.mpq, a.freeVals, a.freeze, s) && Absent(a.nodes, s)
    ensures Core(a2, rk2) && Kept(a.nodes, rk, a.stack, a.values, a2.nodes, rk2, a2.values)
    ensures a2 == a.(nodes := a2.nodes, free := a2.free, table := a2.table, mpq := a2.mpq,
                     freeVals := a2.freeVals, cache := a2.cache)
    ensures forall m: nat | LevelsBelowOf(a.nodes, m) :: LevelsBelowOf(a2.nodes, m)
    ensures StrictValuesOf(a.nodes, a.values, a.mpq) ==> StrictValuesOf(a2.nodes, a2.values, a2.mpq)
    ensures forall r | r in a2.mpq :: r in a.mpq && a2.mpq[r] == a.mpq[r]
    ensures err == None || err == Some(MemOut) || err == Some(Fault)
    ensures err == None ==>
      a2.free != [] && !Hit(a2.table, s) && Admissible(a2.nodes, a2.values, a2.mpq, a2.freeVals, a2.freeze, s) &&
      Absent(a2.nodes, s)
    ensures err == Some(MemOut) <==> err != Some(Fault) && |a.nodes| > MaxNumPddNodes
    ensures err == Some(Fault) ==>
      !a.disableGc && s.hi != 0 &&
      (Collected(a.nodes, rk, a.stack, a.values, a.freeze, s.lo) ||
       Collected(a.nodes, rk, a.stack, a.values, a.freeze, s.hi))
  {
    if a.disableGc {
      a2, rk2, err := GrowOrFail(a, rk, s);
    } else {
      var a1, fault;
      ghost var rk1;
      a1, rk1, fault := CollectFor(a, rk, s);
      if fault {
        return a1, rk1, Some(Fault);
      }
      a2, rk2, err := GrowOrFail(a1, rk1, s);
      KeptTrans(a.nodes, rk, a.stack, a.values, a1.nodes, rk1, a.stack, a.values, a2.nodes, rk2, a2.values);
    }
  }

  /** The last step of `insert_node`: the back of the free list receives the node. */
  method Place(a: Arena, ghost rk: seq<nat>, s: Shape) returns (a2: Arena, ghost rk2: seq<nat>, x: nat)
    requires Core(a, rk) && a.free != []
    requires Admissible(a.nodes, a.values, a.mpq, a.freeVals, a.freeze, s) && Absent(a.nodes, s)
    ensures x == a.free[|a.free| - 1]
    ensures a2 == a.(nodes := a.nodes[x := Fresh(s, x)], free := a.free[..|a.free| - 1], table := a.table[s := x],
                     isNew := true)
    ensures Core(a2, rk2) && Live(a2.nodes, x) && Kept(a.nodes, rk, a.stack, a.values, a2.nodes, rk2, a2.values)
    ensures forall m: nat | LevelsBelowOf(a.nodes, m) && (s.hi != 0 ==> s.level < m) :: LevelsBelowOf(a2.nodes, m)
    ensures StrictValuesOf(a.nodes, a.values, a.mpq) ==> RegisteredBut(a2.nodes, a2.values, a2.mpq, x)
    ensures StrictValuesOf(a.nodes, a.values, a.mpq) && s.hi != 0 ==> StrictValuesOf(a2.nodes, a2.values, a2.mpq)
  {
    x := a.free[|a.free| - 1];
    PlaceOk(a.nodes, rk, a.free, a.table, a.values, a.mpq, a.freeVals, a.freeze, a.cache, a.stack,
            a.mark, a.markLevel, a.v2l, a.l2v, a.v2p, s);
    a2 := a.(nodes := a.nodes[x := Fresh(s, x)], free := a.free[..|a.free| - 1], table := a.table[s := x], isNew := true);
    rk2 := rk[x := NewRank(rk, s)];
  }

  /** `insert_node` on a miss with an empty free list, once the table holds
      the placeholder entry: room is made, then the node placed. */
  method RoomAndPlace(a: Arena, ghost rk: seq<nat>, s: Shape) returns (a2: Arena, ghost rk2: seq<nat>, o: Outcome)
    requires Core(a, rk) && !Hit(a.table, s)
    requires Admissible(a.nodes, a.values, a.mpq, a.freeVals, a.freeze, s) && Absent(a.nodes, s)
    ensures Core(a2, rk2) && Kept(a.nodes, rk, a.stack, a.values, a2.nodes, rk2, a2.values)
    ensures a2 == a.(nodes := a2.nodes, free := a2.free, table := a2.table, mpq := a2.mpq,
                     freeVals := a2.freeVals, cache := a2.cache, isNew := a2.isNew)
    ensures forall m: nat | LevelsBelowOf(a.nodes, m) && (o.Ok? && s.hi != 0 ==> s.level < m) :: LevelsBelowOf(a2.nodes, m)
    ensures StrictValuesOf(a.nodes, a.values, a.mpq) ==>
      if o.Ok? && s.hi == 0 then RegisteredBut(a2.nodes, a2.values, a2.mpq, o.id)
      else StrictValuesOf(a2.nodes, a2.values, a2.mpq)
    ensures forall r | r in a2.mpq :: r in a.mpq && a2.mpq[r] == a.mpq[r]
    ensures o.Ok? || o.MemOut? || o.Fault?
    ensures o.Ok? ==> Live(a2.nodes, o.id) && a2.isNew && a2.nodes[o.id] == Fresh(s, o.id) && s in a2.table && a2.table[s] == o.id
    ensures o.MemOut? <==> !o.Fault? && |a.nodes| > MaxNumPddNodes
    ensures o.Fault? ==>
      !a.disableGc && s.hi != 0 &&
      (Collected(a.nodes, rk, a.stack, a.values, a.freeze, s.lo) ||
       Collected(a.nodes, rk, a.stack, a.values, a.freeze, s.hi))
  {
    var a1, err;
    ghost var rk1;
    a1, rk1, err := MakeRoom(a, rk, s);
    if err.Some? {
      return a1, rk1, err.value;
    }
    var x;
    a2, rk2, x := Place(a1, rk1, s);
    KeptTrans(a.nodes, rk, a.stack, a.values, a1.nodes, rk1, a.stack, a.values, a2.nodes, rk2, a2.values);
    o := Ok(x);
  }

  /** What `insert_node` promises on a miss, bound to one name: the
      invariant and the rank are kept, only the allocation fields change,
      a new node is the fresh shape at the index taken from the back of the
      free list (which is the whole change when that list was not empty),
      memory runs out exactly when the arena was full and over its cap, and
      a fault means collection reclaimed one of the children. */
  ghost predicate MissDone(a: Arena, rk: seq<nat>, s: Shape, a2: Arena, rk2: seq<nat>, o: Outcome)
    requires Core(a, rk) && Admissible(a.nodes, a.values, a.mpq, a.freeVals, a.freeze, s)
  {
    var ok :=
      Core(a2, rk2) && Kept(a.nodes, rk, a.stack, a.values, a2.nodes, rk2, a2.values) &&
      a2 == a.(nodes := a2.nodes, free := a2.free, table := a2.table, mpq := a2.mpq,
               freeVals := a2.freeVals, cache := a2.cache, isNew := a2.isNew) &&
      (forall m: nat | LevelsBelowOf(a.nodes, m) && (o.Ok? && s.hi != 0 ==> s.level < m) :: LevelsBelowOf(a2.nodes, m)) &&
      (StrictValuesOf(a.nodes, a.values, a.mpq) ==>
         if o.Ok? && s.hi == 0 then RegisteredBut(a2.nodes, a2.values, a2.mpq, o.id)
         else StrictValuesOf(a2.nodes, a2.values, a2.mpq)) &&
      (forall r | r in a2.mpq :: r in a.mpq && a2.mpq[r] == a.mpq[r]) &&
      (o.Ok? || o.MemOut? || o.Fault?) &&
      (o.Ok? ==> Live(a2.nodes, o.id) && a2.isNew && a2.nodes[o.id] == Fresh(s, o.id) && s in a2.table && a2.table[s] == o.id) &&
      (a.free != [] ==>
         var x := a.free[|a.free| - 1];
         o == Ok(x) &&
         a2 == a.(nodes := a.nodes[x := Fresh(s, x)], free := a.free[..|a.free| - 1], table := a.table[s := x], isNew := true)) &&
      (o.MemOut? <==> a.free == [] && !o.Fault? && |a.nodes| > MaxNumPddNodes) &&
      (o.Fault? ==>
         a.free == [] && !a.disableGc && s.hi != 0 &&
         (Collected(a.nodes, rk, a.stack, a.values, a.freeze, s.lo) ||
          Collected(a.nodes, rk, a.stack, a.values, a.freeze, s.hi)));
    ok
  }

  /** `insert_node` on a miss with free nodes to hand: the node is placed
      at once (the placeholder entry it would overwrite is left out). */
  method InsertFast(a: Arena, ghost rk: seq<nat>, s: Shape) returns (a2: Arena, ghost rk2: seq<nat>, o: Outcome)
    requires Core(a, rk) && !Hit(a.table, s) && Admissible(a.nodes, a.values, a.mpq, a.freeVals, a.freeze, s)
    requires a.free != []
    ensures MissDone(a, rk, s, a2, rk2, o)
  {
    MissAbsent(a.nodes, rk, a.table, a.values, a.mpq, a.freeVals, a.freeze, s);
    var x;
    a2, rk2, x := Place(a, rk, s);
    o := Ok(x);
  }

  /** `insert_node` on a miss with an empty free list: the placeholder
      entry, then room, then the node. */
  method InsertSlow(a: Arena, ghost rk: seq<nat>, s: Shape) returns (a2: Arena, ghost rk2: seq<nat>, o: Outcome)
    requires Core(a, rk) && !Hit(a.table, s) && Admissible(a.nodes, a.values, a.mpq, a.freeVals, a.freeze, s)
    requires a.free == []
    ensures MissDone(a, rk, s, a2, rk2, o)
  {
    MissAbsent(a.nodes, rk, a.table, a.values, a.mpq, a.freeVals, a.freeze, s);
    PlaceholderOk(a.nodes, a.table, a.free, s);
    a2, rk2, o := RoomAndPlace(a.(table := a.table[s := 0]), rk, s);
  }

  /** `insert_node` on a miss. */
  method InsertMiss(a: Arena, ghost rk: seq<nat>, s: Shape) returns (a2: Arena, ghost rk2: seq<nat>, o: Outcome)
    requires Core(a, rk) && !Hit(a.table, s) && Admissible(a.nodes, a.values, a.mpq, a.freeVals, a.freeze, s)
    ensures MissDone(a, rk, s, a2, rk2, o)
  {
    if a.free == [] {
      a2, rk2, o := InsertSlow(a, rk, s);
    } else {
      a2, rk2, o := InsertFast(a, rk, s);
    }
  }


  /** `insert_node`: a shape the unique table already names is returned as
      it is and nothing changes; otherwise the miss path allocates it. */
  method InsertNode(a: Arena, ghost rk: seq<nat>, s: Shape) returns (a2: Arena, ghost rk2: seq<nat>, o: Outcome)
    requires Core(a, rk) && Admissible(a.nodes, a.values, a.mpq, a.freeVals, a.freeze, s)
    ensures Core(a2, rk2) && Kept(a.nodes, rk, a.stack, a.values, a2.nodes, rk2, a2.values)
    ensures a2 == a.(nodes := a2.nodes, free := a2.free, table := a2.table, mpq := a2.mpq,
                     freeVals := a2.freeVals, cache := a2.cache, isNew := a2.isNew)
    ensures forall m: nat | LevelsBelowOf(a.nodes, m) && (o.Ok? && s.hi != 0 ==> s.level < m) :: LevelsBelowOf(a2.nodes, m)
    ensures StrictValuesOf(a.nodes, a.values, a.mpq) ==>
      if o.Ok? && s.hi == 0 then RegisteredBut(a2.nodes, a2.values, a2.mpq, o.id)
      else StrictValuesOf(a2.nodes, a2.values, a2.mpq)
    ensures forall r | r in a2.mpq :: r in a.mpq && a2.mpq[r] == a.mpq[r]
    ensures o.Ok? || o.MemOut? || o.Fault?
    ensures o.Ok? ==> Live(a2.nodes, o.id) && ShapeOf(a2.nodes[o.id]) == s
    ensures Hit(a.table, s) ==> o == Ok(a.table[s]) && a2 == a && rk2 == rk
    ensures !Hit(a.table, s) && o.Ok? ==> a2.isNew && a2.nodes[o.id] == Fresh(s, o.id) && s in a2.table && a2.table[s] == o.id
    ensures !Hit(a.table, s) && a.free != [] ==>
      var x := a.free[|a.free| - 1];
      o == Ok(x) &&
      a2 == a.(nodes := a.nodes[x := Fresh(s, x)], free := a.free[..|a.free| - 1], table := a.table[s := x], isNew := true)
    ensures o.MemOut? <==> !Hit(a.table, s) && a.free == [] && !o.Fault? && |a.nodes| > MaxNumPddNodes
    ensures o.Fault? ==>
      !Hit(a.table, s) && a.free == [] && !a.disableGc && s.hi != 0 &&
      (Collected(a.nodes, rk, a.stack, a.values, a.freeze, s.lo) ||
       Collected(a.nodes, rk, a.stack, a.values, a.freeze, s.hi))
  {
    if Hit(a.table, s) {
      HitLive(a.nodes, rk, a.table, s);
      KeptRefl(a.nodes, rk, a.stack, a.values);
      return a, rk, Ok(a.table[s]);
    }
    a2, rk2, o := InsertMiss(a, rk, s);
  }
}
