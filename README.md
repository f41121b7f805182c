# PDD manager model

A model of z3's manager for polynomial decision diagrams (PDDs), `src/math/dd/dd_pdd.cpp`.

A PDD represents a polynomial over rational coefficients. Nodes live in one arena of records and are hash-consed through a unique table. An internal node at level `l` with children `lo` and `hi` stands for `lo + x*hi`, where `x` is the variable at level `l`. A value node stands for a rational held in a value pool, and nodes 0 and 1 are the constants zero and one. The manager holds:

- an operation cache, whose entries are pending while their computation is still on the call stack;
- a protection stack of node ids;
- the variable order;
- a free list;
- a garbage collector that frees every node not reachable from the stack or from a pinned node.

The model keeps the manager's fields as one value, `PddState.Arena`:

- the arena, the free list and the unique table;
- the value pool, its table, its free slots and the freeze value;
- the cache, the spare-entry flag and the stack;
- the marks and the mark level;
- the three order vectors and the flags.

Each mutating operation computes the next `Arena` from the current one. `PddManager.Manager` is the class whose field the operations replace in place. A ghost rank that drops strictly from every node to its children witnesses that the graph is acyclic.

The manager's invariant is `PddState.Valid`. It says:

- the arena is self-indexed, level-ordered and acyclic;
- free nodes are blank;
- the unique table and the pool tables are exact;
- cached results are live;
- the stack and the pinned variable nodes point into the arena;
- only node 0 holds the value zero.

Every operation is proved to preserve `Valid`. The step predicate `PddApply.Evolved` also says that everything protected (reachable from the stack or from a pinned node) keeps its node record, its rank and its value. Read-only queries are loops proved against recursive reference definitions in `PddSpec`, and the properties the source relies on are proved about those definitions.

The modules are:

| module | contents |
|---|---|
| `PddNode` | records, reachability, protection |
| `PddSpec` | reference definitions and their lemmas |
| `PddState` | invariants and the arena |
| `PddAlloc` | preservation facts |
| `PddGc` | the collector |
| `PddOps` | node allocation and insertion |
| `PddBuild` | values and variables |
| `PddApply` | stack, cache, `apply_rec`, `apply`, `lt_quotient`, `reduce_on_match` |
| `PddMinus` | negation |
| `PddQuery` | read-only walks |
| `PddTraverse` | marked traversals |
| `PddOrder` | variable order |
| `PddSpoly` | S-polynomials |
| `PddInit` | constructor |
| `PddManager` | the manager class |

## Model

| member | source | states |
|---|---|---|
| PddManager.Manager.constructor | src/math/dd/dd_pdd.cpp:26-51 | A valid manager with an empty stack and the pool `[0, 1]` in which all `num_vars` variables exist, variable `v` at level `v`. |
| PddInit.Init | src/math/dd/dd_pdd.cpp:26-51 | The state after the constructor is valid. It reserves the first `num_vars` variables in natural order, each pinned as the node `x_v` of shape `(v, 0, 1)`; all `num_vars` of them are always reserved, since the free list starts with `1022 + num_vars` nodes and each reservation takes at most one. |
| PddInit.Start | src/math/dd/dd_pdd.cpp:26-45 | `1024 + num_vars` blank nodes are allocated, listed from the back. Nodes 0 and 1 become the pinned values 0 and 1. `pdd_no_op + 1` pinned placeholders follow. The tables hold exactly those two values. The state is valid. |
| PddInit.Seeded | src/math/dd/dd_pdd.cpp:30-40 | After `alloc_free_nodes` and the two `init_value` calls, nodes 0 and 1 are the pinned values 0 and 1, the other nodes are blank, and the free list runs from `n-1` down to 2. |
| PddInit.FirstValue | src/math/dd/dd_pdd.cpp:492-509 | `init_value` on an empty pool slot. The value takes the next slot, its node is taken from the back of the free list, and the value table records both. |
| PddInit.AddOpNodes | src/math/dd/dd_pdd.cpp:41-45 | Exactly `pdd_no_op + 1` self-indexed nodes are appended with the maximal reference count. Nothing else changes. |
| PddInit.StartValid | src/math/dd/dd_pdd.cpp:26-45 | The initial arena, with its free list and tables as built, satisfies the full invariant. |
| PddManager.Manager.Push | src/math/dd/dd_pdd.cpp:447-449 | Pushing a live node keeps the invariant and protects that node. |
| PddApply.StackDiscipline | src/math/dd/dd_pdd.cpp:447-457 | After `push(b)`, `read(1)` is `b`, `read(i+1)` is the old `read(i)`, and `pop(1)` restores the state. |
| PddApply.PopRestores | src/math/dd/dd_pdd.cpp:451-453 | Popping the `n` entries a computation pushed restores the stack it started with. |
| PddApply.PopEntry | src/math/dd/dd_pdd.cpp:459-474 | Yields a pending entry for `(l, r, op)` and leaves no spare entry behind. |
| PddApply.PushEntry | src/math/dd/dd_pdd.cpp:476-479 | Requires that no spare entry is held; the entry becomes the spare. |
| PddApply.CheckResult | src/math/dd/dd_pdd.cpp:91-105 | Reports a hit exactly when an entry was found. A found pending entry is the source's failed assertion (`Fault`). A found computed entry recycles the new entry as the spare. |
| PddApply.ApplyRec | src/math/dd/dd_pdd.cpp:107-245 | For add, mul and reduce on protected operands: the step keeps the invariant and everything protected; a result keeps the stack, is live, and is at most at the top level of an operand (of `p`, for reduce). A reduction is reduced by `q` (`PddState.ReducedBy`): unless `q` is a value, `q`'s leading monomial does not divide the result's, on every path (base cases, cache hits, the child-by-child split and `reduce_on_match`). |
| PddApply.AddRec | src/math/dd/dd_pdd.cpp:109-115 | `0 + q = q` and `p + 0 = p` with no state change. Two values give the value node of their normalized sum, which faults exactly when mod-2 mode meets a non-integer. |
| PddApply.AddPast | src/math/dd/dd_pdd.cpp:112-115 | The value-value case of addition, with the same value postcondition as `AddRec`. |
| PddApply.MulRec | src/math/dd/dd_pdd.cpp:116-123 | A zero operand gives zero, and a one operand gives the other operand, with no state change. Two values give the value node of their normalized product, with a fault exactly on a non-integer in mod-2 mode. |
| PddApply.ReduceRec | src/math/dd/dd_pdd.cpp:124-128 | When `q` is zero, `p` is a value, or `p` lies below `q`, the result is `p` and the state is unchanged. Every result, these included, is reduced by `q`. |
| PddApply.ApplyStep | src/math/dd/dd_pdd.cpp:134-139 | A computed cache entry is returned as is, with its entry recycled. A pending entry is a fault. Every outcome satisfies the `apply_rec` postcondition. |
| PddApply.CacheHit | src/math/dd/dd_pdd.cpp:136-139 | A computed entry answers the operation without changing the state beyond the spare flag; a cached reduction is reduced by its divisor, by the cache invariant. |
| PddApply.ApplyMiss | src/math/dd/dd_pdd.cpp:140-244 | A new pending entry is inserted, the case split runs, and the result is stored in the entry; the `apply_rec` postcondition holds. |
| PddApply.AddLo | src/math/dd/dd_pdd.cpp:147-161 | `x*hi(p) + (lo(p) + q)` for a value `q` or a lower `q` satisfies the `apply_rec` postcondition. |
| PddApply.AddSame | src/math/dd/dd_pdd.cpp:152-156 | Equal levels: `x*(hi(p)+hi(q)) + (lo(p)+lo(q))` satisfies the `apply_rec` postcondition. |
| PddApply.MulSame | src/math/dd/dd_pdd.cpp:188-214 | The integer equal-level product (four sub-products, the `ad + bc` split and one or two `make_node`s) satisfies the `apply_rec` postcondition. |
| PddApply.MulSplit | src/math/dd/dd_pdd.cpp:204-208 | When `n = ad + bc` has the top level, `x*(x*(ac + hi(n)) + lo(n)) + bd` satisfies the `apply_rec` postcondition. |
| PddApply.LoHi | src/math/dd/dd_pdd.cpp:216-229 | Multiplication by a value or by a lower polynomial, and reduction by a lower `q`, child by child (`x*(hi(p) op q) + (lo(p) op q)`), satisfy the `apply_rec` postcondition. For reduction the result is reduced by `q`: its `hi` child is, and `q` lies below it. |
| PddApply.Dispatch | src/math/dd/dd_pdd.cpp:144-238 | The case split of `apply_rec` on the operation and the operands' levels satisfies the `apply_rec` postcondition in every case. |
| PddApply.MulMod2 | src/math/dd/dd_pdd.cpp:174-187 | The mod-2 equal-level product with `bd = lo(p)*lo(q)` taken from the top of the stack satisfies the `apply_rec` postcondition, including the level bound. |
| PddApply.Mod2BdAsWrittenWrong | src/math/dd/dd_pdd.cpp:179-180 | As written, `read(3)` after one push returns the caller's entry `u` instead of the product; with the product alone on the stack there is no third entry. |
| PddApply.Mod2BdAsWrittenExample | src/math/dd/dd_pdd.cpp:179-185 | A concrete stack `[x1, x0]` left by an enclosing computation: for a product at level 1, `read(3)` gives `x1`, which is not below level 1, so the node `make_node(1, bd, x0)` would break the level order. |
| PddApply.MakeAndPop | src/math/dd/dd_pdd.cpp:239-244 | `make_node` over the two pushed operands followed by `pop(npop)` gives the `apply_rec` postcondition. |
| PddApply.Apply | src/math/dd/dd_pdd.cpp:73-89 | In a scope, `apply_rec` runs with one retry after `try_gc`. The result satisfies the `apply_rec` postcondition, the stack is restored, and a memory-out leaves an empty cache. A reduction is reduced by `q`. |
| PddApply.Retry | src/math/dd/dd_pdd.cpp:81-85 | Collect, then recompute. A second memory-out collects again and is reported with an empty cache. |
| PddApply.Scoped | src/math/dd/dd_pdd.cpp:76 | The scope restores the stack at exit and passes the outcome through unchanged. |
| PddApply.GcStep | src/math/dd/dd_pdd.cpp:556-564 | `try_gc` keeps everything protected and the stack, and empties the cache. |
| PddManager.Manager.Apply | src/math/dd/dd_pdd.cpp:73-89 | The manager-level `apply` keeps the invariant, with the postcondition of `PddApply.Apply`, including that a reduction is reduced by `q`. |
| PddMinus.MinusRec | src/math/dd/dd_pdd.cpp:268-282 | Faults in mod-2 mode (the source's assertion). `-0 = 0` with no state change. A value's negation is the value node of `-val(p)`. The `apply_rec` postcondition holds for the minus operation, and every result negates `p` node by node (`PddSpec.Negated`: the same levels, with every value negated). |
| PddMinus.MinusStep | src/math/dd/dd_pdd.cpp:272-275 | A cache hit returns the stored result, which negates `p`; a pending entry faults. |
| PddMinus.MinusMiss | src/math/dd/dd_pdd.cpp:272-281 | A new pending entry for `(p, p, minus)` receives the negation computed for `p`. |
| PddMinus.MinusNode | src/math/dd/dd_pdd.cpp:276-281 | Pushes both negated children and builds `x*(-hi) + (-lo)`; the `apply_rec` postcondition holds and the new node negates `p`. |
| PddMinus.PushMinus | src/math/dd/dd_pdd.cpp:276-277 | `push(minus_rec(x))`: the result is pushed, protected, no higher than `x`, and negates `x`. |
| PddMinus.Minus | src/math/dd/dd_pdd.cpp:247-266 | In mod-2 mode `p` is its own negation and nothing changes. Otherwise `minus_rec` runs in a scope with one retry after collection, the stack is restored, a memory-out leaves an empty cache, and a result negates `p`. |
| PddMinus.MinusRetry | src/math/dd/dd_pdd.cpp:258-262 | The second attempt of `minus` after collection; a second memory-out collects again; a result negates `p`. |
| PddManager.Manager.Minus | src/math/dd/dd_pdd.cpp:247-266 | `minus` on the manager class, with the postcondition of `PddMinus.Minus`. |
| PddSpec.NegatedMonomials | src/math/dd/dd_pdd.cpp:268-282 | A negation lists the monomials of the original in the same order, each with its coefficient negated. |
| PddSpec.NegatedSymmetric | src/math/dd/dd_pdd.cpp:268-282 | Negation is symmetric: if `r` negates `p`, then `p` negates `r`. |
| PddState.ReducedByMeaning | src/math/dd/dd_pdd.cpp:295-308 | `ReducedBy(q, r)` for a live non-value `q` holds exactly when the leading monomial of `q` does not divide that of `r`, as multisets of levels. |
| PddSpec.LmDividesKeptOn | src/math/dd/dd_pdd.cpp:295-308 | `lm_divides` gives the same answer on two snapshots that agree on a closed set holding both arguments. |
| PddAlloc.LmDividesProtected | src/math/dd/dd_pdd.cpp:295-308 | `lm_divides` between protected nodes gives the same answer after any step that keeps the protected nodes. |
| PddApply.StillReduced | src/math/dd/dd_pdd.cpp:224-227 | A result reduced by `q` stays reduced through later steps while both are protected. |
| PddApply.ReduceBase | src/math/dd/dd_pdd.cpp:124-128 | A value `p`, a value `q`, or a `p` below `q`: `p` is already reduced by `q`. |
| PddApply.ReducedNode | src/math/dd/dd_pdd.cpp:224-227 | A node above `q`'s top level is reduced by `q` when its `hi` child is. |
| PddApply.ReducedResult | src/math/dd/dd_pdd.cpp:224-227 | `make_node(level(p), lo', hi')` over two children reduced by a lower `q` is reduced by `q`, also when `hi'` is zero and the node is `lo'`. |
| PddState.NegatedUniqueOf | src/math/dd/dd_pdd.cpp:520-533 | Under hash-consing and the exact value table, two live nodes that negate the same live node are equal. |
| PddMinus.NegatedUnique | src/math/dd/dd_pdd.cpp:268-282 | In a valid manager, the negation of a live node is unique among live nodes. |
| PddMinus.NegatedTwice | src/math/dd/dd_pdd.cpp:268-282 | Negating a negation gives back the original node. |
| PddMinus.NegatedMeaning | src/math/dd/dd_pdd.cpp:268-282 | In a valid manager, the monomials of a negation are those of the original with every coefficient negated, for any level-to-variable map. |
| PddMinus.NegatedNonZero | src/math/dd/dd_pdd.cpp:278 | The negation of a live non-zero node is not zero, so `make_node` keeps the negated `hi` child. |
| PddSpec.LmDividesIff | src/math/dd/dd_pdd.cpp:295-308 | `lm_divides(p, q)` holds exactly when the multiset of `p`'s leading-monomial levels is contained in `q`'s. |
| PddQuery.LmDividesLoop | src/math/dd/dd_pdd.cpp:296-308 | The loop computes the recursive `LmDivides`. |
| PddApply.LtQuotient | src/math/dd/dd_pdd.cpp:310-325 | For `lm_divides(p, q)`, the result is live and no higher than `q`. For two values it is the node of `-val(q)/val(p)`, normalized, or a fault when `val(p)` is zero or mod-2 mode meets a non-integer. |
| PddApply.VarTimes | src/math/dd/dd_pdd.cpp:324 | The last case of `lt_quotient`: `apply(var2pdd[var(q)], x, mul)` with `x` pushed is live, no higher than `q`, and returned on the caller's stack. |
| PddApply.MulRestored | src/math/dd/dd_pdd.cpp:324 | The product of two operands at most at level `b` is live, at most at level `b`, and returned on the caller's stack. |
| PddApply.LmDividesVal | src/math/dd/dd_pdd.cpp:313-324 | Divisibility carries over to the recursive calls: to `hi(p), hi(q)` on equal levels, and to `p, hi(q)` otherwise. A value `q` can be divided only by a value. |
| PddApply.ReduceOnMatch | src/math/dd/dd_pdd.cpp:284-293 | A value `q` is the source's failed assertion. Every loop step keeps the `apply_rec` postcondition. At exit, `q`'s leading monomial does not divide the result's. |
| PddSpec.CommonFactorsCorrect | src/math/dd/dd_pdd.cpp:346-378 | The result is present exactly when the two leading monomials share a variable. Then `p = A - B` and `q = B - A` as multisets, `A + q = B + p` (their least common multiple), and the coefficients are the leading leaves. |
| PddQuery.CommonFactors | src/math/dd/dd_pdd.cpp:346-378 | The walk returns exactly the reference result: `p` and `q` as variables through `level2var`, and the coefficients divided by their gcd when both are integers outside mod-2 mode. |
| PddQuery.CollectSpine | src/math/dd/dd_pdd.cpp:366-372 | Collecting down a `hi` spine appends that spine's levels and ends at its leading leaf. |
| PddSpec.ReducedCoprime | src/math/dd/dd_pdd.cpp:373-376 | Division by the gcd leaves coprime integral coefficients. |
| PddSpec.ReducedKeepsSigns | src/math/dd/dd_pdd.cpp:373-376 | Division by the gcd keeps both signs. |
| PddSpec.GcdIsGreatest | src/math/dd/dd_pdd.cpp:373-376 | The gcd is positive unless both arguments are 0, divides both, and is divisible by every common divisor. |
| PddSpoly.TrySpoly | src/math/dd/dd_pdd.cpp:332-334 | `found` is exactly "the leading monomials share a variable". When it is false, the state and `r` are untouched. Otherwise the S-polynomial is computed with the stack restored. |
| PddSpoly.Spoly | src/math/dd/dd_pdd.cpp:336-344 | `a*q*qc + b*p*(-pc)` keeps everything protected, restores the stack, and a result is live. |
| PddSpoly.Multiple | src/math/dd/dd_pdd.cpp:337-339 | `x * vs[0] * ... * vs[n-1] * c`, built from the last variable on, is a protected result left on top of the stack. |
| PddQuery.LtLoop | src/math/dd/dd_pdd.cpp:385-409 | The loop computes the reference `Lt`, and its two ids never coincide (the source's assertion). |
| PddSpec.LtStrictOrder | src/math/dd/dd_pdd.cpp:385-409 | `lt` is irreflexive, asymmetric and transitive over live polynomials. |
| PddState.LtTotalOf | src/math/dd/dd_pdd.cpp:385-409 | Under hash-consing and the exact value table, `lt` is total: of two different live nodes one is smaller than the other. |
| PddQuery.DifferentLeadingTermLoop | src/math/dd/dd_pdd.cpp:414-428 | The loop computes the reference `DifferentLeadingTerm`. |
| PddSpec.SameLeadingTerm | src/math/dd/dd_pdd.cpp:414-428 | When `different_leading_term` is false, the leading monomials and the leading coefficients agree. |
| PddSpec.DifferentMonomialsDiffer | src/math/dd/dd_pdd.cpp:414-428 | Different leading monomials make `different_leading_term` true. |
| PddQuery.IsLinearLoop | src/math/dd/dd_pdd.cpp:435-445 | The loop computes the reference `IsLinear`. |
| PddSpec.LinearIffDegreeAtMostOne | src/math/dd/dd_pdd.cpp:435-445 | `is_linear(p)` holds exactly when `degree(p) <= 1`. |
| PddBuild.ImkVal | src/math/dd/dd_pdd.cpp:481-490 | 0 and 1 are nodes 0 and 1, with no state change. A known value returns its node. Mod-2 mode reduces modulo 2 and faults exactly on a non-integer. A result is a value node holding the normalized value, and every value node stays registered in the value table. |
| PddBuild.Mod2Image | src/math/dd/dd_pdd.cpp:484 | An integer modulo 2 is 0 or 1, and reducing it again changes nothing. |
| PddBuild.InitValue | src/math/dd/dd_pdd.cpp:492-509 | The value takes the last free slot, or the next new slot when none is free. It becomes the freeze value, gets a value node, and is recorded in the table. A memory-out happens exactly when the arena is full and at its cap. |
| PddBuild.LookupValue | src/math/dd/dd_pdd.cpp:485-489 | A known value returns its node unchanged; an unknown one is added through `init_value`. |
| PddBuild.MakeNode | src/math/dd/dd_pdd.cpp:511-518 | `h == 0` gives `l` and clears the new-node flag. Otherwise the result is the unique node of shape `(lvl, l, h)`: an existing node on a hit, a fresh node exactly on a miss. A memory-out is possible only when the arena is at its cap. At most one free node is used. |
| PddOps.InsertNode | src/math/dd/dd_pdd.cpp:520-554 | A table hit returns the existing node with no state change. With a free node, the last one is taken and registered. Otherwise collection runs, then growth by half. A memory-out happens exactly when growth is needed beyond the cap. A fault marks a collected child. |
| PddOps.MakeRoom | src/math/dd/dd_pdd.cpp:528-540 | Collection unless disabled. Whenever the free list was empty before that collection, the arena also grows, or reports a memory-out at the size limit. The shape stays absent and admissible. The error cases are stated both ways. |
| PddOps.Place | src/math/dd/dd_pdd.cpp:545-553 | The last free node gets the fresh record and the table entry, and everything protected is kept. |
| PddOps.CollectFor | src/math/dd/dd_pdd.cpp:529-534 | Collection before an insertion keeps everything protected. A fault happens exactly when a child of the shape was collected. |
| PddOps.GrowOrFail | src/math/dd/dd_pdd.cpp:535-540 | A memory-out happens exactly when the arena is above its cap; otherwise the arena grows by `|nodes| / 2`. |
| PddOps.AllocFreeNodes | src/math/dd/dd_pdd.cpp:686-693 | `n` blank self-indexed nodes are appended and listed from the highest down; every invariant is kept. |
| PddOps.Gc | src/math/dd/dd_pdd.cpp:695-766 | Everything protected keeps its record. Exactly the collectable nodes are blanked and listed, in decreasing order. The value table shrinks, pending cache entries are kept and the rest are dropped. The invariant is kept. |
| PddOps.TryGc | src/math/dd/dd_pdd.cpp:556-564 | Collection followed by an empty cache keeps everything protected. |
| PddManager.Manager.TryGc | src/math/dd/dd_pdd.cpp:556-564 | `try_gc` on the manager class, with the postcondition of `PddOps.TryGc`. |
| PddGc.MarkRoots | src/math/dd/dd_pdd.cpp:699-709 | Every stack entry and every referenced node from index 2 up is marked and listed. |
| PddGc.Propagate | src/math/dd/dd_pdd.cpp:710-723 | Marks grow within the bound until the marked set is closed under children. |
| PddGc.MarkReachable | src/math/dd/dd_pdd.cpp:699-723 | A node is marked exactly when it is protected. |
| PddGc.Sweep | src/math/dd/dd_pdd.cpp:724-738 | Unmarked nodes from index 2 up are blanked, except a value equal to the freeze value. Their value slots are freed and their values leave the table. The free list lists them in decreasing order. |
| PddGc.KeepPending | src/math/dd/dd_pdd.cpp:740-755 | The cache keeps exactly its pending entries. |
| PddGc.RebuildTable | src/math/dd/dd_pdd.cpp:757-764 | Every entry names a marked node of its shape, and every marked node's shape is present. |
| PddGc.Collect | src/math/dd/dd_pdd.cpp:695-766 | `gc` over the manager's fields re-establishes every invariant and has the effect stated for `PddOps.Gc`. |
| PddGc.GcEffectHolds | src/math/dd/dd_pdd.cpp:695-766 | The marking and the sweep together give the stated effect of `gc`. |
| PddAlloc.FreeNotProtected | src/math/dd/dd_pdd.cpp:531 | No free node is protected. |
| PddAlloc.KeptTrans | src/math/dd/dd_pdd.cpp:695-766 | Keeping what is protected composes across steps that only grow the stack. |
| PddBuild.ReserveVar | src/math/dd/dd_pdd.cpp:566-574 | Variables are added up to `i`, each new variable `k` at level `k` with its pinned node. Existing variables are untouched, and nothing changes when `i` is already reserved. `ok` holds exactly when `i` is reserved. At most one free node is used per new variable, so `ok` holds whenever the free list has a node for every missing variable. |
| PddBuild.PinVar | src/math/dd/dd_pdd.cpp:569-572 | The new node is pinned and `v` joins both maps at level `v`; nothing else changes and the invariant holds. |
| PddBuild.AddVar | src/math/dd/dd_pdd.cpp:567-573 | One new variable `v` gets level `v` and a pinned node `x_v`. It fails only on a memory-out, and then the order is unchanged. At most one free node is used. |
| PddBuild.MkVar | src/math/dd/dd_pdd.cpp:576-579 | The result is variable `i`'s pinned node of shape `(v2l[i], 0, 1)`, with nothing changed when `i` was already reserved. |
| PddManager.Manager.MkVar | src/math/dd/dd_pdd.cpp:576-579 | `mk_var` on the manager class, with the postcondition of `PddBuild.MkVar`. |
| PddOrder.SetLevel2Var | src/math/dd/dd_pdd.cpp:581-587 | For a permutation `q` of the levels, `var2level[q[l]] = l`, and the pinned node of `q[l]` is the old pinned node at level `l`. The invariant is kept. |
| PddOrder.Repoint | src/math/dd/dd_pdd.cpp:583-586 | The loop makes `v2l` the inverse of `q` and moves each pinned node to its new variable. |
| PddOrder.SetLevel2VarAsWritten | src/math/dd/dd_pdd.cpp:581-587 | As written, only `var2level` and `level2var` change, and `var2level[q[l]] = l`. |
| PddOrder.StaleVarNode | src/math/dd/dd_pdd.cpp:581-587 | For two variables and `q = [1, 0]`, the as-written update leaves variable 0's node at level 0 while `var2level[0] = 1`. The order invariant fails for every `v2l` it can produce. |
| PddTraverse.InitMark | src/math/dd/dd_pdd.cpp:768-775 | The marks are resized to the arena. The level increments, and on 32-bit wrap-around it restarts at 1 with every mark cleared. Afterwards nothing is marked. |
| PddTraverse.DagSize | src/math/dd/dd_pdd.cpp:589-614 | The result is the number of nodes reachable from `p`, except 0 and 1. Only the marks change. |
| PddTraverse.CountLoop | src/math/dd/dd_pdd.cpp:593-613 | The marking loop counts the reachable nodes other than 0 and 1. |
| PddManager.Manager.DagSize | src/math/dd/dd_pdd.cpp:589-614 | `dag_size` on the manager class, with the postcondition of `PddTraverse.DagSize`. |
| PddTraverse.DegreeWalk | src/math/dd/dd_pdd.cpp:616-639 | The post-order walk returns the reference `Degree`. Only the marks change. |
| PddTraverse.DegreeVisit | src/math/dd/dd_pdd.cpp:621-636 | One step of the walk keeps the walk's invariant and makes progress. |
| PddManager.Manager.Degree | src/math/dd/dd_pdd.cpp:616-639 | `degree` on the manager class, with the postcondition of `PddTraverse.DegreeWalk`. |
| PddSpec.LeadingMonomialWithinDegree | src/math/dd/dd_pdd.cpp:616-639 | The leading monomial has at most `degree(p)` variables. |
| PddTraverse.TreeSizeWalk | src/math/dd/dd_pdd.cpp:642-665 | The post-order walk returns the reference `TreeSize`. Only the marks change. |
| PddSpec.ReachWithinTreeSize | src/math/dd/dd_pdd.cpp:642-665 | The DAG reachable from `p` has at most `tree_size(p)` nodes. |
| PddTraverse.FreeVarsWalk | src/math/dd/dd_pdd.cpp:667-683 | The result lists each variable of a node reachable from `p` exactly once, and nothing else. Only the marks change. |
| PddManager.Manager.FreeVars | src/math/dd/dd_pdd.cpp:667-683 | `free_vars` on the manager class, with the postcondition of `PddTraverse.FreeVarsWalk`. |
| PddTraverse.FreeStep | src/math/dd/dd_pdd.cpp:671-681 | One step of the walk keeps its marking and witness invariants and makes progress. |
| PddSpec.FirstMonomialIsLeading | src/math/dd/dd_pdd.cpp:777-795 | The first monomial `to_monomials` lists for a non-zero `p` is the leading term: the leading coefficient with the leading monomial's variables. |
| PddSpec.MonomialsNonZero | src/math/dd/dd_pdd.cpp:777-795 | `to_monomials` lists no zero coefficient. |
| PddQuery.WellFormed | src/math/dd/dd_pdd.cpp:825-855 | `well_formed()` returns true exactly when every free node is blank and unreferenced and every node passes the per-node level check. |
| PddQuery.CoreWellFormed | src/math/dd/dd_pdd.cpp:825-855 | The manager's invariant implies what `well_formed()` checks, so its assertions never fail on a valid manager. |

## Left out

- Recursion bound: `apply_rec`, `minus_rec`, `lt_quotient` and `reduce_on_match` take a `fuel` budget and answer `OutOfFuel` when it runs out. The source terminates because of the monomial order, which the model does not prove.
- Handles and reference counting: `pdd` objects and `inc_ref`/`dec_ref` live in `dd_pdd.h`, which is not part of this model. Callers protect nodes by pushing them on the stack. Reference counts are only 0 or the pinning maximum.
- The operation cache: it is a map from `(p, q, op)` to a slot; the allocator of entries and pointer identity are not modelled.
- I/O: `display`, verbose output and the statistics are left out.
- `tree_size` is a `nat`, not a `double`, so the model has no rounding.
- Failed assertions: the `SASSERT` failures the source can reach are the outcome `Fault`. There are six: a pending cache entry (`check_result`); a zero value divisor in `lt_quotient`; negation in mod-2 mode (`minus_rec`); a value `q` in `reduce_on_match`; a child collected before `insert_node` stores its node (line 531); and a fractional rational reduced modulo 2 in `imk_val`, where the assertion sits in `rational`'s `mod`, which is not part of this model.
- Scratch contents: stale contents of `m_degree` and `m_tree_size` are not modelled. `m_todo`, `m_free_vars`, `m_p`, `m_q`, `m_pc` and `m_qc` are locals.
- The destructor and the public wrappers `add`, `sub`, `mul`, `reduce`, `mk_val`, `zero` and `one`: the wrappers only wrap `apply`, `minus` and `imk_val` in handles.
- Exceptions: `mem_out` is the outcome `MemOut`.
- PddApply.ApplyRec: the contract is structural (invariant, protection, level bound) and does not state the polynomial the result denotes.
- PddApply.LtQuotient: requires `lm_divides(p, q)`, which the source asserts and its only caller checks first.
- PddApply.LtQuotient: beyond the two-value case, the contract does not state `lt(q) = lt(p) * -r`; it states liveness and the level bound only.
- PddApply.LtQuotient: the model pushes the inner quotient before it calls `apply(var, quotient, mul)`; the source (line 324) leaves it unprotected. The nested `apply` may collect (`insert_node` runs `gc` when the free list is empty) or run `try_gc` on a memory-out, which frees every cache entry including the pending entries of outer frames. The model's protection is what the code evidently relies on, so the resulting hazards (a collected operand, a write into a freed entry) are not modelled.
- PddApply.ReduceOnMatch: the model keeps the running polynomial, the quotient and the product on the stack across the nested `apply` calls; the source (lines 288-290) does not protect them, with the same collection and `try_gc` hazards as for `lt_quotient`. The contract rests on that protection.
- PddApply.ReduceOnMatch: the contract does not relate the result to `p - k*q`; it states the `apply_rec` postcondition and that `q`'s leading monomial no longer divides the result's.
- PddSpoly.Multiple: the contract does not state that the result denotes `x * vs[0] * ... * c`, since the model does not give `apply` a polynomial meaning; it states that the result is protected on top of the stack.
- PddQuery.CommonFactors: when the result is false, `p`, `q`, `pc` and `qc` are left unspecified (the source leaves partial contents in them).
- PddSpoly.Spoly: requires that the variables in `p` and `q` are reserved, as the caller ensures; it does not state the polynomial computed.

## Findings

| source | as written | input that shows it | evidently intended | confidence | as-written member | corrected member |
|---|---|---|---|---|---|---|
| src/math/dd/dd_pdd.cpp:179-180 | mod-2 multiplication of two polynomials with the same top level takes `bd = read(3)` right after pushing `lo(p)*lo(q)` | stack `[u, v]` before the call: `bd` becomes the caller's `u`, so the result node may have a child above its own level; with an empty stack `read(3)` lies outside the stack | `bd = read(1)`, the product just pushed | not executed | PddApply.Mod2BdAsWrittenWrong | PddApply.MulMod2 |
| src/math/dd/dd_pdd.cpp:581-587 | `set_level2var` updates `var2level` and `level2var` but not `var2pdd` | two variables and the order `[1, 0]`: variable 0 keeps the node at level 0, but now sits at level 1 | the pinned variable nodes follow the new order | not executed | PddOrder.SetLevel2VarAsWritten, PddOrder.StaleVarNode | PddOrder.SetLevel2Var |
