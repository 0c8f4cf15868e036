# Forward-checking CSP solver, modelled in Dafny

The system is a small solver for binary constraint satisfaction problems of
the graph-colouring kind (`2Way/2WaySolverTest.py`). The search works on
three things:

- a store of **domains**: each variable's ordered list of candidate values;
- a **queue**: the order in which variables are assigned;
- the **arcs**: both orientations of every constraint.

The search, `forwardCheck`, starts by letting a variable-ordering heuristic
reorder the queue. It then pins the variable at the current depth to its
first remaining value and revises every arc whose tail is that variable. A
revision prunes the arc's head to the values that some tail value
*supports* under the chosen relation. The relation is inequality (colouring)
or equality. After the revision pass:

- if it succeeded, the search descends to the next depth;
- if it failed, the search retries the same depth with the variable's
  remaining values, and the neighbours stay pruned;
- if it failed with no values left, the search gives up.

There are three heuristics:

- **maximum degree**: a static, stable descending sort by constraint count;
- **maximum cardinality**: a static greedy order by links to the variables
  already placed;
- **smallest domain first**: dynamic; it swaps the earliest smallest-domain
  variable of the unassigned suffix into place.

The model is functional. The domain store is a `map<Var, seq<Val>>` and the
queue is a `seq<Var>`. Every operation is a pure function. Python's
in-place updates become new values that are returned.

| file | module | contents |
|---|---|---|
| `csp.dfy` | `Csp` | variables, values, domain store, constraint and arc pairs, the two relations |
| `lists.dfy` | `Lists` | `min`, `max`, `list.index` as the heuristics use them |
| `setup.dfy` | `Setup` | `assignDomains`, `generateArcs` |
| `revision.dfy` | `Revision` | the shared revise of `reviseInequality` / `reviseEquality`, with its `None`-marking loop |
| `revision_laws.dfy` | `RevisionLaws` | idempotence and the empty-tail and single-valued-tail laws |
| `domain_order.dfy` | `DomainOrder` | `sdf` |
| `degree_order.dfy` | `DegreeOrder` | `maximumDegree` |
| `cardinality_order.dfy` | `CardinalityOrder` | `maximumCardinality` |
| `search.dfy` | `Search` | `forwardCheck`: reordering, the revision pass, one trial, termination |
| `soundness.dfy` | `Soundness` | a reported solution satisfies every constraint |
| `instances.dfy` | `Instances` | worked instances: a one-variable problem, a self-arc, a solvable instance reported unsolvable |

Modelling choices:

- **Types.** Variables are strings and values are integers, as in the
  instance `main` builds (`x1` .. `x7`, values 1 .. 4).
- **The `None` marks.** Revision marks unsupported cells with `None` and
  then filters them out. The model keeps the marks as `Option<Val>` cells,
  so that `None != v` behaves as it does in Python.
- **Self-arcs.** When an arc's head and tail are the same variable, the
  list being marked is also the list searched for support. The model
  follows this, so on a self-arc it departs from the plain filter.
- **Exceptions.** Apart from Python's recursion limit (see "Left out"),
  two situations on well-formed input make the source raise, and the model
  returns the outcome `Raised` for both:
  - an empty queue. The heuristic raises first: `min([])` in `sdf`
    (line 119, a `ValueError`) or `queue.pop(0)` in `maximumCardinality`
    (line 145, an `IndexError`). With maximum degree or no heuristic,
    `queue[depth]` at line 83 raises an `IndexError`;
  - `pop(0)` at line 83 on an empty domain. The domain is empty either
    because the template was empty, or because an earlier failed trial
    emptied it and smallest domain first then selects it.
- **Missing names.** A name missing from the domain store (a `KeyError`)
  is excluded by a precondition instead.
- **Termination.** The search terminates on the measure
  (`|queue| - depth`, total number of values in the store).

## Model

| member | source | states |
|---|---|---|
| `Lists.Min` | 2Way/2WaySolverTest.py:119 | `min` of a non-empty list is one of its elements and no larger than any element |
| `Lists.Max` | 2Way/2WaySolverTest.py:158 | `max` of a non-empty list is one of its elements and no smaller than any element |
| `Lists.IndexOf` | 2Way/2WaySolverTest.py:119 | `index` returns a position holding the element, and no earlier position holds it |
| `Setup.AssignDomains` | 2Way/2WaySolverTest.py:10-14 | the store's keys are exactly the given variables, and each is mapped to a list equal to the template |
| `Setup.GenerateArcs` | 2Way/2WaySolverTest.py:17-23 | twice as many arcs as constraints; arc `2i` is constraint `i` and arc `2i+1` its reversal; every arc is a constraint or a reversed constraint |
| `Setup.GenerateArcsBothWays` | 2Way/2WaySolverTest.py:17-23 | every constraint occurs among the arcs in both orientations |
| `Setup.GenerateArcsSymmetric` | 2Way/2WaySolverTest.py:17-23 | the arc list is closed under reversal |
| `Revision.Supported` | 2Way/2WaySolverTest.py:28-40 | the reference filter: a value is kept iff it is in the head list and some tail value supports it; the result is no longer than the head list |
| `Revision.MarkUnsupported` | 2Way/2WaySolverTest.py:28-37 | the marking loop only overwrites cells with `None`, never touches cells before the start position, and without aliasing marks exactly the cells with no related tail cell |
| `Revision.DropMarkedAgainst` | 2Way/2WaySolverTest.py:28-40 | without aliasing, marking then dropping the `None` cells equals the reference filter |
| `Revision.SelfArcShort` | 2Way/2WaySolverTest.py:28-40 | on a self-arc whose domain has at most one value, marking then dropping equals the reference filter |
| `Revision.Revise` | 2Way/2WaySolverTest.py:27-62 | only the head's entry changes; it only loses values; it is exactly the order-preserving supported subsequence whenever head and tail differ or the head has at most one value; the result is true iff the new head domain is non-empty |
| `RevisionLaws.SupportedIdempotent` | 2Way/2WaySolverTest.py:40 | filtering twice against the same tail equals filtering once |
| `RevisionLaws.ReviseIdempotent` | 2Way/2WaySolverTest.py:27-62 | for an arc between two different variables, revising a second time gives the same store and the same result as the first revision |
| `RevisionLaws.ReviseEmptyTail` | 2Way/2WaySolverTest.py:27-62 | against an empty tail domain, revision empties the head and reports failure, under either relation |
| `RevisionLaws.SupportedEmptyTail` | 2Way/2WaySolverTest.py:31-37 | no value has support in an empty list |
| `RevisionLaws.InequalitySingleton` | 2Way/2WaySolverTest.py:31-37 | under inequality, filtering against `[w]` removes exactly the copies of `w` |
| `RevisionLaws.EqualitySingleton` | 2Way/2WaySolverTest.py:53-57 | under equality, filtering against `[w]` keeps exactly the copies of `w` |
| `RevisionLaws.ReviseInequalityPinnedTail` | 2Way/2WaySolverTest.py:27-46 | `reviseInequality` with a tail pinned to `w` leaves the head without any `w` and otherwise unchanged |
| `RevisionLaws.ReviseEqualityPinnedTail` | 2Way/2WaySolverTest.py:50-62 | `reviseEquality` with a tail pinned to `w` leaves only the head's copies of `w` |
| `DomainOrder.Sizes` | 2Way/2WaySolverTest.py:114-116 | the size list has one entry per suffix variable, equal to that variable's domain size |
| `DomainOrder.Swap` | 2Way/2WaySolverTest.py:123-124 | the tuple swap exchanges the two positions and leaves every other position as it was |
| `DomainOrder.SwapPermutes` | 2Way/2WaySolverTest.py:123-124 | the swap is a permutation, and it leaves every position before the smaller index alone |
| `DomainOrder.SmallestDomainFirst` | 2Way/2WaySolverTest.py:107-126 | a permutation of the queue with the assigned prefix unchanged; the earliest suffix variable of smallest domain is swapped with the one at `depth`, and every other position is untouched |
| `DegreeOrder.InsertByDegree` | 2Way/2WaySolverTest.py:136 | insertion adds exactly the new variable, keeps a degree-sorted list sorted, and puts the new variable before all earlier entries of its own degree |
| `DegreeOrder.MaximumDegree` | 2Way/2WaySolverTest.py:129-137 | a permutation of the queue, non-increasing in constraint count, and stable: the variables of each degree keep their queue order |
| `CardinalityOrder.LinkCounts` | 2Way/2WaySolverTest.py:149-155 | entry `i` of the cardinality list counts the (constraint, placed variable) pairs in which the constraint mentions both remaining variable `i` and the placed variable |
| `CardinalityOrder.MaxIndexIsEarliestMostLinked` | 2Way/2WaySolverTest.py:158 | the chosen index holds a largest count, and every earlier index holds a smaller one |
| `CardinalityOrder.MostLinkedIndex` | 2Way/2WaySolverTest.py:149-158 | one round of the loop picks an earliest remaining variable with the most links to the placed ones |
| `CardinalityOrder.Greedy` | 2Way/2WaySolverTest.py:148-161 | the selection loop returns the placed variables followed by a permutation of the remaining ones, where each next variable is an earliest most-linked remaining one |
| `CardinalityOrder.MaximumCardinality` | 2Way/2WaySolverTest.py:140-163 | a permutation of the queue that starts with the queue's first variable and continues in greedy earliest-most-linked order |
| `Search.Reorder` | 2Way/2WaySolverTest.py:78-81 | the heuristic step returns a permutation of the queue that leaves the assigned prefix unchanged |
| `Search.ReviseNeighbours` | 2Way/2WaySolverTest.py:87-91 | only heads of arcs into the current variable change, and they only lose values; a consistent pass leaves those heads non-empty; from a pinned current variable it keeps that variable pinned and leaves every other neighbour with exactly the values the pinned value supports; a failed pass stops at an arc whose head it emptied, and nothing after that arc changes |
| `Search.PassVerdict` | 2Way/2WaySolverTest.py:87-91 | from a pinned current variable, the pass succeeds exactly when every arc into it has a head with some value the pinned value supports; a failed pass fails at the first arc into it without support, leaves every arc into it up to that one with exactly the supported values, and changes nothing after it |
| `Search.TakeFailure` | 2Way/2WaySolverTest.py:89-91 | a consistent first revision from a pinned current variable, followed by a failing rest of the pass, fails at the rest's first unsupported arc, which is also the first for the whole pass |
| `Search.TakeStops` | 2Way/2WaySolverTest.py:89-91 | a consistent revision followed by a failing rest of the pass stops where the rest stops (the `and consistent` guard) |
| `Search.TakeExact` | 2Way/2WaySolverTest.py:89-91 | from a pinned current variable, a neighbour revised once or several times ends with exactly its supported values |
| `Search.PinnedStaysPinned` | 2Way/2WaySolverTest.py:89-91 | a consistent revision against a single-valued tail keeps the tail as it was, and leaves in the head only values related to the tail's value |
| `Search.MassOfShrinks` | 2Way/2WaySolverTest.py:83-101 | pointwise smaller domains hold fewer values in total, strictly fewer when one domain is strictly smaller |
| `Search.TrialShrinks` | 2Way/2WaySolverTest.py:83-101 | after a trial every domain is no longer than what it was and draws its values from it, and the store handed to a retry holds strictly fewer values in total |
| `Search.ForwardCheck` | 2Way/2WaySolverTest.py:76-81 | a successful search returns a store with the same variables whose values come from the variables' original domains |
| `Search.Trial` | 2Way/2WaySolverTest.py:83-103 | a successful trial returns a store with the same variables whose values come from the variables' original domains |
| `Soundness.SameSingle` | 2Way/2WaySolverTest.py:86 | a non-empty sub-collection of a domain with at most one value is that domain |
| `Soundness.ReorderKeeps` | 2Way/2WaySolverTest.py:78-81 | reordering keeps every fixed variable fixed and the partial assignment intact |
| `Soundness.PermutedSuffix` | 2Way/2WaySolverTest.py:78-81 | a permutation with the same prefix has the same unassigned variables |
| `Soundness.CurrentIsFresh` | 2Way/2WaySolverTest.py:83-86 | the current variable occurs neither among the fixed variables nor later in the queue |
| `Soundness.PinKeeps` | 2Way/2WaySolverTest.py:83-86 | pinning the current variable leaves the fixed variables' state alone |
| `Soundness.AtMostOneDescent` | 2Way/2WaySolverTest.py:93-97 | after a consistent trial every fixed variable, the current one included, holds at most one value |
| `Soundness.EmptiedDescent` | 2Way/2WaySolverTest.py:93-97 | a fixed variable emptied by an earlier failed trial still has an arc to a variable not yet fixed |
| `Soundness.AgreeDescent` | 2Way/2WaySolverTest.py:93-97 | after a consistent trial, all fixed variables that still hold values, the current one included, satisfy every arc between them |
| `Soundness.DescentKeeps` | 2Way/2WaySolverTest.py:93-97 | a consistent trial at `depth` establishes the partial assignment at `depth + 1` |
| `Soundness.AtMostOneRetry` | 2Way/2WaySolverTest.py:99-101 | a retry leaves every fixed variable with at most one value |
| `Soundness.EmptiedRetry` | 2Way/2WaySolverTest.py:99-101 | a variable a failed pass emptied is the head of an arc to the current variable, which is not yet fixed |
| `Soundness.AgreeRetry` | 2Way/2WaySolverTest.py:99-101 | a retry keeps the arcs between fixed variables satisfied |
| `Soundness.RetryKeeps` | 2Way/2WaySolverTest.py:99-101 | restoring the remaining values after a failed trial keeps the partial assignment at the same depth |
| `Soundness.CompleteSolves` | 2Way/2WaySolverTest.py:94-95 | with every variable fixed, the partial assignment pins each variable to one value and satisfies every arc |
| `Soundness.ForwardCheckSound` | 2Way/2WaySolverTest.py:76-103 | from any partial assignment, a successful search pins every queued variable and satisfies every arc among them |
| `Soundness.TrialSound` | 2Way/2WaySolverTest.py:83-103 | the same for one trial on the reordered queue |
| `Soundness.TrialKeeps` | 2Way/2WaySolverTest.py:83-101 | one trial keeps the store well formed; a consistent pass establishes the partial assignment at the next depth, or solves every arc at the last depth; restoring the remaining values after a pass keeps the partial assignment at the same depth |
| `Soundness.TrialOutcome` | 2Way/2WaySolverTest.py:93-103 | given that the consistent last-depth store solves every arc, and that the recursive call's solution is sound, a solution the trial returns is sound |
| `Soundness.Soundness` | 2Way/2WaySolverTest.py:76-103 | when the queue lists each variable of the store once and the arcs come from the constraints, a successful search pins each variable to one of its original values, and every constraint holds between the pinned values |
| `Instances.LoneVariable` | 2Way/2WaySolverTest.py:76-103 | one variable with domain `[1]` and no constraints is solved with that value, under either relation and every heuristic |
| `Instances.SelfArcNotIdempotent` | 2Way/2WaySolverTest.py:28-40 | under inequality, the self-arc on `[1, 1]` revises to `[1]` and then to `[]` |
| `Instances.ChainDepthZero` | 2Way/2WaySolverTest.py:89-91 | in the chain instance, pinning `a` to 1 prunes `b` to `[1]` and the pass succeeds |
| `Instances.ChainDepthOne` | 2Way/2WaySolverTest.py:89-91 | in the chain instance, pinning `b` to 1 fails the pass by emptying `c` |
| `Instances.ChainSearchZero` | 2Way/2WaySolverTest.py:83-97 | in the chain instance the search at depth 0 gives whatever the search at depth 1 gives, after `a` and `b` are pinned to 1 |
| `Instances.ChainSearchOne` | 2Way/2WaySolverTest.py:83-103 | in the chain instance the search at depth 1, with `b` down to its one value, reports no solution |
| `Instances.NoBacktrackAcrossDepths` | 2Way/2WaySolverTest.py:93-103 | on an equality instance over `a`, `b`, `c`, some choice of values from the domains satisfies both constraints, yet the search returns no solution, because a failure at depth 1 is returned without retrying depth 0 |

## Left out

- Printing, timing and the driver are not modelled: `showSolution`, `noSolution`, `wrapper`, the `timeit` and `sys` imports, and `main` with its hard-coded seven-variable instance.
- Python's recursion limit is not modelled: each descent (line 97) and each retry (line 101) nests a call, so a search with more than about 1000 trials on one path raises `RecursionError` where the model returns `Solved` or `NoSolution`.
- `copy.deepcopy` of the queue in `sdf` and the in-place mutation of caller lists are not modelled. An example is `maximumCardinality` emptying the list it is given (lines 145 and 161). Dafny sequences are values, so the model returns results and never mutates inputs.
- The source passes a heuristic function and an `hType` string separately. The model joins them into one `Heuristic` value. Any other `hType` string runs with the queue as given, which the model covers as `Unordered`. Only a mismatched pair is not modelled: `sdf` with `'static'`, for example, would fail with a Python `TypeError`.
- A name missing from the domain store raises `KeyError` in the source. The model excludes it by precondition: arc endpoints and queued variables must be in the store.
- `CardinalityOrder.MaximumCardinality`: requires a non-empty queue. On an empty queue the source's `pop(0)` raises `IndexError`. The search never calls it with an empty queue, because `ForwardCheck` returns `Raised` before reordering.
- `RevisionLaws.ReviseIdempotent`: holds only for arcs between two different variables. On a self-arc the marking loop reads its own marks, so a second pass can remove more (`Instances.SelfArcNotIdempotent`).
- `Revision.Revise`: equals the plain filter only when head and tail differ or the head has at most one value. For longer self-arc domains it states only that values are lost and never added, which is what the aliased marking loop does.
- `Search.ForwardCheck`: its own contract states only that a solution comes from the original domains. That a solution satisfies the constraints is stated by `Soundness.ForwardCheckSound` and `Soundness.Soundness`.
- Completeness is not claimed, and neither is the claim that the heuristic choice does not affect solvability. When the recursive call at line 97 fails, its result is returned as is, and shallower depths never try their remaining values. `Instances.NoBacktrackAcrossDepths` gives a solvable instance that is reported unsolvable. A search with chronological backtracking would retry shallower depths when the call at line 97 fails; this code returns the failure as is, and the model does the same.
- The source validates nothing: an empty template, unknown names and self-constraints run as written. In the model an empty template leads to `Raised` at the first pop, unknown names are excluded by precondition, and self-arcs are revised with aliasing.
