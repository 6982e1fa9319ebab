# Futoshiki CSP: propagators and model builders

This project models the core of a small finite-domain constraint solver for
Futoshiki puzzles, and proves properties of it. The core has two parts.

- **The propagation engine** (`propagators.py`):
  - `prop_BT` checks the fully assigned constraints on the new variable;
  - `prop_FC` forward-checks constraints that have exactly one unassigned variable;
  - `prop_GAC` enforces generalized arc consistency with a FIFO queue of constraints;
  - `ord_mrv` picks the unassigned variable with the fewest remaining values.
- **The two puzzle-to-CSP builders** (`futoshiki_csp.py`):
  - model 1 uses binary not-equal constraints for every pair of cells of a row or column;
  - model 2 uses one all-different permutation constraint per row and column;
  - both add one ordered-pair constraint per `<` or `>` marker.

The variable, constraint and CSP classes of `cspbase.py` are not part of this
model. Their interface, as the core calls it, is modelled as the class `CspBase.Csp`:

- a variable is its registration index;
- each variable has a domain (`doms`), a set of values not yet pruned (`live`) and an optional assigned value (`asg`);
- the constraints are a list of scopes with explicit satisfying-tuple sets;
- `check(t)` means "t is in the satisfying set";
- an assigned variable's current domain is its assigned value alone, and an unassigned one's is its live domain values in order;
- a value has support in a constraint when some tuple of the product of the other scope variables' current domains, with the value in its place, passes `check`, as enumerated at propagators.py:148-156.

The propagators change `live` in place through `prune_value` and return the
list of pruned pairs. The builders produce the variables, the board (the
per-row variable lists) and the constraint list, then register them in a
fresh CSP.

Files:

- `csp_base.dfy` — the CSP class, support, solutions, and undo logs with the restore property.
- `propagators.dfy` — `PropBT`, `PropFC`, `PropGAC`, `OrdMrv` and their loops.
- `tuples.dfy` — the domain, the marker tuples, the not-equal tuples, line pairs (`combinations`) and permutations.
- `futoshiki.dfy` — the two builders, their registration order, and what each model's constraints accept.

## Model

| member | source | states |
|---|---|---|
| CspBase.Csp.AddVar | futoshiki_csp.py:90-92 | `add_var` appends a variable with its domain, nothing pruned and its assignment, and returns the next index; existing variables and constraints are untouched |
| CspBase.Csp.AddConstraint | futoshiki_csp.py:94-95 | `add_constraint` appends the constraint and changes no variable |
| CspBase.Csp.PruneValue | propagators.py:116 | `prune_value` removes exactly that value from that variable's live set; every other variable, every assignment and every constraint stays as it was |
| CspBase.Csp.CurDomain | propagators.py:112 | `cur_domain` has no repeats, and its members are exactly the variable's current values: the assigned value if there is one, else its live values |
| CspBase.Csp.ConsWithVar | propagators.py:81 | `get_cons_with_var(x)` lists exactly the constraints whose scope contains x, each once, in creation order |
| CspBase.Csp.AllCons | propagators.py:101 | `get_all_cons` lists every constraint once, in creation order |
| CspBase.Csp.UnassignedVars | propagators.py:181 | `get_all_unasgn_vars` lists exactly the unassigned variables, in registration order |
| CspBase.UnassignedIn | propagators.py:103-104 | `get_unasgn_vars` of a constraint holds exactly the scope variables with no value |
| CspBase.SingleUnassigned | propagators.py:104-111 | with one unassigned scope variable, it has a scope position and every other position is assigned |
| CspBase.FilterEmpty | propagators.py:119 | an unassigned variable's current domain is empty exactly when none of its domain values is live |
| CspBase.CurSizeZeroAny | propagators.py:169 | `cur_domain_size() == 0` means an empty current domain; for an unassigned variable, that all its values are pruned |
| CspBase.UnsupportedExcludesSolutions | propagators.py:146-158 | a value without support under the current domains is taken by no solution that stays within those domains |
| CspBase.SupportedMonotone | propagators.py:146-156 | support found under smaller current domains remains support under larger ones, so a value without support stays without it as domains shrink |
| CspBase.ExactUndoLogExtend | propagators.py:158-159 | logging a live value as it is pruned keeps the log exact: each entry was live before and is gone after, no entry repeats, and every disappeared value is logged |
| CspBase.ExactUndoLogConcat | propagators.py:117 | the logs of two successive stretches of pruning join into an exact log of both |
| CspBase.UndoLogRestores | propagators.py:116-117 | putting back every pair of an exact log, in log order, restores the domains as they were before the call |
| CspBase.RestoreAt | propagators.py:116-117 | putting a log back gives each variable exactly its values plus the values logged for it |
| CspBase.RestoreAnyOrder | propagators.py:116-117 | the order in which logged pairs are put back does not matter: any log with the same entries, such as a permutation, restores the same domains |
| CspBase.ReplayAt | propagators.py:116-117 | applying a log's prunes in order takes from each variable exactly the values logged for it |
| CspBase.ReplayExact | propagators.py:158-159 | applying an exact log's prunes in order to the starting domains reaches the final domains, so the log also fixes the domains at each of its prunes |
| CspBase.ReplayPrefix | propagators.py:158-159 | the domains after any prefix of an exact log contain the final domains |
| CspBase.LivePairsPrune | propagators.py:158 | pruning a live value strictly shrinks the set of live (variable, value) pairs, the measure that bounds the GAC loop |
| CspBase.KeepsSolutionsTrans | propagators.py:138-170 | "no solution is lost" carries over from one prune to the next |
| Propagators.NoUnassignedMeansAllAssigned | propagators.py:82 | `get_n_unasgn() == 0` exactly when every scope variable is assigned |
| Propagators.CollectAssigned | propagators.py:83-86 | the collected values are the scope's assigned values, in scope order |
| Propagators.PropBT | propagators.py:75-89 | never prunes; with no new variable returns True; otherwise returns True exactly when no fully assigned constraint on the new variable fails `check` |
| Propagators.FcTarget | propagators.py:103-104 | a constraint is forward-checked exactly when it has one unassigned variable, which is the one returned |
| Propagators.CollectOthers | propagators.py:104-111 | the loop finds the unassigned variable's scope position and collects the other variables' values in scope order |
| Propagators.InsertPop | propagators.py:113-118 | inserting a value at the unassigned position gives the tuple that is checked, and popping it gives back the other values |
| Propagators.PruneFailing | propagators.py:112-118 | the unassigned variable keeps exactly its live values whose tuple passes `check`; nothing else changes; the log is exact |
| Propagators.ForwardCheck | propagators.py:103-118 | one constraint with one unassigned variable prunes exactly that variable's failing values, with an exact log |
| Propagators.FcExcludesSolutions | propagators.py:115-117 | a value whose tuple fails `check` is taken by no solution within the current domains |
| Propagators.FcConstraintStep | propagators.py:113-120 | after one forward-checked constraint, either every examined constraint so far passes or a variable is wiped out, and every logged pair was refuted by an examined constraint |
| Propagators.ForwardCheckOne | propagators.py:103-120 | the same, for one pass of the constraint loop |
| Propagators.ForwardCheckAll | propagators.py:102-120 | the loop over the examined constraints prunes only refuted values; on success every examined constraint passes, on failure some variable is wiped out |
| Propagators.PropFC | propagators.py:92-122 | examines the constraints on the new variable (or all of them); the returned log is exact; every pruned pair was refuted by an examined constraint; True means each examined constraint with one unassigned variable has a non-empty current domain and only passing values; False means one was wiped out; no solution is lost |
| Propagators.PruneAndLog | propagators.py:116-117 | one prune and one log entry: the value leaves the live set, the log stays exact and the live pairs shrink |
| Propagators.GacPruneKeepsSolutions | propagators.py:146-159 | pruning an unsupported value loses no solution |
| Propagators.SettledAfterPrune | propagators.py:158-165 | after pruning x, every constraint not queued is still arc consistent once the constraints on x are queued |
| Propagators.SettledDrop | propagators.py:139-170 | a popped constraint that was scanned without pruning is arc consistent and leaves the queue |
| Propagators.HealthyNotWiped | propagators.py:169 | a variable whose domain changed but is non-empty, with its assigned value live, is not wiped out |
| Propagators.GacRefutesExtend | propagators.py:146-159 | logging a value that has no support under the current domains keeps every log entry refuted: each was unsupported in some constraint under the domains of the moment it was pruned |
| Propagators.GacPrunedStayUnsupported | propagators.py:146-159 | every pair GAC logged still has no support in some constraint under the domains the call ends with |
| Propagators.PruneKeepsScan | propagators.py:143-159 | pruning the scanned value changes only its variable, keeps the values still to be scanned, and does not grow the live pairs |
| Propagators.EnqueueKeepsOk | propagators.py:161-165 | re-queueing keeps the queue free of repeats |
| Propagators.EnqueueKeepsFront | propagators.py:161-165 | re-queueing only appends; pending constraints keep their place |
| Propagators.EnqueueMembers | propagators.py:161-165 | after re-queueing, the queue holds exactly what was pending plus the constraints on the pruned variable |
| Propagators.AppendMissing | propagators.py:161-165 | the loop appends, in order, each constraint on the variable that is not already queued, and leaves the loop variable bound to the last one |
| Propagators.Requeue | propagators.py:161-165 | the re-queue step: the queue grows by exactly the constraints on the pruned variable, without repeats and behind what was pending, and `constraint` ends bound to the last constraint on the variable |
| Propagators.PruneUnsupported | propagators.py:146-165 | one unsupported value is pruned and appended to the log, which stays exact and refuted. The queue becomes exactly the pending queue with the missing constraints on the variable appended. `constraint` ends bound to the last constraint on the variable. Arc consistency of the unqueued constraints is kept, and the live pairs shrink |
| Propagators.TestValue | propagators.py:143-165 | one value of the scan: while nothing has been pruned, every value scanned so far has support in the popped constraint; once something is pruned, the popped constraint is queued again; only the scanned variable changes; the log stays exact, no solution is lost, and the live pairs never grow |
| Propagators.ReviseVariable | propagators.py:141-165 | one variable's scan changes only that variable; if nothing is pruned, every current value of it has support in the popped constraint; otherwise the popped constraint is queued again |
| Propagators.ReviseConstraint | propagators.py:139-170 | one popped constraint: the log stays exact; the live pairs shrink or nothing changes; on failure some variable is wiped out |
| Propagators.PropGAC | propagators.py:125-175 | with the corrected wipeout test, the loop terminates. The log is exact. Each logged pair had no support in some constraint under the domains of the moment it was pruned. No solution is lost. False means some variable is wiped out. True means no variable whose domain changed is wiped out, and assigned values are live. When the constraints not queued at the start are arc consistent (always so with no new variable), True leaves every constraint arc consistent |
| Propagators.WipeoutMeansNoValue | propagators.py:169-170 | the corrected wipeout test fires exactly when no domain value is both live and consistent with the assignment |
| Propagators.AsWrittenPrunesAgain | propagators.py:169 | the test as written misses a pruned assigned value, which is pruned again and logged twice (see Findings) |
| Propagators.OrdMrv | propagators.py:178-183 | returns a variable exactly when one is unassigned, and the one returned is unassigned |
| Propagators.OrdMrvIsMinimal | propagators.py:181-183 | the chosen variable's `cur_domain_size` is no larger than any unassigned variable's, and strictly smaller than that of every unassigned variable registered before it (`min` keeps the first minimum) |
| Propagators.FirstMin | propagators.py:182 | `min` with a key returns the first position whose key is no larger than any other |
| Tuples.DomainMembers | futoshiki_csp.py:33 | the domain holds exactly the values 1..n |
| Tuples.OrderTuples | futoshiki_csp.py:59-62 | the marker tuples are exactly the pairs from the two current domains with a > b for `>` and a < b for `<` |
| Tuples.NotEqualTuples | futoshiki_csp.py:67 | the not-equal tuples are exactly the pairs of domain values that differ |
| Tuples.PairsMembers | futoshiki_csp.py:69 | `combinations(line, 2)` yields exactly the pairs of a line's cells taken in line order |
| Tuples.PairsCount | futoshiki_csp.py:69 | a line of m cells has m(m-1)/2 pairs |
| Tuples.PermsMembers | futoshiki_csp.py:139 | the permutations of the domain are exactly the sequences with the same entries, counted with multiplicity |
| Tuples.ArrangementsOfDomain | futoshiki_csp.py:139 | such a sequence has length n, no repeats and entries in 1..n, and conversely |
| Futoshiki.RecordRow | futoshiki_csp.py:37-48 | one row: each number cell becomes a variable, each marker stays a marker, and the row's variables get consecutive indices |
| Futoshiki.RecordVariables | futoshiki_csp.py:33-50 | the per-row variables, the board of indices and the rows with variables in place, for the whole grid (lines 105-122 repeat this for model 2) |
| Futoshiki.RegisteredCell | futoshiki_csp.py:38-46 | an open cell (0) becomes an unassigned variable over 1..n; a prefilled number v becomes a variable with domain [v], already assigned v; nothing is pruned |
| Futoshiki.RecordRowMarks | futoshiki_csp.py:54-64 | one row's marker constraints, in order |
| Futoshiki.RecordMarks | futoshiki_csp.py:53-64 | the marker constraints of the whole grid, row by row (lines 125-136 for model 2) |
| Futoshiki.MarkConstraintsMembers | futoshiki_csp.py:55-63 | the marker constraints are exactly one per `<` or `>` of the grid, over its left and right neighbours, with the ordered pairs of their current domains |
| Futoshiki.MarkCell | futoshiki_csp.py:55-63 | every marker constraint comes from a `<` or `>` cell |
| Futoshiki.CellMarkIn | futoshiki_csp.py:55-64 | every `<` or `>` cell contributes its constraint |
| Futoshiki.AddLinePairs | futoshiki_csp.py:69-72 | one constraint per pair of a line, in `combinations` order |
| Futoshiki.AddPairConstraints | futoshiki_csp.py:68-72 | the not-equal constraints of every line, line by line (lines 82-87 for columns) |
| Futoshiki.PairConsMembers | futoshiki_csp.py:68-72 | those constraints are exactly one per pair of cells a < b of some line |
| Futoshiki.PairConsCount | futoshiki_csp.py:68-72 | with m cells per line, there are m(m-1)/2 constraints per line |
| Futoshiki.NotEqualSolutions | futoshiki_csp.py:67-87 | an assignment satisfies model 1's line constraints exactly when any two cells of a line hold different domain values |
| Futoshiki.AddPermConstraints | futoshiki_csp.py:140-143 | one constraint per line over the whole line (lines 152-155 for columns) |
| Futoshiki.PermSolutions | futoshiki_csp.py:139-155 | an assignment satisfies model 2's line constraints exactly when each line holds the domain values, each once |
| Futoshiki.ColumnOf | futoshiki_csp.py:77-79 | column j is the j-th variable of each row, in row order |
| Futoshiki.Columns | futoshiki_csp.py:75-80 | the columns are the transpose of the board (lines 145-150 for model 2) |
| Futoshiki.RegisterRow | futoshiki_csp.py:91-92 | registering a row's variables appends them in order, unpruned, with their assignments |
| Futoshiki.RegisterVars | futoshiki_csp.py:89-92 | the fresh CSP holds every created variable, row by row, in creation order, and no constraint yet |
| Futoshiki.FlattenAt | futoshiki_csp.py:90-92 | the k-th variable of row i is registered as variable i * n + k |
| Futoshiki.CellsFromFlatten | futoshiki_csp.py:90-92 | so every cell's variable is registered at its board index |
| Futoshiki.RegisterCons | futoshiki_csp.py:94-95 | every created constraint is registered, in creation order, and no variable changes |
| Futoshiki.Model1Within | futoshiki_csp.py:53-95 | every constraint of model 1 mentions only registered variables |
| Futoshiki.Model2Within | futoshiki_csp.py:125-163 | every constraint of model 2 mentions only registered variables |
| Futoshiki.FutoshikiModel1 | futoshiki_csp.py:28-97 | returns a fresh CSP holding every cell's variable at its board index and exactly model 1's constraints (markers, then row pairs, then column pairs), together with the board |
| Futoshiki.FutoshikiModel2 | futoshiki_csp.py:100-165 | the same for model 2 (markers, then one permutation constraint per row, then one per column) |
| Futoshiki.LineRuleAgrees | futoshiki_csp.py:67 | for n other than 1, a line of n cells has pairwise different domain values exactly when it holds each domain value once |
| Futoshiki.LineConstraintsAgree | futoshiki_csp.py:68-87 | for n other than 1, the pairwise not-equal constraints and the permutation constraints of the same lines accept the same assignments |
| Futoshiki.ModelsAgree | futoshiki_csp.py:67-87 | for n other than 1, the same marker constraints followed by the two models' row and column constraints accept the same assignments of the n * n board |
| Futoshiki.SolutionConcat | futoshiki_csp.py:94-95 | an assignment satisfies a concatenated constraint list exactly when it satisfies both parts |
| Futoshiki.ModelsSameSolutions | futoshiki_csp.py:28-165 | for any grid with n other than 1, model 1 and model 2 accept exactly the same complete assignments |

## Left out

- `bt_search`, the backtracking driver that calls the propagators and undoes their pruning, is not part of this model. The undo property is stated on the returned log instead (`CspBase.UndoLogRestores`).
- `cspbase.py` is not part of this model. Its classes are modelled from the calls the core makes. `check` is membership in the satisfying-tuple set. A value is pruned exactly when the enumeration at propagators.py:148-156 finds no passing combination, because any tuple `has_support` accepts is one of those combinations. When `constraint` has been rebound to a constraint without `var` (see `Propagators.TestValue` below), `has_support` is False and the enumeration alone decides. The model therefore states only the enumeration, as the support predicate `CspBase.Supported`.
- Variable names (`"V-"+str(i)+str(j)`) and constraint names are cosmetic and are left out. Variables are identified by index, so the model assumes names are unique. `prop_FC` compares names at propagators.py:108 and `prop_GAC` compares objects at propagators.py:150. The two agree only under that assumption.
- `itertools` enumeration order is not modelled, except for `combinations`, whose order fixes the order in which model 1 creates constraints. Tuple sets are sets.
- Malformed grids are excluded by the precondition `WellFormed`. That covers a marker at a row edge, rows of the wrong length, and a grid that is not square.
- Commented-out `print` calls are left out.
- The cost of the linear `not in gac_queue` scan and of `pop(0)` is left out; neither affects the result.
- Propagators.ReviseConstraint / Propagators.PropGAC: use the corrected wipeout test, not the test at propagators.py:169 as written. They fail once a variable has no domain value that is both live and consistent with its assignment. As written, `prop_GAC` does not terminate on the input under Findings (argued there, not proved), so the termination and exact-log guarantees hold for the corrected test only.
- Propagators.PropGAC: requires every assigned value to be live on entry. The code does not demand this, and the search never prunes an assigned variable's value before calling it. It keeps the corrected wipeout test meaningful (see Findings).
- Propagators.PropFC / Propagators.PropGAC: on failure the contracts say that some variable is wiped out, not that the call stops at the first wipeout as propagators.py:119-120 and propagators.py:169-170 do.
- Propagators.OrdMrv: returns `None` where the source's `min` of an empty list raises.
- Futoshiki.ModelsSameSolutions: excludes n = 1. There, model 1 has no pair constraints at all, while model 2's permutation constraints still force the single cell to 1.
- Propagators.TestValue: after a prune, the rest of the scan tests support against whichever constraint the re-queue loop at propagators.py:161 left bound to the name `constraint`. This follows the code as written. Arc consistency on success is proved only under that same behaviour, through the popped constraint being queued again.

## Findings

| source | as written | input that shows it | evidently intended | confidence | as-written member | corrected member |
|---|---|---|---|---|---|---|
| propagators.py:169 | the wipeout test is `cur_domain_size() == 0`. An assigned variable's current domain is its assigned value whether or not that value has been pruned, so pruning the assigned value never counts as a wipeout | `prop_GAC` with no new variable on model 1 of the 2 by 2 grid with rows `1 . 1` and `2 . 2` (both cells of row 0 prefilled with 1). The value 1 of cell (0,0) has no support in the row constraint and is pruned. The size stays 1, so no failure is reported. The constraint is queued again, and the same pair is pruned and logged again on every later visit. Each visit re-queues the constraint, and the pair stays unsupported as domains shrink (`CspBase.SupportedMonotone`), so `prop_GAC` as written never returns on this input. The model proves the repeated prune (`Propagators.AsWrittenPrunesAgain`); the non-termination is argued by hand, not proved | report a wipeout once an assigned variable's value is pruned, i.e. once no domain value is both live and consistent with the assignment (`Propagators.WipeoutMeansNoValue`). `Propagators.ReviseConstraint` uses this test, so `Propagators.PropGAC` terminates on every input, and on this one the first prune of the assigned value already counts as a wipeout | not executed; what `prune_value` does with an already pruned value lives in `cspbase.py`, which is not part of this model | Propagators.AsWrittenPrunesAgain | Propagators.PropGAC |
