# Road-test supervisor assignment: the period engine

This project models the period assignment engine of a road-driving-test
scheduler (`core.py`) and proves properties of the model in Dafny. A roster of
supervisors is assigned tests of four types for one of five daily periods: class 1
manual (`1M`), class 1 automatic (`1A`), class 2 automatic (`2A`) and class 2
manual (`2M`). One call of `assign_one_period` does the following:

1. adds a +1 load bonus to everyone who received nothing last period;
2. adds the duty bump from `apply_weights`, capped at 1. The bump is for course
   inspection in morning period 1, course extension in morning period 2, or
   giving the lecture of the next period (periods 2, 4 and 5 only);
3. sets the period capacity: 2 in periods 1 and 5, 3 otherwise;
4. places demand greedily, one unit at a time, in the fixed type order 1M, 1A, 2A, 2M.
   Each unit goes to an eligible supervisor below capacity with the least load.
   Among the tied, members of the rotation history come first; then the pick is arbitrary;
5. runs at most 40 fairness rounds. Each round moves one unit from the first top
   scorer (the total, plus 1 when two or more types are held) to the first bottom scorer;
6. hands the state to the next period: the load, the "received nothing" flag and the
   course-extension flag;
7. computes the low group (the truly under-assigned supervisors) and appends it to
   the rotation history. The history clears once it covers the whole roster.

Modules, one per component, leaf first:

- `Wrappers` (wrappers.dfy): the optional value used for "nothing found".
- `Roster` (roster.dfy): supervisor records, test types and eligibility.
- `Tally` (tally.dfy): per-type counts and the column sums over the roster.
- `Weights` (weights.dfy): the load bonus and the duty bump.
- `Greedy` (greedy.dfy): the greedy pass.
- `Fairness` (fairness.dfy): the fairness pass.
- `Carryover` (carryover.dfy): the state carried to the next period.
- `History` (history.dfy): the low group and the rotation history.
- `Engine` (engine.dfy): the period capacity and the whole call.

Modelling choices:

- `load` is an integer. It starts at 0 and only grows by whole units, so the
  source's `abs(a - b) < 1e-9` tie test is equality.
- `random.choice` is a nondeterministic pick (`:|`) from the pool.
- The per-supervisor counts are a sequence in roster order. The source keys them by
  name in a dict, so the engine requires distinct names (see "Left out").
- The history file is a sequence passed in and returned.
- Units that no one can take are silently skipped in the source. The model counts
  them per type (`unplaced`) and proves that placed plus unplaced units equal the demand.
  It never claims that all demand is met.

## Model

| member | source | states |
|---|---|---|
| `Roster.EligibilityRule` | core.py:173-178 | Manual-certified supervisors may take all four types. Everyone else may take exactly the two automatic types. A fresh entry is manual-certified exactly when its name is in the fixed manual set (core.py:35-38, 92). |
| `Weights.DutyBump` | core.py:146-168 | The capped duty weight is 0 or 1. It is 1 exactly when one of these holds: course duty in morning period 1, course extension in morning period 2, or the lecture of period k in {2, 4, 5} when the current period is k-1. |
| `Weights.ApplyWeights` | core.py:146-168 | Every load grows by 0 or 1, and by 1 exactly for supervisors with a duty this period. All other fields are kept. |
| `Weights.Prime` | core.py:194-201 | Before placement, each load has grown by the nothing-received bonus plus the duty bump. The nothing-received flag is consumed and the duties are kept. |
| `Tally.ScoreRule` | core.py:255-261 | The fairness score of a supervisor is the total plus 1 when units of two or more different types are held, and the total alone when at most one type is held. |
| `Greedy.PickUnit` | core.py:220-249 | No pick exactly when nobody is eligible and below capacity. A pick is eligible, below capacity, and has the least load among such supervisors. If the pick is not in the history, no tied candidate is. |
| `Greedy.PickKeepsOrder` | core.py:224-249 | Giving the next unit to a pick that has the least load among open supervisors, and is in the history whenever a tied open one is, keeps every unit first in the pick order. |
| `Greedy.PlaceType` | core.py:218-252 | For one type, starting from the counts left by the previous types, placed units plus skipped units equal the demand. Only that type's counts change, and only eligible supervisors gain. Nobody passes the capacity. Whoever gains a unit, every eligible supervisor with a smaller load, or with the same load and in the history when the gainer is not, is full. A unit is skipped only when every eligible supervisor is full. |
| `Greedy.Allocate` | core.py:207-252 | The pass returns its stages: it starts from all-zero counts, and stage k+1 is stage k with type k of the fixed order 1M, 1A, 2A, 2M placed. Each stage only adds units of its own type, to eligible supervisors, within capacity, in the pick order, with fullness judged at that stage. Its type's placed plus unplaced units equal the demand, and it leaves units over only when every eligible supervisor is full. The last stage is the result. Overall: every count is eligible and within capacity; per type, placed plus unplaced equals the demand; whoever holds a unit of a type, every supervisor eligible for it who comes earlier in the pick order (smaller load, or same load and in the history when the holder is not) is at capacity; a type has unplaced units only when every supervisor eligible for it is at capacity. |
| `Greedy.ExtendStages` | core.py:210-218 | Appending the counts after placing the next type in the fixed order extends a valid sequence of stages, and records that type's skipped units as unplaced. |
| `Greedy.NextType` | core.py:210-252 | Placing the next type of the fixed order keeps the pass state: counts eligible and within capacity, demand conserved for the placed types and zero columns for the rest, leftovers only when everybody eligible is full, every unit first in the pick order. |
| `Fairness.MaxIndex` | core.py:267 | The chosen position holds a largest score, and no earlier position does (first occurrence, like `list.index`). |
| `Fairness.MinIndex` | core.py:268 | The chosen position holds a smallest score, and no earlier position does. |
| `Fairness.SpreadIsWithinOne` | core.py:263-265 | On a non-empty roster, the largest score minus the smallest is at most 1 exactly when every two scores differ by at most 1. |
| `Fairness.FindMove` | core.py:270-276 | The moved type is the first one in the fixed order that the top scorer holds and the bottom scorer may take while below capacity. There is none exactly when no type qualifies. |
| `Fairness.MoveUnit` | core.py:277-280 | A move keeps every per-type column sum and the grand total. The donor loses exactly one unit of the type, the receiver gains one, and nobody else changes. |
| `Fairness.Rebalance` | core.py:254-285 | The returned trace starts at the greedy counts, ends at the result, and has at most 41 states. Each step is one round: the scores are not all within 1, and the first type that can go from the first top scorer to the first bottom scorer moves one unit. Column sums are unchanged, and eligibility and capacity are preserved. The pass stops as balanced only when every two scores differ by at most 1. It stops stuck only when some two scores differ by more and no type can move from the first top scorer to the first bottom scorer. It stops at the limit exactly after 40 rounds. |
| `Fairness.SpreadTestAsWritten` | core.py:263-265 | The first spread test as the source writes it: it fails (`max()` of an empty list) exactly for an empty roster, and otherwise passes exactly when every two scores differ by at most 1. |
| `Fairness.EmptyRosterRaises` | core.py:263-265 | For the empty roster, the source's spread test raises. |
| `Carryover.MinTotal` | core.py:293 | The minimum total is attained by some supervisor and no supervisor is below it. |
| `Carryover.CarryOver` | core.py:287-298 | Each load grows by exactly the total received. The nothing-received flag holds exactly when the total is 0. The extension flag holds exactly in morning period 1, for a course inspector whose total exceeds somebody else's. All other fields are kept. |
| `History.CleanHistory` | core.py:129-134 | The history as read back has no duplicates and the same names. A history without duplicates comes back unchanged. |
| `History.LowGroup` | core.py:300-326 | The low group holds exactly the names of supervisors who have the smallest total and had no duty bump this period. |
| `History.LowGroupAsWritten` | core.py:300-326 | The low group as the source computes it holds exactly the names of supervisors who have the smallest total and are neither course inspectors in morning period 1 nor lecturers of the next period; the extension exclusion never applies, because the flag was already reset. |
| `History.LowGroupsDifferByExtenders` | core.py:309-313 | Every member of the intended low group is in the source's low group. A name only the source's group holds belongs to a supervisor with the extension flag, in morning period 2. |
| `History.ExtensionNotExcludedAsWritten` | core.py:309-313 | In morning period 2, take a course extender with the smallest total. That person received a duty bump, yet the source's low group contains them. The corrected low group does not. |
| `History.AppendNew` | core.py:328-331 | The old history is a prefix of the result. The result holds exactly the old names plus the low group, and it stays free of duplicates. |
| `History.UpdateHistory` | core.py:328-336 | The result has no duplicates. It is either empty or extends the old history by exactly the low group. It is empty when the names are distinct and all of them are in the old history or the low group. It is the extension whenever some current name is missing from both. |
| `History.DistinctCoveredIsShorter` | core.py:335 | Distinct names that all occur in the history are no more numerous than the history. So the length half of the reset test adds nothing. |
| `Engine.PlaceAndRebalance` | core.py:203-285 | The greedy pass then the fairness pass, with the period capacity (2 in periods 1 and 5, 3 otherwise). The greedy counts are reached type by type in the fixed order 1M, 1A, 2A, 2M, each type placed on the counts left by the previous ones in the pick order. They are eligible, within capacity, conserve the demand, place every unit first in the pick order, and leave units over only when everybody eligible is full. The rounds trace takes the greedy counts to the final counts, one round at a time from the first top scorer to the first bottom scorer, at most 40 rounds, and the pass stops for its stated reason, including the no-movable-type detail. The final counts are eligible, within capacity and conserve the demand. On an empty roster it ends balanced with no rounds, where the source raises. |
| `Engine.HistoryRotates` | core.py:328-336 | Given distinct roster names and a cleaned history, the stored history is free of duplicates. It is cleared exactly when the stored names and the low group together cover the roster. Otherwise it holds exactly the stored names and the low group. |
| `Engine.AssignOnePeriod` | core.py:183-340 | One period end to end. The greedy pass on the primed roster places the types one after another in the fixed order 1M, 1A, 2A, 2M, and every unit first in the pick order, using the stored history as the priority set. The fairness rounds and their stop reason are as for `Engine.PlaceAndRebalance`. The final counts are eligible, within capacity and conserve the demand. Loads grow by bonus plus duty bump plus total, and the flags for the next period are set. The low group is exact, and the history rotates. |

## Left out

- JSON file I/O and the data directory (core.py:12-30, 136-141): the history is
  an input and an output of `Engine.AssignOnePeriod` instead.
- The old-format migration in `load_history` (core.py:104-128). It is entangled
  with file reads and writes. Only the de-duplication of the current format is
  modelled, as `History.CleanHistory`. The type filter there (`isinstance(v, str)`)
  has no counterpart, because the history is typed.
- Text extraction of staff, lecturers and course inspectors (core.py:43-84). It
  depends on regular-expression semantics over Korean text. The roster is taken
  already structured.
- `make_pairs` and `LABEL_MAP` (core.py:345-383). They are display-only regrouping.
- The Streamlit front end (ui_morning.py, ui_afternoon.py, auto.py). It has no
  logic of its own beyond building the roster and calling the engine.
- Randomness: the `random` module is not modelled. A tie is resolved by an
  arbitrary choice from the pool.
- The dead `if not candidates` check (core.py:238-239) is not modelled. Once a
  minimum load exists, the supervisor who attains it is always a candidate.
- Engine.AssignOnePeriod: requires distinct names. Nothing upstream guarantees
  them: the roster table can be edited freely before the engine is called, and the
  source's name-keyed dict would then merge two supervisors' counts.
- Engine.AssignOnePeriod: computes the intended low group (`History.LowGroup`), not
  the source's (`History.LowGroupAsWritten`). The two differ only in morning period 2,
  where the source keeps course extenders with the smallest total and the model drops
  them (`History.LowGroupsDifferByExtenders`). The rotated history follows the
  intended group too.
- Fairness.Rebalance: an empty roster is balanced at once with no rounds, so
  `Engine.AssignOnePeriod` returns an empty result for it. The source raises an error
  there (`Fairness.SpreadTestAsWritten`).
- Engine.PlaceAndRebalance: an empty roster ends balanced with no rounds and all
  demand unplaced, where the source raises an error at core.py:265 (the first
  Findings row).

## Findings

| source | as written | input that shows it | evidently intended | confidence | as-written member | corrected member |
|---|---|---|---|---|---|---|
| core.py:263-265 | The fairness loop takes `max(scores)` and `min(scores)` without checking for an empty roster, so `max()` of an empty list raises `ValueError`. | An empty staff list (all rows deleted in the roster editor), with any demand and period. | An empty roster yields an empty assignment: lines 292 and 302 explicitly guard `n > 0`. | medium, not executed | `Fairness.SpreadTestAsWritten` (shown by `Fairness.EmptyRosterRaises`) | `Fairness.Rebalance` (empty roster: balanced, no rounds) |
| core.py:309-313 | The period-2 exclusion reads `need_low_next` after lines 295-298 have already recomputed it for the next period. Outside morning period 1 that flag is always false by then, so course extenders are never excluded from the low group. | Morning period 2 with one supervisor whose `need_low_next` is set, and demand 0: they get the duty bump (line 155), and the low group is still that supervisor. | Supervisors who received a course or lecture weight are excluded from the low group (docstring at core.py:187 and comment at line 312). | high, not executed | `History.LowGroupAsWritten` (shown by `History.ExtensionNotExcludedAsWritten`) | `History.LowGroup` |
