# Shift scheduling engine of the AI scheduling agent, in Dafny

The repository is an assistant that turns a business's description of itself into a
weekly shift schedule. This project models the scheduling engine in `tools.py` and the
two helpers of the first-generation agent in `agent.py` that involve no I/O.

- **Schema** (`Schema.dfy`): the JSON schema a business describes itself with. It has a
  company name, opening hours, employees, a shift structure and days. A missing key is
  `None`.
  - The schedulers return a day → entries dictionary or an `{"error": ...}` dictionary.
  - A `KeyError` raised on a missing key is a value, `KeyError(key)`.
  - `AddEntries` models `defaultdict(list)` and its appends.
- **Greedy assigner** (`Greedy.dfy`, `GreedySlot.dfy`, `GreedyRun.dfy`): `build_basic_schedule`.
  - It walks the (day, shift) tasks in shuffled order. For each task it builds the list of
    candidates, then picks the least-loaded candidate up to `min_staff` times. A `None`
    entry marks an unstaffed slot.
  - The imperative code is a set of methods, `BuildBasicSchedule` down to `PickOne`. Each
    is proved equal to a functional specification (`GreedyOutcome`, `Run`, `SlotStep`,
    `PicksFrom`). The properties are proved about that specification.
  - `random.shuffle` is a parameter: a permutation `order` of the list of (day, shift) tasks.
- **CP-SAT scheduler** (`CpModel.dfy`, `CpSchedule.dfy`, `CpResults.dfy`): `build_optimized_schedule_cp`.
  - `CpModel.Valid` states the constraint model as one predicate per family:
    - coverage;
    - availability;
    - role coverage;
    - rest between adjacent slots;
    - seniority;
    - hours against the target.
  - The fairness objective is defined (`Spread`) but its optimisation is not modelled.
  - The solver is a parameter: `answer`, which is `None` when CP-SAT reports neither
    OPTIMAL nor FEASIBLE. `CpResults.SolverAnswer` states the solver's guarantee that any
    grid it returns satisfies `Valid`.
  - The method `BuildOptimizedScheduleCp` fills in `min_staff` and turns the grid into the
    output dictionary. Its output is proved equal to `CpOutcome`.
  - `CpResults` proves what a returned schedule contains.
- **Employee filter and dispatcher** (`EmployeeFilter.dfy`, `Dispatcher.dfy`):
  - `_filter_employees`, the two `build_partial_schedule_*` tools, and the unified entry
    point `build_schedule`;
  - the entry point filters a copy of the schema, then dispatches on `method`.
- **Validators and prompt** (`ToolsValidation.dfy`, `LegacyAgent.dfy`, `PyText.dfy`):
  - the `validate_schema` of `tools.py` and the stricter legacy one in `agent.py`;
  - `build_schema_prompt`, whose shared part embeds `json.dumps(EXAMPLE_SCHEMA, indent=2)`,
    rendered by `PyText.Dumps`.

Where the documentation and the code disagree, the model follows the code:

- **Seniority.** The constraint applies to shifts whose `min_staff` is greater than 2
  (tools.py:291). The docstring at tools.py:148 says greater than 1.
- **Greedy entry counts.** A greedy task whose `min_staff` is 0 or negative appends no
  entry when it has candidates (tools.py:100). So "one entry per task" holds only when
  every `min_staff` is 1, or when nobody is employed (`GreedyRun.RunEntryCount`,
  `GreedyRun.GreedyEntryCount`).

## Model

| member | source | states |
|---|---|---|
| Schema.AddEntries | tools.py:96-105 | a day gets a key in the `defaultdict` exactly when something is appended to it; no other key appears |
| Schema.AddEntriesLookup | tools.py:96-105 | appending extends that day's list at its end by exactly the appended entries and leaves every other day's list as it was |
| Schema.AddEntriesTwice | tools.py:100-105 | appending two batches one after the other is appending their concatenation |
| Greedy.IndexOfName | tools.py:50-58 | `Some(i)` is a row carrying that name; `None` means no row carries it |
| Greedy.Upsert | tools.py:50-58 | `employee_info[name] = ...` keeps names unique, replaces the row of a known name in place, appends a new name, and leaves the other rows alone |
| Greedy.Table | tools.py:40-58 | the employee table has unique names and no more rows than employees |
| Greedy.DayTasks | tools.py:73-75 | one task per shift of the day, in shift order: task k is (day, name of shift k, hours of shift k) |
| Greedy.AllTasks | tools.py:71-75 | `len(days) * len(shift_structure)` tasks |
| Greedy.AllTasksAt | tools.py:71-75 | every (day, shift) pair is a task: position `d * len(shift_structure) + s` holds day d with shift s's name and hours |
| Greedy.Shuffle | tools.py:77 | the shuffled list has the same length and holds at position k task number `order[k]` |
| Greedy.LookupMinStaff | tools.py:80 | definition: `min_staff_map[name]`, the last shift of that name winning, `min_staff` defaulting to 1 (every task's shift is in the map) |
| Greedy.Eligible | tools.py:88-93 | definition: free that day, free for that shift, and `100 * hours < work_percentage * total` |
| Greedy.PoolUpTo | tools.py:88-93 | an index is a candidate exactly when that employee is free that day, free for that shift, and still below target; candidates are in table order |
| Greedy.Pool | tools.py:88-93 | as `PoolUpTo` over the whole table; every candidate is a row index |
| Greedy.DistinctIff | tools.py:107 | the recursive no-repeat predicate is the pairwise one |
| Greedy.PicksFrom | tools.py:100-107 | definition: the pick loop as a recursion: stop after `min_staff` picks, a `None` pick when the pool is empty, otherwise the first least-loaded candidate and the loop on the rest |
| Greedy.SlotPicks | tools.py:95-107 | definition: one `None` pick for an empty candidate list, otherwise the pick loop |
| Greedy.SlotStep | tools.py:95-107 | definition: one task adds the picks' hours and appends their entries to its day; the hours list keeps one entry per table row |
| Greedy.Step | tools.py:84-107 | definition: `SlotStep` with `min_staff` looked up by shift name; the hours list keeps one entry per table row |
| Greedy.Run | tools.py:82-107 | definition: the main loop from zero hours and an empty `defaultdict`, one `Step` per task in order; the hours list keeps one entry per table row |
| Greedy.GreedyOutcome | tools.py:29-109 | definition: `KeyError` for missing `employees`, `shift_structure` or employee `name`, in that order, otherwise the schedule of `Run` over the shuffled tasks |
| Greedy.FirstMinIndex | tools.py:104 | `min(candidates, key=hours)` picks a candidate with the fewest hours, and the first such |
| Greedy.RemoveAt | tools.py:107 | removing the chosen candidate keeps the others in order |
| Greedy.BuildEmployeeTable | tools.py:40-58 | the table loop succeeds exactly when every employee has a name, and builds `Table` |
| Greedy.TotalRequiredHours | tools.py:61-64 | the loop sums every shift's hours over every day |
| Greedy.TasksToAssign | tools.py:71-75 | the loop lists every (day, shift) task day by day |
| Greedy.PickStaff | tools.py:100-107 | the pick loop adds the shift's hours to each pick and appends one entry per pick, as `Picks` specifies |
| Greedy.PickOne | tools.py:104-107 | one pick takes the candidate `FirstMinIndex` chooses (fewest hours, first such), records it, removes it from the pool and adds the shift's hours to it alone; this keeps the pick loop's invariant against `PicksFrom` and appends its entry |
| Greedy.PickUnstaffed | tools.py:101-103 | a pool found empty inside the pick loop ends the slot: the unstaffed entry is the last pick and no hours change |
| Greedy.FirstMinIndexSameLoads | tools.py:104 | `min` chooses the same candidate whenever the candidates' hours are the same |
| Greedy.AssignSlot | tools.py:84-107 | one iteration of the main loop is `SlotStep`: an unstaffed entry for an empty pool, otherwise the pick loop |
| Greedy.RunTasks | tools.py:84-107 | the main loop over the shuffled tasks computes `Run` from zero hours and an empty schedule |
| Greedy.BuildBasicSchedule | tools.py:29-109 | the method returns `GreedyOutcome`: `KeyError` for missing employees, shift structure or employee name, otherwise the schedule of `Run` |
| GreedySlot.RemoveAtMembers | tools.py:107 | removal keeps only candidates; on a pool without repeats it drops exactly the chosen one |
| GreedySlot.PicksFromCount | tools.py:100-107 | a slot makes `min(min_staff, pool)` picks, plus one unstaffed pick when the pool runs dry first |
| GreedySlot.PicksFromPicks | tools.py:100-107 | every pick but the `None` one names a candidate; `None` comes exactly after the whole pool was taken |
| GreedySlot.PicksFromDistinct | tools.py:100-107 | nobody is picked twice for one slot |
| GreedySlot.PicksFromLeastLoaded | tools.py:104-107 | each pick has no more hours than any candidate not picked before it |
| GreedySlot.PicksFromKeeps | tools.py:100-107 | the pick loop only appends to the picks made so far |
| GreedySlot.PickLeast | tools.py:104-107 | a pick has no more hours than any candidate still in the pool at that point |
| GreedySlot.AddHoursDelta | tools.py:106 | a picked employee gains exactly the shift's hours; everybody else keeps theirs |
| GreedySlot.SlotPicksFacts | tools.py:95-107 | a task's picks: one `None` for an empty pool, otherwise `Wanted` picks of distinct candidates with `None` exactly at position `len(pool)` |
| GreedySlot.SlotEntriesCount | tools.py:95-107 | the number of entries per task: 1 for an empty pool, else `min_staff` capped at pool+1; at most `max(1, min_staff)` |
| GreedySlot.SlotEntriesUnstaffed | tools.py:95-103 | all entries carry this task's shift; a `None` entry exists exactly when the pool is empty or smaller than `min_staff`, and it is the last entry |
| GreedySlot.SlotEntriesEligible | tools.py:88-93 | every named entry names a row that was eligible (free and below target) when the pool was built |
| GreedySlot.SlotEntriesDistinct | tools.py:100-107 | no employee is named twice for one task |
| GreedySlot.SlotEntriesLeastLoaded | tools.py:104-105 | each named employee had no more hours than any eligible employee not named before it in that task |
| GreedySlot.SlotStepHours | tools.py:106 | after a task, each employee it names has gained the shift's hours once; the others are unchanged |
| GreedySlot.SlotStepSchedule | tools.py:95-105 | a task appends its entries to its own day and leaves every other day's list unchanged |
| GreedyRun.RunAvailable | tools.py:84-107 | every named entry names a table row that is free on that day and for that shift |
| GreedyRun.RunEmptyRoster | tools.py:95-97 | without employees every entry is unstaffed |
| GreedyRun.RunWithinTarget | tools.py:67-93 | an employee's hours never exceed its target by a full shift: they are 0 or were below target before the last shift |
| GreedyRun.RunEntryCount | tools.py:84-107 | with `min_staff` 1 everywhere (or no employees), each day's list has exactly one entry per task of that day |
| GreedyRun.CountDayAllTasks | tools.py:72-75 | `shifts_to_assign` holds, for a day name, one task per shift for each day of that name |
| GreedyRun.CountDayPermuted | tools.py:77 | shuffling keeps each day's number of tasks |
| GreedyRun.LookupMinStaffOne | tools.py:80 | when every shift's `min_staff` is 1, so is every lookup |
| GreedyRun.GreedyEntryCount | tools.py:29-109 | with `min_staff` 1 everywhere (or no employees), a returned schedule lists under each day name one entry per shift for each day of that name, whatever the shuffle |
| GreedyRun.TableRows | tools.py:42-58 | each table row is built from one of the employees |
| GreedyRun.UpsertFinds | tools.py:50-58 | after `employee_info[name] = ...` the name is found, with the new row |
| GreedyRun.UpsertKeeps | tools.py:50-58 | assigning one name leaves another name's row and position alone |
| GreedyRun.TableCovers | tools.py:42-58 | every employee has a row under its name, and the last employee of a name owns that row |
| GreedyRun.RunEmployeesAvailable | tools.py:40-107 | named entries name employees of the roster that are free that day and for that shift |
| GreedyRun.GreedyAvailable | tools.py:29-109 | a returned greedy schedule only names roster employees, on days and shifts they have not marked unavailable |
| ToolsValidation.KeyWarnings | tools.py:387-396 | definition: one warning per missing key, in key order; `employees` also warns when empty |
| ToolsValidation.Warnings | tools.py:387-405 | definition: the key warnings followed by each employee's warnings |
| ToolsValidation.AllEmployeeWarningsEmpty | tools.py:399-403 | the employees give no warning exactly when each has a name and an employment type |
| ToolsValidation.WarningsEmpty | tools.py:385-405 | no warning at all exactly when the four keys are present, the employee list is non-empty and every employee is complete |
| ToolsValidation.KeyRanks | tools.py:389-396 | the four key warnings are different texts |
| ToolsValidation.KeyWarningsOrder | tools.py:389-396 | at most one warning per key, in the order company name, opening hours, employees, shift structure |
| ToolsValidation.KeyWarningsPresent | tools.py:389-396 | each key warning appears exactly when its key is missing, or for employees when the list is missing or empty |
| ToolsValidation.KeyWarningsFirst | tools.py:387-403 | the key warnings precede all employee warnings |
| ToolsValidation.AppendEmployee | tools.py:399-403 | one more employee appends its warnings after those of the employees before it |
| ToolsValidation.ValidateSchema | tools.py:385-405 | the loop returns the ordered warnings, and returns none exactly when the schema is complete |
| PyText.DigitValue | tools.py:370 | a digit's value is below 10 and writes back as the same digit |
| PyText.NatToString | tools.py:370 | `str(n)` is non-empty, all digits, and has no leading zero |
| PyText.IntToString | tools.py:370 | `str(i)` starts with a minus sign exactly for negatives, followed by the digits of the absolute value |
| PyText.NatToStringRoundTrip | tools.py:370 | reading the digits back gives the number |
| PyText.IntToStringInjective | tools.py:370 | different integers are written differently |
| PyText.Dumps | agent.py:49 | definition: `json.dumps(v, indent=2)`: scalars inline, one indented line per list item or object field, empty containers as `[]` and `{}` |
| PyText.Escape | agent.py:49 | an escaped string is between one and two times as long |
| PyText.EscapeCharRead | agent.py:49 | one escaped character reads back as itself |
| PyText.EscapeRoundTrip | agent.py:49 | unescaping an escaped JSON string gives it back |
| PyText.Spaces | agent.py:49 | the indentation is n blanks |
| LegacyAgent.ValidateSchema | agent.py:77-89 | at most four warnings; each appears exactly when its key is missing or falsy |
| LegacyAgent.ValidateSchemaOrder | agent.py:77-89 | the warnings keep the fixed key order |
| LegacyAgent.LegacyStricter | agent.py:79-88 | every key warning of the `tools.py` check is a legacy warning; the two agree when present values are truthy and the shift structure is non-empty |
| LegacyAgent.DailyHours | agent.py:25-29 | one opening-hours entry per day, keyed by that day |
| LegacyAgent.DayNames | agent.py:39 | the days as JSON strings, in order |
| LegacyAgent.BuildSchemaPrompt | agent.py:59-73 | a prompt exactly for `init` and `edit`, starting with the shared message and ending with that task's text; otherwise the `ValueError` message |
| LegacyAgent.PromptsDiffer | agent.py:64-73 | the init and edit prompts differ |
| EmployeeFilter.Select | tools.py:121-124 | a comprehension keeps exactly the employees passing the test and makes the list no longer |
| EmployeeFilter.SelectAppend | tools.py:121-124 | a comprehension keeps roster order |
| EmployeeFilter.SelectTwice | tools.py:121-124 | two comprehensions in a row keep what one comprehension with both tests keeps |
| EmployeeFilter.SelectIdempotent | tools.py:121-124 | filtering twice by one test is filtering once |
| EmployeeFilter.SelectSame | tools.py:121-124 | tests that agree keep the same employees |
| EmployeeFilter.SelectAll | tools.py:121-124 | a test everybody passes keeps the whole roster |
| EmployeeFilter.FilterEmployees | tools.py:120-124 | definition: the work-percentage comprehension when that threshold is given, then the experience one when that threshold is given |
| EmployeeFilter.FilterEmployeesMembers | tools.py:117-127 | an employee stays exactly when it is on the roster and passes each given threshold (defaults 100 and 0) |
| EmployeeFilter.FilterEmployeesAsOne | tools.py:121-124 | the two-step filter equals one filter on both thresholds, order included |
| EmployeeFilter.FilterEmployeesCommute | tools.py:121-124 | the order of the two thresholds does not matter |
| EmployeeFilter.FilterEmployeesIdempotent | tools.py:117-127 | filtering a filtered roster again changes nothing |
| EmployeeFilter.FilterSchema | tools.py:125-126 | the copy has every key of the original, with `employees` set to the filtered list, also when it was missing |
| EmployeeFilter.FilterSchemaNoThreshold | tools.py:120-126 | without thresholds the copy holds the same employees |
| EmployeeFilter.PartialScheduleHighPercentage | tools.py:363-370 | status `success`, the message with the threshold, and exactly the employees above the work percentage |
| EmployeeFilter.PartialScheduleExperienceThreshold | tools.py:372-379 | status `success`, the message with the threshold, and exactly the employees above the experience |
| EmployeeFilter.PartialMatchesFilter | tools.py:363-379 | the partial tools select what the entry point's filter selects for that one threshold, in the same order |
| EmployeeFilter.PartialMessageNamesThreshold | tools.py:370 | equal messages mean equal thresholds |
| CpModel.CoverageHolds | tools.py:236-242 | definition: unless relaxed, every shift of every day has at least `min_staff` assigned employees |
| CpModel.AvailabilityHolds | tools.py:244-255 | definition: unless relaxed, nobody is assigned on a day or shift they marked unavailable |
| CpModel.RoleCoverageHolds | tools.py:257-268 | definition: each required role has at least its count among assigned employees whose primary roles include it |
| CpModel.NextSlot | tools.py:276-281 | definition: the next shift of the day, else the first shift of the next day, else none |
| CpModel.RestHolds | tools.py:273-284 | definition: with the rest rule on and more than one shift, nobody works a slot and the one after it |
| CpModel.SeniorityHolds | tools.py:287-299 | definition: with the seniority option, each shift with `min_staff` above 2 has a senior or experienced employee |
| CpModel.TargetHours | tools.py:303-308 | definition: the truncated `work_percentage / 100 * total`, capped at 40 |
| CpModel.HoursHold | tools.py:303-321 | definition: everyone's assigned hours equal their target, or lie between 95% and 105% of it when relaxed |
| CpModel.Valid | tools.py:236-321 | definition: the grid has the model's shape and every hard constraint family holds |
| CpModel.HeadcountBound | tools.py:326-333 | a day's headcount is at most `len(employees) * len(shift_structure)`, the bound of the `staff_d` variables |
| CpModel.Count | tools.py:241-242 | a coverage sum over n employees is at most n |
| CpModel.EmployeeShifts | tools.py:329-332 | an employee works at most one of each of a day's shifts |
| CpModel.HeadcountExtremes | tools.py:336-340 | `max_staff` and `min_staff` bound every day's headcount and are attained |
| CpModel.SpreadZero | tools.py:342-344 | the spread is non-negative, and zero exactly when every day has the same headcount |
| CpModel.TargetHoursBounds | tools.py:303-308 | the target is at most 40; below 40 it is the whole part of `work_percentage * total / 100` |
| CpModel.ValidHoursCap | tools.py:305-321 | in a valid grid nobody works more than 40 hours, or more than 105% of 40 when relaxed |
| CpModel.NextSlotFlat | tools.py:273-284 | the slot after (d, s) is the next one in day-then-shift order |
| CpModel.RelaxKeepsValid | tools.py:236-321 | relaxing coverage, availability, rest or seniority keeps a valid grid valid; so does relaxing hours when no work percentage is negative |
| CpModel.EmptyRosterInfeasible | tools.py:236-242 | with no employees and a shift needing staff, no grid satisfies coverage |
| CpSchedule.WithDefaultMinStaff | tools.py:224-225 | every shift gets a `min_staff`; one that had it keeps it; nothing else changes |
| CpSchedule.WithDefaultMinStaffIdempotent | tools.py:224-225 | filling in the defaults twice is filling them once |
| CpSchedule.SetDefaultMinStaff | tools.py:224-225 | the `setdefault` loop computes `WithDefaultMinStaff` |
| CpSchedule.UnnamedStep | tools.py:353-357 | one more day has an unnamed assigned employee exactly when that day has one |
| CpSchedule.UnnamedMonotone | tools.py:353-357 | later days keep an earlier unnamed assignment |
| CpSchedule.CpOutcome | tools.py:219-360 | `KeyError("employees")`, `KeyError("shift_structure")` and the no-solution error each occur exactly in their case; other `KeyError`s are for `name` |
| CpSchedule.ShapeCell | tools.py:355-357 | the employee loop succeeds exactly when every assigned employee has a name, and then lists them in roster order |
| CpSchedule.ShapeDay | tools.py:354-357 | the shift loop succeeds exactly when the day's assignees all have names, and then lists the day's entries |
| CpSchedule.BuildOptimizedScheduleCp | tools.py:184-360 | the method returns `CpOutcome` and leaves the schema with `min_staff` filled in |
| CpResults.SolverAnswer | tools.py:347-350 | definition: a grid CP-SAT returns satisfies `Valid` for the schema with `min_staff` filled in |
| CpSchedule.CellEntries | tools.py:355-357 | definition: one entry per assigned employee of the cell, in roster order |
| CpSchedule.DayEntries | tools.py:354-357 | definition: a day's cells, shift by shift |
| CpSchedule.Assignments | tools.py:352-358 | definition: each day's entries appended under its name, day by day |
| CpResults.CellEntriesFacts | tools.py:355-357 | a cell lists one entry per assigned employee, as many as coverage counts |
| CpResults.DayEntriesMembers | tools.py:354-357 | a day's list holds exactly the assigned (employee, shift) pairs of that day |
| CpResults.AssignmentsMembers | tools.py:352-358 | a day name's list holds exactly the entries of the days with that name |
| CpResults.AssignmentsKeys | tools.py:352-358 | only listed days become keys |
| CpResults.CountShiftAppend | tools.py:357 | counting a shift's entries adds up over concatenation |
| CpResults.CountShift | tools.py:357 | the entries for a shift are at most all the entries |
| CpResults.CountShiftCell | tools.py:357 | a cell's entries all carry its shift's name |
| CpResults.CountShiftDay | tools.py:354-357 | with distinct shift names, a day's entries for a shift are that cell's entries |
| CpResults.CountShiftDayAtLeast | tools.py:354-357 | a day's list holds at least a cell's entries under that cell's shift name |
| CpResults.AssignmentsOmits | tools.py:352-358 | with distinct day names, a day not yet visited has no key |
| CpResults.LookupAssignments | tools.py:352-358 | with distinct day names, a day's list is exactly that day's entries |
| CpResults.LookupAssignmentsAtLeast | tools.py:352-358 | a day name's list holds at least a day's entries for each shift name |
| CpResults.CpScheduleEntries | tools.py:244-358 | a returned schedule lists exactly the assigned cells, each with a named employee; unless availability is relaxed, nobody is listed when unavailable |
| CpResults.CpCoverage | tools.py:236-358 | unless coverage is relaxed, a returned schedule lists at least `min_staff` entries per shift and day under their names, whatever the names |
| CpResults.CpEmptyRoster | tools.py:236-360 | with no employees, a shift needing staff and coverage enforced, the call reports that no schedule was found |
| Dispatcher.CpOptionsOf | tools.py:171-180 | definition: the flags `build_schedule` forwards to the CP scheduler |
| Dispatcher.UnknownMethod | tools.py:182 | definition: the error message for an unknown method |
| Dispatcher.DefaultOptionsForwardDefaults | tools.py:129-136 | the entry point defaults to CP-SAT and forwards the CP scheduler's own defaults |
| Dispatcher.UnknownMethodInjective | tools.py:182 | the unknown-method message names the method |
| Dispatcher.UnknownMethodNotNoSolution | tools.py:182 | the unknown-method message is never the no-solution message |
| Dispatcher.Filtered | tools.py:161-165 | both schedulers get a copy with the same tasks and exactly the roster employees passing the thresholds |
| Dispatcher.Dispatch | tools.py:161-182 | never `KeyError("employees")`; `KeyError("shift_structure")` exactly for a known method without shifts; an unknown method returns the error dictionary; the no-solution error only from CP-SAT |
| Dispatcher.BuildSchedule | tools.py:129-182 | the entry point filters and then runs the chosen scheduler, as `Dispatch` |
| Dispatcher.GreedyIgnoresCpOptions | tools.py:167-168 | with `greedy`, the CP flags and the solver do not affect the result |
| Dispatcher.ThresholdsAsPrefilter | tools.py:161-165 | passing thresholds is calling without them on a pre-filtered schema |
| Dispatcher.NamedEmployeesQualify | tools.py:161-182 | every employee a returned schedule names is on the roster and passes the thresholds |
| Dispatcher.GreedyNamesRoster | tools.py:167-168 | a named greedy entry names an employee of the roster given to it |
| Dispatcher.CpNamesRoster | tools.py:170-180 | a named CP-SAT entry names an employee of the roster given to it |

## Left out

- **The CP-SAT solve** (tools.py:347-348) is a foreign library. Its answer is a parameter,
  constrained by `SolverAnswer`. The model does not capture optimality of the fairness
  objective, and `fairness_weight` has no effect on which grid is returned.
- **`random.shuffle`** (tools.py:77) is replaced by an arbitrary permutation of the tasks.
- **Floating point.**
  - The greedy target `work_percentage / 100 * total` (tools.py:69) is compared exactly,
    as `100 * hours < work_percentage * total`.
  - The CP target `int(work_percentage / 100 * total)` is truncating integer division in
    the model. In Python the float product can fall just below an integer: 29 / 100 * 100
    is 28.999999999999996, giving 28 where the model gives 29.
  - The relaxed bounds 0.95 and 1.05 (tools.py:318-319) are exact integer inequalities.
- **Deep copy.** The `json.loads(json.dumps(...))` copy (tools.py:125) is a value copy.
  The model's schemas are values, so the `setdefault` that `build_optimized_schedule_cp`
  performs through `build_schedule` only reaches the copy. `CpSchedule.AfterCall`
  records what a direct call does to its own argument.
- **Map key order.** Python dictionaries keep insertion order, and `dict(schedule)` lists
  days in the order they were first appended to. The model's maps are unordered.
- **Names and hours.** The shift fields `name` and `hours` are always present and hours
  are natural numbers, so the `KeyError`s for a shift without them (tools.py:64, 75, 80,
  252, 303) are not modelled.
- **JSON values.**
  - JSON `null` values of keys the tools read are not modelled.
  - Neither are non-list `employees`, non-dictionary `required_roles`, or floats and other
    non-integer numbers.
- **Ignored fields.** `preferred_shifts` and `special_flags` (tools.py:45, 48) are read by
  the greedy assigner but never used, so they are left out.
- **PyText.Dumps** escapes only `"`, the backslash, newline, carriage return and tab. The
  example schema it renders has no other special character. Python's `ensure_ascii`
  escaping of other control and non-ASCII characters is not modelled.
- **Other code.**
  - `format_schedule_by_shift` (display only), the tool metadata and the `__main__` demos
    are not part of this model.
  - So are the chat agent `agent2.py`, the interactive `SchedulingAgent` class in
    `agent.py`, and `run.py`; they are LLM calls, console and file I/O.
- **CpSchedule.BuildOptimizedScheduleCp** collects each day's entries before adding them
  to the dictionary. The source appends them one at a time. The resulting dictionary is
  the same (`Schema.AddEntriesTwice`).
