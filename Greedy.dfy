/** The greedy heuristic assigner, `build_basic_schedule`: walk the
    (day, shift) tasks in a shuffled order and give every task up to
    `min_staff` of the least-loaded employees that are available and still
    below their target hours.  The functions below state what one step of the
    loop does; `BuildBasicSchedule` runs the loop itself and is proved to
    compute `GreedyOutcome`. */
module Greedy {
  import opened Schema

  // ---------------------------------------------------------------------
  // The employee table (`employee_info`)
  // ---------------------------------------------------------------------

  /** The part of an `employee_info` row the assigner reads. */
  datatype Info = Info(
    name: string,
    workPercentage: int,
    unavailableDays: seq<string>,
    unavailableTimes: seq<string>)

  function InfoOf(e: Employee): Info
    requires e.name.Some?
  {
    Info(e.name.value, WorkPercentage(e), e.unavailableDays, e.unavailableTimes)
  }

  predicate AllNamed(emps: seq<Employee>) {
    forall i :: 0 <= i < |emps| ==> emps[i].name.Some?
  }

  predicate NamesUnique(table: seq<Info>) {
    forall i, j :: 0 <= i < j < |table| ==> table[i].name != table[j].name
  }

  /** Position of `name` among the table's keys. */
  function IndexOfName(table: seq<Info>, name: string): (r: Option<nat>)
    ensures r.Some? ==> r.value < |table| && table[r.value].name == name
    ensures r.None? ==> forall i :: 0 <= i < |table| ==> table[i].name != name
  {
    if table == [] then None
    else if table[|table| - 1].name == name then Some(|table| - 1)
    else IndexOfName(table[..|table| - 1], name)
  }

  /** `employee_info[name] = {...}`: a known name keeps its position and gets
      the new row, a new name is appended. */
  function Upsert(table: seq<Info>, info: Info): (r: seq<Info>)
    requires NamesUnique(table)
    ensures NamesUnique(r)
    ensures IndexOfName(table, info.name).Some? ==> |r| == |table|
    ensures IndexOfName(table, info.name).None? ==> |r| == |table| + 1
    ensures exists i :: 0 <= i < |r| && r[i] == info
    ensures forall i :: 0 <= i < |table| && table[i].name != info.name ==> r[i] == table[i]
    ensures forall i :: 0 <= i < |r| ==> r[i] == info || (i < |table| && r[i] == table[i])
  {
    match IndexOfName(table, info.name)
    case Some(i) =>
      var r := table[i := info];
      assert r[i] == info;
      r
    case None =>
      var r := table + [info];
      assert r[|table|] == info;
      r
  }

  /** The table the loop over `employees` builds. */
  function Table(emps: seq<Employee>): (t: seq<Info>)
    requires AllNamed(emps)
    ensures NamesUnique(t)
    ensures |t| <= |emps|
  {
    if emps == [] then []
    else Upsert(Table(emps[..|emps| - 1]), InfoOf(emps[|emps| - 1]))
  }

  // ---------------------------------------------------------------------
  // Tasks and their shuffled order
  // ---------------------------------------------------------------------

  /** One element of `shifts_to_assign`: (day, shift name, shift hours). */
  datatype Task = Task(day: string, shift: string, hours: nat)

  /** The tasks of one day, in `shift_structure` order. */
  function DayTasks(day: string, shifts: seq<Shift>): (r: seq<Task>)
    ensures |r| == |shifts|
    ensures forall k :: 0 <= k < |r| ==> r[k].day == day
    ensures forall k :: 0 <= k < |r| ==> r[k] == Task(day, shifts[k].name, shifts[k].hours)
  {
    if shifts == [] then []
    else DayTasks(day, shifts[..|shifts| - 1]) + [Task(day, shifts[|shifts| - 1].name, shifts[|shifts| - 1].hours)]
  }

  /** Every (day, shift) task once, day by day. */
  function AllTasks(days: seq<string>, shifts: seq<Shift>): (r: seq<Task>)
    ensures |r| == |days| * |shifts|
  {
    if days == [] then []
    else AllTasks(days[..|days| - 1], shifts) + DayTasks(days[|days| - 1], shifts)
  }

  /** Task `s` of day `d` sits at position `d * len(shift_structure) + s`,
      with that shift's name and hours. */
  lemma {:induction false} AllTasksAt(days: seq<string>, shifts: seq<Shift>, d: nat, s: nat)
    requires d < |days| && s < |shifts|
    ensures d * |shifts| + s < |AllTasks(days, shifts)|
    ensures AllTasks(days, shifts)[d * |shifts| + s] == Task(days[d], shifts[s].name, shifts[s].hours)
  {
    var front, n := days[..|days| - 1], |shifts|;
    assert AllTasks(days, shifts) == AllTasks(front, shifts) + DayTasks(days[|days| - 1], shifts);
    MulStep(d, n);
    MulStep(|front|, n);
    if d < |front| {
      AllTasksAt(front, shifts, d, s);
      assert days[d] == front[d];
    } else {
      assert d * n == |AllTasks(front, shifts)|;
    }
  }

  lemma MulStep(a: nat, n: nat)
    ensures (a + 1) * n == a * n + n
  {
  }

  function Iota(n: nat): (r: seq<nat>)
    ensures |r| == n && forall k :: 0 <= k < n ==> r[k] == k
  {
    if n == 0 then [] else Iota(n - 1) + [n - 1]
  }

  /** `order` lists 0 .. n-1, each exactly once. */
  predicate IsPermutation(order: seq<nat>, n: nat) {
    |order| == n && (forall k :: 0 <= k < n ==> order[k] < n) && multiset(order) == multiset(Iota(n))
  }

  /** The shuffled list: position k holds `xs[order[k]]`. */
  function Shuffle<T>(xs: seq<T>, order: seq<nat>): (r: seq<T>)
    requires forall k :: 0 <= k < |order| ==> order[k] < |xs|
    ensures |r| == |order|
    ensures forall k :: 0 <= k < |order| ==> r[k] == xs[order[k]]
  {
    if order == [] then []
    else Shuffle(xs, order[..|order| - 1]) + [xs[order[|order| - 1]]]
  }

  /** `min_staff_map[name]`: the dictionary comprehension keeps the last shift
      of that name. */
  function LookupMinStaff(shifts: seq<Shift>, name: string): int {
    if shifts == [] then 1
    else if shifts[|shifts| - 1].name == name then MinStaff(shifts[|shifts| - 1])
    else LookupMinStaff(shifts[..|shifts| - 1], name)
  }

  // ---------------------------------------------------------------------
  // One slot
  // ---------------------------------------------------------------------

  /** Employee `info`, with `load` hours so far, may take `task`: available
      that day and for that shift, and below its target
      `work_percentage / 100 * total`, in exact arithmetic. */
  predicate Eligible(info: Info, load: int, task: Task, total: int) {
    && task.day !in info.unavailableDays
    && task.shift !in info.unavailableTimes
    && 100 * load < info.workPercentage * total
  }

  /** `candidates`: the indices of the eligible rows among the first `n`, in
      table order. */
  function PoolUpTo(table: seq<Info>, load: seq<int>, task: Task, total: int, n: nat): (r: seq<nat>)
    requires n <= |table| == |load|
    ensures forall x: nat :: x in r <==> x < n && Eligible(table[x], load[x], task, total)
    ensures forall i, j :: 0 <= i < j < |r| ==> r[i] < r[j]
  {
    if n == 0 then []
    else
      var prefix := PoolUpTo(table, load, task, total, n - 1);
      assert forall k :: 0 <= k < |prefix| ==> prefix[k] in prefix && prefix[k] < n - 1;
      prefix + (if Eligible(table[n - 1], load[n - 1], task, total) then [n - 1] else [])
  }

  function Pool(table: seq<Info>, load: seq<int>, task: Task, total: int): (r: seq<nat>)
    requires |table| == |load|
    ensures forall x: nat :: x in r <==> x < |table| && Eligible(table[x], load[x], task, total)
    ensures forall i, j :: 0 <= i < j < |r| ==> r[i] < r[j]
    ensures InRange(r, |table|)
  {
    var r := PoolUpTo(table, load, task, total, |table|);
    assert forall k :: 0 <= k < |r| ==> r[k] in r;
    r
  }

  predicate InRange(pool: seq<nat>, n: nat) {
    forall k :: 0 <= k < |pool| ==> pool[k] < n
  }

  /** No candidate occurs twice; stated element by element from the back so
      that the solver unfolds it only on demand (`DistinctIff` gives the
      pairwise form). */
  predicate Distinct(pool: seq<nat>) {
    pool == [] || (pool[|pool| - 1] !in pool[..|pool| - 1] && Distinct(pool[..|pool| - 1]))
  }

  /** `Distinct` says that any two positions hold different candidates. */
  lemma {:induction false} DistinctIff(pool: seq<nat>)
    ensures Distinct(pool) <==> forall i, j :: 0 <= i < j < |pool| ==> pool[i] != pool[j]
  {
    if pool != [] {
      var front := pool[..|pool| - 1];
      DistinctIff(front);
      if forall i, j :: 0 <= i < j < |pool| ==> pool[i] != pool[j] {
        assert forall i, j :: 0 <= i < j < |front| ==> front[i] != front[j] by {
          forall i, j | 0 <= i < j < |front| ensures front[i] != front[j] {
            assert front[i] == pool[i] && front[j] == pool[j];
          }
        }
      }
    }
  }

  /** Python's `min(candidates, key=load)`: the position of the first
      candidate with the fewest assigned hours. */
  function FirstMinIndex(pool: seq<nat>, load: seq<int>): (j: nat)
    requires pool != [] && InRange(pool, |load|)
    ensures j < |pool|
    ensures forall k :: 0 <= k < |pool| ==> load[pool[j]] <= load[pool[k]]
    ensures forall k :: 0 <= k < j ==> load[pool[k]] > load[pool[j]]
  {
    if |pool| == 1 then 0
    else
      var m := FirstMinIndex(pool[..|pool| - 1], load);
      if load[pool[m]] <= load[pool[|pool| - 1]] then m else |pool| - 1
  }

  /** `list.remove` of the element at position `j`.  For the position that
      `FirstMinIndex` returns this is the first occurrence of that element,
      as `candidates.remove(chosen)` has it. */
  function RemoveAt(pool: seq<nat>, j: nat): (r: seq<nat>)
    requires j < |pool|
    ensures |r| == |pool| - 1
    ensures forall i :: 0 <= i < j ==> r[i] == pool[i]
    ensures forall i :: j <= i < |r| ==> r[i] == pool[i + 1]
  {
    pool[..j] + pool[j + 1..]
  }

  /** The picks of the `for _ in range(k)` loop of one slot, after the
      picks `acc`: the first least-loaded candidate, dropped from the pool,
      then the rest; a `None` pick marks the pool running dry before `k`
      picks.  The hours compared are those at the start of the slot: a
      candidate's hours change only once it is picked, and then it has left
      the pool (`PickStaff` is proved to agree with the loop that re-reads
      the current hours). */
  function PicksFrom(acc: seq<Option<nat>>, pool: seq<nat>, load: seq<int>, k: int): seq<Option<nat>>
    requires InRange(pool, |load|)
    decreases |pool|, if k > 0 then k else 0
  {
    if k <= 0 then acc
    else if pool == [] then acc + [None]
    else
      var j := FirstMinIndex(pool, load);
      PicksFrom(acc + [Some(pool[j])], RemoveAt(pool, j), load, k - 1)
  }

  /** The picks of one slot loop. */
  function Picks(pool: seq<nat>, load: seq<int>, k: int): seq<Option<nat>>
    requires InRange(pool, |load|)
  {
    PicksFrom([], pool, load, k)
  }

  /** `assigned_hours[chosen] += hours` for every pick in turn. */
  function AddHours(load: seq<int>, picks: seq<Option<nat>>, hours: nat): (r: seq<int>)
    ensures |r| == |load|
  {
    if picks == [] then load
    else
      var l := AddHours(load, picks[..|picks| - 1], hours);
      match picks[|picks| - 1]
      case Some(c) => if c < |l| then l[c := l[c] + hours] else l
      case None => l
  }

  /** One task's picks: an empty pool gives one unstaffed entry, otherwise
      the slot loop. */
  function SlotPicks(table: seq<Info>, load: seq<int>, task: Task, minStaff: int, total: int): seq<Option<nat>>
    requires |table| == |load|
  {
    var pool := Pool(table, load, task, total);
    if pool == [] then [None] else Picks(pool, load, minStaff)
  }

  function EntryOf(table: seq<Info>, shift: string, pick: Option<nat>): Entry {
    match pick
    case Some(i) => Entry(shift, if i < |table| then Some(table[i].name) else None)
    case None => Entry(shift, None)
  }

  function ToEntries(table: seq<Info>, shift: string, picks: seq<Option<nat>>): (r: seq<Entry>)
    ensures |r| == |picks|
  {
    if picks == [] then []
    else ToEntries(table, shift, picks[..|picks| - 1]) + [EntryOf(table, shift, picks[|picks| - 1])]
  }

  // ---------------------------------------------------------------------
  // The whole run
  // ---------------------------------------------------------------------

  /** The loop's state: `assigned_hours` per table row, and `schedule`. */
  datatype State = State(load: seq<int>, schedule: map<string, seq<Entry>>)

  function Zeros(n: nat): (r: seq<int>)
    ensures |r| == n && forall k :: 0 <= k < n ==> r[k] == 0
  {
    if n == 0 then [] else Zeros(n - 1) + [0]
  }

  /** One task, with its `min_staff` already looked up. */
  function SlotStep(table: seq<Info>, st: State, task: Task, minStaff: int, total: int): (r: State)
    requires |st.load| == |table|
    ensures |r.load| == |table|
  {
    var picks := SlotPicks(table, st.load, task, minStaff, total);
    State(AddHours(st.load, picks, task.hours), AddEntries(st.schedule, task.day, ToEntries(table, task.shift, picks)))
  }

  /** One iteration of the main loop. */
  function Step(table: seq<Info>, shifts: seq<Shift>, st: State, task: Task, total: int): (r: State)
    requires |st.load| == |table|
    ensures |r.load| == |table|
  {
    SlotStep(table, st, task, LookupMinStaff(shifts, task.shift), total)
  }

  /** The state after the loop has handled `tasks`, in order. */
  function Run(table: seq<Info>, shifts: seq<Shift>, tasks: seq<Task>, total: int): (r: State)
    ensures |r.load| == |table|
  {
    if tasks == [] then State(Zeros(|table|), map[])
    else Step(table, shifts, Run(table, shifts, tasks[..|tasks| - 1], total), tasks[|tasks| - 1], total)
  }

  /** Number of tasks, and so the length of the shuffle order. */
  function TaskCount(schema: Schema): nat {
    |DaysOf(schema)| * |schema.shiftStructure.GetOr([])|
  }

  /** What `build_basic_schedule(schema)` does when `random.shuffle` puts
      task `order[k]` at position k. */
  function GreedyOutcome(schema: Schema, order: seq<nat>): Outcome
    requires IsPermutation(order, TaskCount(schema))
  {
    if schema.employees.None? then KeyError("employees")
    else if schema.shiftStructure.None? then KeyError("shift_structure")
    else if !AllNamed(schema.employees.value) then KeyError("name")
    else
      var days := DaysOf(schema);
      var shifts := schema.shiftStructure.value;
      var table := Table(schema.employees.value);
      var tasks := Shuffle(AllTasks(days, shifts), order);
      Returned(Schedule(Run(table, shifts, tasks, TotalHours(days, shifts)).schedule))
  }

  // ---------------------------------------------------------------------
  // The assigner itself
  // ---------------------------------------------------------------------

  /** The loop that fills `employee_info`; `None` is the `KeyError` of an
      employee without a name. */
  method BuildEmployeeTable(employees: seq<Employee>) returns (table: Option<seq<Info>>)
    ensures table.Some? <==> AllNamed(employees)
    ensures table.Some? ==> table.value == Table(employees)
  {
    var rows: seq<Info> := [];
    for i := 0 to |employees|
      invariant AllNamed(employees[..i])
      invariant rows == Table(employees[..i])
    {
      if employees[i].name.None? {
        return None;
      }
      assert employees[..i + 1][..i] == employees[..i];
      rows := Upsert(rows, InfoOf(employees[i]));
    }
    assert employees[..|employees|] == employees;
    return Some(rows);
  }

  /** `total_required_hours`: the hours of every shift on every day. */
  method TotalRequiredHours(days: seq<string>, shifts: seq<Shift>) returns (total: nat)
    ensures total == TotalHours(days, shifts)
  {
    total := 0;
    for i := 0 to |days|
      invariant total == i * SumHours(shifts)
    {
      for j := 0 to |shifts|
        invariant total == i * SumHours(shifts) + SumHours(shifts[..j])
      {
        assert shifts[..j + 1][..j] == shifts[..j];
        total := total + shifts[j].hours;
      }
      assert shifts[..|shifts|] == shifts;
    }
  }

  /** `shifts_to_assign` before the shuffle. */
  method TasksToAssign(days: seq<string>, shifts: seq<Shift>) returns (tasks: seq<Task>)
    ensures tasks == AllTasks(days, shifts)
  {
    tasks := [];
    for i := 0 to |days|
      invariant tasks == AllTasks(days[..i], shifts)
    {
      for j := 0 to |shifts|
        invariant tasks == AllTasks(days[..i], shifts) + DayTasks(days[i], shifts[..j])
      {
        assert shifts[..j + 1][..j] == shifts[..j];
        tasks := tasks + [Task(days[i], shifts[j].name, shifts[j].hours)];
      }
      assert shifts[..|shifts|] == shifts;
      assert days[..i + 1][..i] == days[..i];
    }
    assert days[..|days|] == days;
  }

  /** `PicksFrom` with candidates left picks `pool[j]` first. */
  lemma PicksFromCons(acc: seq<Option<nat>>, pool: seq<nat>, load: seq<int>, k: int,
                      j: nat, acc': seq<Option<nat>>, pool': seq<nat>, k': int)
    requires k > 0 && k' == k - 1 && pool != [] && InRange(pool, |load|)
    requires j == FirstMinIndex(pool, load)
    requires acc' == acc + [Some(pool[j])] && pool' == RemoveAt(pool, j)
    ensures InRange(pool', |load|)
    ensures PicksFrom(acc, pool, load, k) == PicksFrom(acc', pool', load, k')
  {
  }

  /** The first least-loaded candidate depends only on the candidates' hours. */
  lemma {:induction false} FirstMinIndexSameLoads(pool: seq<nat>, load: seq<int>, load': seq<int>)
    requires pool != [] && InRange(pool, |load|) && |load'| == |load|
    requires forall k :: 0 <= k < |pool| ==> load'[pool[k]] == load[pool[k]]
    ensures FirstMinIndex(pool, load') == FirstMinIndex(pool, load)
  {
    if |pool| > 1 {
      FirstMinIndexSameLoads(pool[..|pool| - 1], load, load');
    }
  }

  /** Taking one element out of a pool without repeats leaves a pool without
      repeats whose members kept their hours when the taken one's grew. */
  lemma RemoveAtKeepsLoads(pool: seq<nat>, j: nat, load: seq<int>, cur: seq<int>, hours: nat,
                            r: seq<nat>, cur': seq<int>)
    requires Distinct(pool) && j < |pool| && InRange(pool, |cur|) && |cur| == |load|
    requires forall k :: 0 <= k < |pool| ==> cur[pool[k]] == load[pool[k]]
    requires r == RemoveAt(pool, j) && cur' == cur[pool[j] := cur[pool[j]] + hours]
    ensures Distinct(r)
    ensures forall k :: 0 <= k < |r| ==> cur'[r[k]] == load[r[k]]
  {
    DistinctIff(pool);
    DistinctIff(r);
    forall k | 0 <= k < |r|
      ensures r[k] != pool[j] && cur[r[k]] == load[r[k]]
    {
      if k < j {
        assert r[k] == pool[k];
      } else {
        assert r[k] == pool[k + 1];
      }
    }
  }

  /** A pick adds the shift's hours to the chosen employee. */
  lemma AddHoursPick(load: seq<int>, picks: seq<Option<nat>>, hours: nat, c: nat, before: seq<int>,
                     picks': seq<Option<nat>>, after: seq<int>)
    requires c < |load| && before == AddHours(load, picks, hours)
    requires picks' == picks + [Some(c)] && after == before[c := before[c] + hours]
    ensures AddHours(load, picks', hours) == after
  {
    assert picks'[..|picks|] == picks;
  }

  /** An unstaffed pick adds no hours. */
  lemma AddHoursNone(load: seq<int>, picks: seq<Option<nat>>, hours: nat)
    ensures AddHours(load, picks + [None], hours) == AddHours(load, picks, hours)
  {
    assert (picks + [None])[..|picks|] == picks;
  }

  /** Appending the entry `e` of one more pick to a day's list. */
  lemma AppendPick(table: seq<Info>, shift: string, day: string, schedule: map<string, seq<Entry>>,
                   picks: seq<Option<nat>>, p: Option<nat>, cur: map<string, seq<Entry>>, e: Entry)
    requires cur == AddEntries(schedule, day, ToEntries(table, shift, picks))
    requires e == EntryOf(table, shift, p)
    ensures AddEntries(cur, day, [e]) == AddEntries(schedule, day, ToEntries(table, shift, picks + [p]))
  {
    AddEntriesTwice(schedule, day, ToEntries(table, shift, picks), [e]);
    assert (picks + [p])[..|picks|] == picks;
  }

  /** The invariant of the slot loop started from hours `load`, heading for
      the picks `whole`: `picks` made so far, `pool` left and `cur` the
      current hours. */
  ghost predicate SlotLoop(load: seq<int>, hours: nat, whole: seq<Option<nat>>, k: int,
                           picks: seq<Option<nat>>, pool: seq<nat>, cur: seq<int>)
  {
    && |cur| == |load| && InRange(pool, |load|) && Distinct(pool)
    && PicksFrom(picks, pool, load, k) == whole
    && cur == AddHours(load, picks, hours)
    && (forall i :: 0 <= i < |pool| ==> cur[pool[i]] == load[pool[i]])
  }

  /** One pick keeps the slot loop's invariant; the current hours select the
      same candidate as the hours at the start of the slot. */
  lemma PickStep(load: seq<int>, hours: nat, whole: seq<Option<nat>>, k: int,
                 picks: seq<Option<nat>>, pool: seq<nat>, cur: seq<int>, j: nat,
                 k': int, picks': seq<Option<nat>>, pool': seq<nat>, cur': seq<int>)
    requires SlotLoop(load, hours, whole, k, picks, pool, cur)
    requires k > 0 && pool != [] && j == FirstMinIndex(pool, cur) && k' == k - 1
    requires picks' == picks + [Some(pool[j])] && pool' == RemoveAt(pool, j)
    requires cur' == cur[pool[j] := cur[pool[j]] + hours]
    ensures SlotLoop(load, hours, whole, k', picks', pool', cur')
  {
    FirstMinIndexSameLoads(pool, load, cur);
    PicksFromCons(picks, pool, load, k, j, picks', pool', k');
    RemoveAtKeepsLoads(pool, j, load, cur, hours, pool', cur');
    AddHoursPick(load, picks, hours, pool[j], cur, picks', cur');
  }

  /** The slot loop before its first pick. */
  lemma SlotLoopStart(load: seq<int>, hours: nat, candidates: seq<nat>, k: int)
    requires InRange(candidates, |load|) && Distinct(candidates)
    ensures SlotLoop(load, hours, Picks(candidates, load, k), k, [], candidates, load)
  {
  }

  /** The slot loop once `min_staff` picks are made: they are all the picks. */
  lemma SlotLoopDone(load: seq<int>, hours: nat, whole: seq<Option<nat>>, k: int,
                     picks: seq<Option<nat>>, pool: seq<nat>, cur: seq<int>)
    requires SlotLoop(load, hours, whole, k, picks, pool, cur) && k <= 0
    ensures whole == picks && cur == AddHours(load, whole, hours)
  {
  }

  /** A pool that runs dry ends the slot with an unstaffed pick. */
  lemma PickNone(load: seq<int>, hours: nat, whole: seq<Option<nat>>, k: int,
                 picks: seq<Option<nat>>, cur: seq<int>)
    requires SlotLoop(load, hours, whole, k, picks, [], cur)
    requires k > 0
    ensures whole == picks + [None]
    ensures cur == AddHours(load, whole, hours)
  {
    AddHoursNone(load, picks, hours);
  }

  /** One pass of the slot loop with candidates left: pick the first
      least-loaded one by the current hours, add the shift's hours to it,
      append its entry and drop it from the pool. */
  method PickOne(table: seq<Info>, task: Task, load: seq<int>, ghost whole: seq<Option<nat>>, k: int, k': int,
                 ghost picks: seq<Option<nat>>, pool: seq<nat>, cur: seq<int>,
                 schedule: map<string, seq<Entry>>, sched: map<string, seq<Entry>>)
    returns (pool': seq<nat>, cur': seq<int>, sched': map<string, seq<Entry>>, ghost picks': seq<Option<nat>>)
    requires |load| == |table| && SlotLoop(load, task.hours, whole, k, picks, pool, cur)
    requires sched == AddEntries(schedule, task.day, ToEntries(table, task.shift, picks))
    requires k > 0 && pool != [] && k' == k - 1
    ensures var j := FirstMinIndex(pool, cur);
            && picks' == picks + [Some(pool[j])]
            && pool' == RemoveAt(pool, j)
            && cur' == cur[pool[j] := cur[pool[j]] + task.hours]
    ensures SlotLoop(load, task.hours, whole, k', picks', pool', cur')
    ensures sched' == AddEntries(schedule, task.day, ToEntries(table, task.shift, picks'))
  {
    var j := FirstMinIndex(pool, cur);
    var chosen := pool[j];
    var entry := Entry(task.shift, Some(table[chosen].name));
    pool', cur' := RemoveAt(pool, j), cur[chosen := cur[chosen] + task.hours];
    picks' := picks + [Some(chosen)];
    PickStep(load, task.hours, whole, k, picks, pool, cur, j, k', picks', pool', cur');
    AppendPick(table, task.shift, task.day, schedule, picks, Some(chosen), sched, entry);
    sched' := AddEntries(sched, task.day, [entry]);
  }

  /** The pass of the slot loop that finds the pool empty: it appends the
      unstaffed entry, which is the last pick of the slot. */
  method PickUnstaffed(table: seq<Info>, task: Task, load: seq<int>, ghost whole: seq<Option<nat>>, k: int,
                       ghost picks: seq<Option<nat>>, cur: seq<int>,
                       schedule: map<string, seq<Entry>>, sched: map<string, seq<Entry>>)
    returns (sched': map<string, seq<Entry>>)
    requires SlotLoop(load, task.hours, whole, k, picks, [], cur) && k > 0
    requires sched == AddEntries(schedule, task.day, ToEntries(table, task.shift, picks))
    ensures cur == AddHours(load, whole, task.hours)
    ensures sched' == AddEntries(schedule, task.day, ToEntries(table, task.shift, whole))
  {
    PickNone(load, task.hours, whole, k, picks, cur);
    var unstaffed := Entry(task.shift, None);
    AppendPick(table, task.shift, task.day, schedule, picks, None, sched, unstaffed);
    sched' := AddEntries(sched, task.day, [unstaffed]);
  }

  /** A pass of the slot loop with candidates left, as the loop sees it:
      the invariant is kept and the schedule follows the picks. */
  method PickPass(table: seq<Info>, task: Task, load: seq<int>, ghost whole: seq<Option<nat>>, k: int, k': int,
                  ghost picks: seq<Option<nat>>, pool: seq<nat>, cur: seq<int>,
                  schedule: map<string, seq<Entry>>, sched: map<string, seq<Entry>>)
    returns (pool': seq<nat>, cur': seq<int>, sched': map<string, seq<Entry>>, ghost picks': seq<Option<nat>>)
    requires |load| == |table| && SlotLoop(load, task.hours, whole, k, picks, pool, cur)
    requires sched == AddEntries(schedule, task.day, ToEntries(table, task.shift, picks))
    requires k > 0 && pool != [] && k' == k - 1
    ensures SlotLoop(load, task.hours, whole, k', picks', pool', cur')
    ensures sched' == AddEntries(schedule, task.day, ToEntries(table, task.shift, picks'))
  {
    pool', cur', sched', picks' := PickOne(table, task, load, whole, k, k', picks, pool, cur, schedule, sched);
  }

  /** The `for _ in range(min_staff)` loop of one slot whose pool is
      `candidates`: it re-reads the current hours for every pick, adds the
      shift's hours to the chosen employee and appends one entry per pick. */
  method PickStaff(table: seq<Info>, candidates: seq<nat>, load: seq<int>, task: Task, minStaff: int,
                   schedule: map<string, seq<Entry>>)
    returns (load': seq<int>, schedule': map<string, seq<Entry>>)
    requires InRange(candidates, |table|) && |load| == |table| && Distinct(candidates)
    ensures load' == AddHours(load, Picks(candidates, load, minStaff), task.hours)
    ensures schedule' == AddEntries(schedule, task.day, ToEntries(table, task.shift, Picks(candidates, load, minStaff)))
  {
    ghost var whole := Picks(candidates, load, minStaff);
    ghost var picks: seq<Option<nat>> := [];
    var pool := candidates;
    load', schedule' := load, schedule;
    var n := 0;
    SlotLoopStart(load, task.hours, candidates, minStaff);
    while n < minStaff
      invariant SlotLoop(load, task.hours, whole, minStaff - n, picks, pool, load')
      invariant schedule' == AddEntries(schedule, task.day, ToEntries(table, task.shift, picks))
    {
      if pool == [] {
        schedule' := PickUnstaffed(table, task, load, whole, minStaff - n, picks, load', schedule, schedule');
        return;
      }
      pool, load', schedule', picks :=
        PickPass(table, task, load, whole, minStaff - n, minStaff - (n + 1), picks, pool, load', schedule, schedule');
      n := n + 1;
    }
    SlotLoopDone(load, task.hours, whole, minStaff - n, picks, pool, load');
  }

  /** The body of the main loop for one task: build the pool; an empty pool
      gives one unstaffed entry, otherwise `PickStaff`. */
  method AssignSlot(table: seq<Info>, load: seq<int>, task: Task, minStaff: int, total: int,
                    schedule: map<string, seq<Entry>>)
    returns (load': seq<int>, schedule': map<string, seq<Entry>>)
    requires |load| == |table|
    ensures State(load', schedule') == SlotStep(table, State(load, schedule), task, minStaff, total)
  {
    var candidates := Pool(table, load, task, total);
    DistinctIff(candidates);
    if candidates == [] {
      assert ToEntries(table, task.shift, [None]) == [Entry(task.shift, None)];
      assert AddHours(load, [None], task.hours) == load;
      return load, AddEntries(schedule, task.day, [Entry(task.shift, None)]);
    }
    load', schedule' := PickStaff(table, candidates, load, task, minStaff, schedule);
  }

  /** The main loop over the shuffled tasks, from all-zero hours and an
      empty schedule. */
  method RunTasks(table: seq<Info>, shifts: seq<Shift>, tasks: seq<Task>, total: int) returns (st: State)
    ensures st == Run(table, shifts, tasks, total)
  {
    var load := Zeros(|table|);
    var schedule: map<string, seq<Entry>> := map[];
    for t := 0 to |tasks|
      invariant State(load, schedule) == Run(table, shifts, tasks[..t], total)
    {
      assert tasks[..t + 1][..t] == tasks[..t];
      var minStaff := LookupMinStaff(shifts, tasks[t].shift);
      load, schedule := AssignSlot(table, load, tasks[t], minStaff, total, schedule);
    }
    assert tasks[..|tasks|] == tasks;
    return State(load, schedule);
  }

  /** `build_basic_schedule(schema)`, with the shuffle that `random.shuffle`
      would perform given as `order`.  The `assigned_hours` column of the
      employee table is a sequence indexed like the table, and `schedule` a
      map; the loop reassigns both. */
  method BuildBasicSchedule(schema: Schema, order: seq<nat>) returns (r: Outcome)
    requires IsPermutation(order, TaskCount(schema))
    ensures r == GreedyOutcome(schema, order)
  {
    if schema.employees.None? {
      return KeyError("employees");
    }
    if schema.shiftStructure.None? {
      return KeyError("shift_structure");
    }
    var shifts := schema.shiftStructure.value;
    var days := DaysOf(schema);
    var built := BuildEmployeeTable(schema.employees.value);
    if built.None? {
      return KeyError("name");
    }
    var table := built.value;
    var total := TotalRequiredHours(days, shifts);
    var tasks := TasksToAssign(days, shifts);
    var shuffled := Shuffle(tasks, order);

    var st := RunTasks(table, shifts, shuffled, total);
    return Returned(Schedule(st.schedule));
  }
}
