/** What the whole greedy run guarantees: every named employee may work
    where they are put, nobody ends a whole shift beyond their target, and
    with one person per shift every task leaves exactly one entry. */
module GreedyRun {
  import opened Schema
  import opened Greedy
  import opened GreedySlot

  /** A named entry of day `d` names a table row that is free that day and
      for that shift. */
  predicate Available(table: seq<Info>, d: string, e: Entry) {
    e.employee.Some? ==>
      exists x :: 0 <= x < |table| && table[x].name == e.employee.value
        && d !in table[x].unavailableDays && e.shift !in table[x].unavailableTimes
  }

  ghost predicate AllAvailable(table: seq<Info>, sched: map<string, seq<Entry>>) {
    forall d, i :: 0 <= i < |Lookup(sched, d)| ==> Available(table, d, Lookup(sched, d)[i])
  }

  /** Nobody is scheduled on a day or for a shift they marked unavailable. */
  lemma {:induction false} RunAvailable(table: seq<Info>, shifts: seq<Shift>, tasks: seq<Task>, total: int)
    ensures AllAvailable(table, Run(table, shifts, tasks, total).schedule)
  {
    if tasks != [] {
      var front, task := tasks[..|tasks| - 1], tasks[|tasks| - 1];
      var st := Run(table, shifts, front, total);
      var minStaff := LookupMinStaff(shifts, task.shift);
      var r := Run(table, shifts, tasks, total);
      RunAvailable(table, shifts, front, total);
      assert r == SlotStep(table, st, task, minStaff, total);
      SlotStepSchedule(table, st, task, minStaff, total);
      SlotEntriesEligible(table, st.load, task, minStaff, total);
      SlotEntriesUnstaffed(table, st.load, task, minStaff, total);
      var es := SlotEntries(table, st.load, task, minStaff, total);
      forall d, i | 0 <= i < |Lookup(r.schedule, d)|
        ensures Available(table, d, Lookup(r.schedule, d)[i])
      {
        var old_ := Lookup(st.schedule, d);
        if d == task.day && i >= |old_| {
          assert Lookup(r.schedule, d)[i] == es[i - |old_|];
        } else {
          assert Lookup(r.schedule, d)[i] == old_[i];
        }
      }
    }
  }

  /** Without employees every entry is unstaffed. */
  lemma RunEmptyRoster(table: seq<Info>, shifts: seq<Shift>, tasks: seq<Task>, total: int)
    requires table == []
    ensures forall d, i :: 0 <= i < |Lookup(Run(table, shifts, tasks, total).schedule, d)| ==>
              Lookup(Run(table, shifts, tasks, total).schedule, d)[i].employee == None
  {
    RunAvailable(table, shifts, tasks, total);
  }

  /** Hours stay within one shift of the target: an employee is only given
      a shift while below `work_percentage / 100 * total`, so when every
      shift lasts at most `h` hours nobody ends `h` or more hours beyond
      that target. */
  lemma {:induction false} RunWithinTarget(table: seq<Info>, shifts: seq<Shift>, tasks: seq<Task>, total: int, h: nat)
    requires NamesUnique(table)
    requires forall t :: 0 <= t < |tasks| ==> tasks[t].hours <= h
    ensures forall x :: 0 <= x < |table| ==>
              && 0 <= Run(table, shifts, tasks, total).load[x]
              && (Run(table, shifts, tasks, total).load[x] == 0 ||
                  100 * (Run(table, shifts, tasks, total).load[x] - h) < table[x].workPercentage * total)
  {
    if tasks != [] {
      var front, task := tasks[..|tasks| - 1], tasks[|tasks| - 1];
      var st := Run(table, shifts, front, total);
      var minStaff := LookupMinStaff(shifts, task.shift);
      var r := Run(table, shifts, tasks, total);
      RunWithinTarget(table, shifts, front, total, h);
      assert r == SlotStep(table, st, task, minStaff, total);
      SlotStepHours(table, st, task, minStaff, total);
      SlotEntriesEligible(table, st.load, task, minStaff, total);
      var es := SlotEntries(table, st.load, task, minStaff, total);
      forall x | 0 <= x < |table|
        ensures 0 <= r.load[x] && (r.load[x] == 0 || 100 * (r.load[x] - h) < table[x].workPercentage * total)
      {
        if Entry(task.shift, Some(table[x].name)) in es {
          var i :| 0 <= i < |es| && es[i] == Entry(task.shift, Some(table[x].name));
          var x' :| 0 <= x' < |table| && table[x'].name == table[x].name && Eligible(table[x'], st.load[x'], task, total);
          NameRow(table, x, x');
        }
      }
    }
  }

  /** Number of tasks for day `d`. */
  function CountDay(tasks: seq<Task>, d: string): nat {
    if tasks == [] then 0
    else CountDay(tasks[..|tasks| - 1], d) + if tasks[|tasks| - 1].day == d then 1 else 0
  }

  /** With no employees, or with `min_staff` 1 for every task, each task
      leaves exactly one entry in its day's list. */
  lemma {:induction false} RunEntryCount(table: seq<Info>, shifts: seq<Shift>, tasks: seq<Task>, total: int)
    requires table == [] || forall t :: 0 <= t < |tasks| ==> LookupMinStaff(shifts, tasks[t].shift) == 1
    ensures forall d :: |Lookup(Run(table, shifts, tasks, total).schedule, d)| == CountDay(tasks, d)
  {
    if tasks != [] {
      var front, task := tasks[..|tasks| - 1], tasks[|tasks| - 1];
      var st := Run(table, shifts, front, total);
      var minStaff := LookupMinStaff(shifts, task.shift);
      var r := Run(table, shifts, tasks, total);
      assert table == [] || forall t :: 0 <= t < |front| ==> LookupMinStaff(shifts, front[t].shift) == 1 by {
        if table != [] {
          forall t | 0 <= t < |front| ensures LookupMinStaff(shifts, front[t].shift) == 1 {
            assert front[t] == tasks[t];
          }
        }
      }
      RunEntryCount(table, shifts, front, total);
      assert r == SlotStep(table, st, task, minStaff, total);
      SlotStepSchedule(table, st, task, minStaff, total);
      SlotEntriesCount(table, st.load, task, minStaff, total);
      var pool := Pool(table, st.load, task, total);
      assert table == [] ==> pool == [] by {
        if pool != [] {
          assert pool[0] in pool;
        }
      }
    }
  }

  /** Every row of the employee table is the row of one of the employees
      (the last one of that name). */
  lemma {:induction false} TableRows(emps: seq<Employee>)
    requires AllNamed(emps)
    ensures forall x :: 0 <= x < |Table(emps)| ==>
              exists k :: 0 <= k < |emps| && emps[k].name.Some? && InfoOf(emps[k]) == Table(emps)[x]
  {
    if emps != [] {
      var front := emps[..|emps| - 1];
      assert AllNamed(front) by {
        forall k | 0 <= k < |front| ensures front[k].name.Some? {
          assert front[k] == emps[k];
        }
      }
      TableRows(front);
      var t := Table(front);
      var info := InfoOf(emps[|emps| - 1]);
      assert Table(emps) == Upsert(t, info);
      forall x | 0 <= x < |Table(emps)|
        ensures exists k :: 0 <= k < |emps| && emps[k].name.Some? && InfoOf(emps[k]) == Table(emps)[x]
      {
        if Table(emps)[x] != info {
          assert Table(emps)[x] == t[x];
          var k :| 0 <= k < |front| && front[k].name.Some? && InfoOf(front[k]) == t[x];
          assert front[k] == emps[k];
        } else {
          assert InfoOf(emps[|emps| - 1]) == Table(emps)[x];
        }
      }
    } else {
      assert |Table(emps)| == 0;
    }
  }

  /** No later employee has the same name: its row is the one that stays. */
  predicate LastOfName(emps: seq<Employee>, k: nat) {
    forall k' :: k < k' < |emps| ==> emps[k'].name != emps[k].name
  }

  /** Conversely, every employee has a row under its name, and the last
      employee of a name is the one whose row it is. */
  lemma {:induction false} TableCovers(emps: seq<Employee>, k: nat)
    requires AllNamed(emps) && k < |emps|
    ensures IndexOfName(Table(emps), emps[k].name.value).Some?
    ensures LastOfName(emps, k) ==> Table(emps)[IndexOfName(Table(emps), emps[k].name.value).value] == InfoOf(emps[k])
  {
    var front := emps[..|emps| - 1];
    assert AllNamed(front) by {
      forall j | 0 <= j < |front| ensures front[j].name.Some? {
        assert front[j] == emps[j];
      }
    }
    var t := Table(front);
    var info := InfoOf(emps[|emps| - 1]);
    assert Table(emps) == Upsert(t, info);
    var name := emps[k].name.value;
    if name == info.name {
      UpsertFinds(t, info);
      if k < |emps| - 1 {
        assert !LastOfName(emps, k) by {
          assert emps[|emps| - 1].name == emps[k].name;
        }
      }
    } else {
      assert front[k] == emps[k];
      TableCovers(front, k);
      UpsertKeeps(t, info, name);
      if LastOfName(emps, k) {
        assert LastOfName(front, k) by {
          forall k' | k < k' < |front| ensures front[k'].name != front[k].name {
            assert front[k'] == emps[k'];
          }
        }
      }
    }
  }

  /** The upserted row is found under its name. */
  lemma UpsertFinds(table: seq<Info>, info: Info)
    requires NamesUnique(table)
    ensures IndexOfName(Upsert(table, info), info.name).Some?
    ensures Upsert(table, info)[IndexOfName(Upsert(table, info), info.name).value] == info
  {
    var r := Upsert(table, info);
    var i :| 0 <= i < |r| && r[i] == info;
    IndexOfNameUnique(r, info.name, i);
  }

  /** Another name keeps its row and its position. */
  lemma UpsertKeeps(table: seq<Info>, info: Info, name: string)
    requires NamesUnique(table) && name != info.name && IndexOfName(table, name).Some?
    ensures IndexOfName(Upsert(table, info), name) == IndexOfName(table, name)
    ensures Upsert(table, info)[IndexOfName(table, name).value] == table[IndexOfName(table, name).value]
  {
    var i := IndexOfName(table, name).value;
    IndexOfNameUnique(Upsert(table, info), name, i);
  }

  /** In a table with unique names, a row carrying a name is the one found. */
  lemma IndexOfNameUnique(table: seq<Info>, name: string, i: nat)
    requires NamesUnique(table) && i < |table| && table[i].name == name
    ensures IndexOfName(table, name) == Some(i)
  {
  }

  /** Every named entry of `sched` names an employee of `emps` who is free
      that day and for that shift. */
  ghost predicate EmployeesAvailable(emps: seq<Employee>, sched: map<string, seq<Entry>>) {
    forall d, i :: 0 <= i < |Lookup(sched, d)| && Lookup(sched, d)[i].employee.Some? ==>
      exists k :: 0 <= k < |emps| && emps[k].name == Lookup(sched, d)[i].employee
        && d !in emps[k].unavailableDays && Lookup(sched, d)[i].shift !in emps[k].unavailableTimes
  }

  /** A run over the table built from `emps` names only employees of
      `emps` that are free on that day and for that shift. */
  lemma RunEmployeesAvailable(emps: seq<Employee>, shifts: seq<Shift>, tasks: seq<Task>, total: int)
    requires AllNamed(emps)
    ensures EmployeesAvailable(emps, Run(Table(emps), shifts, tasks, total).schedule)
  {
    var table := Table(emps);
    var sched := Run(table, shifts, tasks, total).schedule;
    RunAvailable(table, shifts, tasks, total);
    TableRows(emps);
    forall d, i | 0 <= i < |Lookup(sched, d)| && Lookup(sched, d)[i].employee.Some?
      ensures exists k :: 0 <= k < |emps| && emps[k].name == Lookup(sched, d)[i].employee
                && d !in emps[k].unavailableDays && Lookup(sched, d)[i].shift !in emps[k].unavailableTimes
    {
      assert Available(table, d, Lookup(sched, d)[i]);
      var x :| 0 <= x < |table| && table[x].name == Lookup(sched, d)[i].employee.value
               && d !in table[x].unavailableDays && Lookup(sched, d)[i].shift !in table[x].unavailableTimes;
      var k :| 0 <= k < |emps| && emps[k].name.Some? && InfoOf(emps[k]) == table[x];
    }
  }

  /** `build_basic_schedule` only ever names an employee of the schema on a
      day and for a shift the employee has not marked unavailable. */
  lemma GreedyAvailable(schema: Schema, order: seq<nat>)
    requires IsPermutation(order, TaskCount(schema))
    ensures GreedyOutcome(schema, order).Returned? ==>
              && schema.employees.Some?
              && GreedyOutcome(schema, order).output.Schedule?
              && EmployeesAvailable(schema.employees.value, GreedyOutcome(schema, order).output.byDay)
  {
    if GreedyOutcome(schema, order).Returned? {
      var days, shifts := DaysOf(schema), schema.shiftStructure.value;
      RunEmployeesAvailable(schema.employees.value, shifts, Shuffle(AllTasks(days, shifts), order), TotalHours(days, shifts));
    }
  }

  // ---------------------------------------------------------------------
  // How many tasks each day has, whatever the shuffle
  // ---------------------------------------------------------------------

  lemma {:induction false} CountDayAppend(a: seq<Task>, b: seq<Task>, d: string)
    ensures CountDay(a + b, d) == CountDay(a, d) + CountDay(b, d)
  {
    if b == [] {
      assert a + b == a;
    } else {
      CountDayAppend(a, b[..|b| - 1], d);
      assert (a + b)[..|a + b| - 1] == a + b[..|b| - 1];
    }
  }

  /** A day's own tasks: one per shift for that day, none for another. */
  lemma {:induction false} CountDayTasks(day: string, shifts: seq<Shift>, d: string)
    ensures CountDay(DayTasks(day, shifts), d) == if day == d then |shifts| else 0
  {
    if shifts != [] {
      var front := shifts[..|shifts| - 1];
      CountDayTasks(day, front, d);
      var r := DayTasks(day, shifts);
      assert r[..|r| - 1] == DayTasks(day, front);
    }
  }

  /** `shifts_to_assign` holds, for day name `d`, one task per shift for
      every day called `d`. */
  lemma {:induction false} CountDayAllTasks(days: seq<string>, shifts: seq<Shift>, d: string)
    ensures CountDay(AllTasks(days, shifts), d) == |shifts| * multiset(days)[d]
  {
    if days != [] {
      var front, last := days[..|days| - 1], days[|days| - 1];
      CountDayAllTasks(front, shifts, d);
      assert AllTasks(days, shifts) == AllTasks(front, shifts) + DayTasks(last, shifts);
      CountDayAppend(AllTasks(front, shifts), DayTasks(last, shifts), d);
      CountDayTasks(last, shifts, d);
      var c := if last == d then 1 else 0;
      MultisetLast(days, d);
      Distribute(|shifts|, multiset(front)[d], c);
    }
  }

  lemma MultisetLast(days: seq<string>, d: string)
    requires days != []
    ensures multiset(days)[d] == multiset(days[..|days| - 1])[d] + if days[|days| - 1] == d then 1 else 0
  {
    assert days == days[..|days| - 1] + [days[|days| - 1]];
  }

  lemma Distribute(m: nat, o: nat, c: nat)
    ensures m * (o + c) == m * o + m * c
  {
  }

  /** How many of the positions `ks` of `xs` hold a task of day `d`. */
  function CountAt(xs: seq<Task>, ks: seq<nat>, d: string): nat {
    if ks == [] then 0
    else CountAt(xs, ks[..|ks| - 1], d) + if ks[|ks| - 1] < |xs| && xs[ks[|ks| - 1]].day == d then 1 else 0
  }

  lemma {:induction false} CountAtAppend(xs: seq<Task>, a: seq<nat>, b: seq<nat>, d: string)
    ensures CountAt(xs, a + b, d) == CountAt(xs, a, d) + CountAt(xs, b, d)
  {
    if b == [] {
      assert a + b == a;
    } else {
      CountAtAppend(xs, a, b[..|b| - 1], d);
      assert (a + b)[..|a + b| - 1] == a + b[..|b| - 1];
    }
  }

  /** The shuffled list has as many tasks of a day as the positions it
      takes them from. */
  lemma {:induction false} CountDayShuffle(xs: seq<Task>, order: seq<nat>, d: string)
    requires forall k :: 0 <= k < |order| ==> order[k] < |xs|
    ensures CountDay(Shuffle(xs, order), d) == CountAt(xs, order, d)
  {
    if order != [] {
      var front := order[..|order| - 1];
      CountDayShuffle(xs, front, d);
      var r := Shuffle(xs, order);
      assert r[..|r| - 1] == Shuffle(xs, front);
    }
  }

  /** Counting over positions ignores their order. */
  lemma {:induction false} CountAtMultiset(xs: seq<Task>, a: seq<nat>, b: seq<nat>, d: string)
    requires multiset(a) == multiset(b)
    ensures CountAt(xs, a, d) == CountAt(xs, b, d)
    decreases |a|
  {
    if a != [] {
      var front, x := a[..|a| - 1], a[|a| - 1];
      assert x in multiset(b);
      var j :| 0 <= j < |b| && b[j] == x;
      var b' := b[..j] + b[j + 1..];
      assert b == b[..j] + [x] + b[j + 1..];
      RemoveOne(a, b, j);
      CountAtMultiset(xs, front, b', d);
      CountAtAppend(xs, b[..j] + [x], b[j + 1..], d);
      CountAtAppend(xs, b[..j], [x], d);
      CountAtAppend(xs, b[..j], b[j + 1..], d);
      assert [x][..0] == [];
    }
  }

  /** Taking the same element off two sequences with equal multisets
      leaves equal multisets. */
  lemma RemoveOne(a: seq<nat>, b: seq<nat>, j: nat)
    requires multiset(a) == multiset(b) && a != [] && j < |b| && b[j] == a[|a| - 1]
    ensures multiset(a[..|a| - 1]) == multiset(b[..j] + b[j + 1..])
  {
    var x := a[|a| - 1];
    assert a == a[..|a| - 1] + [x];
    assert b == b[..j] + [x] + b[j + 1..];
    var ma, mb := multiset(a[..|a| - 1]), multiset(b[..j] + b[j + 1..]);
    assert multiset(a) == ma + multiset{x};
    assert multiset(b) == mb + multiset{x};
    forall y ensures ma[y] == mb[y] {
      assert (ma + multiset{x})[y] == (mb + multiset{x})[y];
    }
  }

  lemma {:induction false} CountAtIota(xs: seq<Task>, n: nat, d: string)
    requires n <= |xs|
    ensures CountAt(xs, Iota(n), d) == CountDay(xs[..n], d)
  {
    if n > 0 {
      CountAtIota(xs, n - 1, d);
      assert Iota(n)[..n - 1] == Iota(n - 1);
      assert xs[..n][..n - 1] == xs[..n - 1];
    }
  }

  /** A shuffle keeps every day's number of tasks. */
  lemma CountDayPermuted(xs: seq<Task>, order: seq<nat>, d: string)
    requires IsPermutation(order, |xs|)
    ensures CountDay(Shuffle(xs, order), d) == CountDay(xs, d)
  {
    CountDayShuffle(xs, order, d);
    CountAtMultiset(xs, order, Iota(|xs|), d);
    CountAtIota(xs, |xs|, d);
    assert xs[..|xs|] == xs;
  }

  lemma {:induction false} LookupMinStaffOne(shifts: seq<Shift>, name: string)
    requires forall i :: 0 <= i < |shifts| ==> MinStaff(shifts[i]) == 1
    ensures LookupMinStaff(shifts, name) == 1
  {
    if shifts != [] && shifts[|shifts| - 1].name != name {
      LookupMinStaffOne(shifts[..|shifts| - 1], name);
    }
  }

  /** With one person per shift, or nobody employed, a returned greedy
      schedule lists under each day name one entry per shift for every day
      of that name, whatever the shuffle. */
  lemma GreedyEntryCount(schema: Schema, order: seq<nat>, d: string)
    requires IsPermutation(order, TaskCount(schema))
    requires schema.employees == Some([])
             || (schema.shiftStructure.Some?
                 && forall i :: 0 <= i < |schema.shiftStructure.value| ==> MinStaff(schema.shiftStructure.value[i]) == 1)
    ensures GreedyOutcome(schema, order).Returned? ==>
              && schema.shiftStructure.Some?
              && GreedyOutcome(schema, order).output.Schedule?
              && |Lookup(GreedyOutcome(schema, order).output.byDay, d)|
                 == |schema.shiftStructure.value| * multiset(DaysOf(schema))[d]
  {
    if GreedyOutcome(schema, order).Returned? {
      var days, shifts := DaysOf(schema), schema.shiftStructure.value;
      var all := AllTasks(days, shifts);
      var tasks := Shuffle(all, order);
      var table := Table(schema.employees.value);
      if schema.employees != Some([]) {
        forall t | 0 <= t < |tasks| ensures LookupMinStaff(shifts, tasks[t].shift) == 1 {
          LookupMinStaffOne(shifts, tasks[t].shift);
        }
      }
      RunEntryCount(table, shifts, tasks, TotalHours(days, shifts));
      CountDayPermuted(all, order, d);
      CountDayAllTasks(days, shifts, d);
    }
  }
}
