/** What a schedule returned by `build_optimized_schedule_cp` says, given
    that CP-SAT only answers with grids satisfying the model. */
module CpResults {
  import opened Schema
  import opened CpModel
  import opened CpSchedule

  /** CP-SAT's side of the bargain: an answer satisfies every hard
      constraint of the model built from the schema (with `min_staff`
      filled in). */
  predicate SolverAnswer(schema: Schema, opts: CpOptions, answer: Option<Grid>) {
    answer.Some? && schema.employees.Some? && schema.shiftStructure.Some? ==>
      Valid(answer.value, schema.employees.value, DaysOf(schema), WithDefaultMinStaff(schema.shiftStructure.value), opts)
  }

  // ---------------------------------------------------------------------
  // Entries and the grid
  // ---------------------------------------------------------------------

  /** A cell's entries name the shift, one per assigned employee, and there
      are as many as the coverage constraint counts. */
  lemma {:induction false} CellEntriesFacts(x: Grid, emps: seq<Employee>, name: string, d: int, s: int, n: nat)
    requires n <= |emps|
    ensures |CellEntries(x, emps, name, d, s, n)| == Count(x, emps, d, s, Anyone, n)
    ensures forall en :: en in CellEntries(x, emps, name, d, s, n) <==>
      exists e :: 0 <= e < n && Cell(x, e, d, s) && en == Entry(name, emps[e].name)
  {
    if n > 0 {
      CellEntriesFacts(x, emps, name, d, s, n - 1);
    }
  }

  /** A day's entries are exactly the assigned (employee, shift) pairs of
      that day. */
  lemma {:induction false} DayEntriesMembers(x: Grid, emps: seq<Employee>, shifts: seq<Shift>, d: int, m: nat)
    requires m <= |shifts|
    ensures forall en :: en in DayEntries(x, emps, shifts, d, m) <==>
      exists e, s :: 0 <= e < |emps| && 0 <= s < m && Cell(x, e, d, s) && en == Entry(shifts[s].name, emps[e].name)
  {
    if m > 0 {
      DayEntriesMembers(x, emps, shifts, d, m - 1);
      CellEntriesFacts(x, emps, shifts[m - 1].name, d, m - 1, |emps|);
    }
  }

  /** The list under a day name holds exactly the entries of the days with
      that name. */
  lemma {:induction false} AssignmentsMembers(days: seq<string>, perDay: seq<seq<Entry>>, k: nat, day: string)
    requires k <= |days| && k <= |perDay|
    ensures forall en :: en in Lookup(Assignments(days, perDay, k), day) <==>
      exists d :: 0 <= d < k && days[d] == day && en in perDay[d]
  {
    if k > 0 {
      AssignmentsMembers(days, perDay, k - 1, day);
      var prev := Assignments(days, perDay, k - 1);
      forall en ensures en in Lookup(Assignments(days, perDay, k), day) <==>
        en in Lookup(prev, day) || (days[k - 1] == day && en in perDay[k - 1])
      {
      }
    }
  }

  /** Only the names of the first `k` days are keys. */
  lemma {:induction false} AssignmentsKeys(days: seq<string>, perDay: seq<seq<Entry>>, k: nat, day: string)
    requires k <= |days| && k <= |perDay|
    requires day in Assignments(days, perDay, k)
    ensures exists d :: 0 <= d < k && days[d] == day
  {
    var prev := Assignments(days, perDay, k - 1);
    if day in prev {
      AssignmentsKeys(days, perDay, k - 1, day);
    } else {
      assert days[k - 1] == day;
    }
  }

  // ---------------------------------------------------------------------
  // Counting a shift's entries
  // ---------------------------------------------------------------------

  /** How many entries are for the shift called `name`. */
  function CountShift(es: seq<Entry>, name: string): (c: nat)
    ensures c <= |es|
  {
    if es == [] then 0
    else CountShift(es[..|es| - 1], name) + (if es[|es| - 1].shift == name then 1 else 0)
  }

  lemma {:induction false} CountShiftAppend(a: seq<Entry>, b: seq<Entry>, name: string)
    ensures CountShift(a + b, name) == CountShift(a, name) + CountShift(b, name)
  {
    if b == [] {
      assert a + b == a;
    } else {
      CountShiftAppend(a, b[..|b| - 1], name);
      assert (a + b)[..|a + b| - 1] == a + b[..|b| - 1];
    }
  }

  /** A cell's entries all carry its shift's name. */
  lemma {:induction false} CountShiftCell(x: Grid, emps: seq<Employee>, name': string, d: int, s: int, n: nat, name: string)
    requires n <= |emps|
    ensures CountShift(CellEntries(x, emps, name', d, s, n), name)
         == if name == name' then |CellEntries(x, emps, name', d, s, n)| else 0
  {
    if n > 0 {
      CountShiftCell(x, emps, name', d, s, n - 1, name);
      var prev := CellEntries(x, emps, name', d, s, n - 1);
      var last := if Cell(x, n - 1, d, s) then [Entry(name', emps[n - 1].name)] else [];
      CountShiftAppend(prev, last, name);
      assert CountShift(last, name) == if name == name' then |last| else 0 by {
        if last != [] {
          assert last[..0] == [];
        }
      }
    }
  }

  /** Shift names are pairwise different. */
  predicate DistinctNames(shifts: seq<Shift>) {
    forall i, j :: 0 <= i < j < |shifts| ==> shifts[i].name != shifts[j].name
  }

  /** With distinct shift names, the entries for shift `s` in a day's list
      are that cell's entries. */
  lemma {:induction false} CountShiftDay(x: Grid, emps: seq<Employee>, shifts: seq<Shift>, d: int, m: nat, s: nat)
    requires m <= |shifts| && s < |shifts| && DistinctNames(shifts)
    ensures CountShift(DayEntries(x, emps, shifts, d, m), shifts[s].name)
         == if s < m then |CellEntries(x, emps, shifts[s].name, d, s, |emps|)| else 0
  {
    if m > 0 {
      var name := shifts[s].name;
      CountShiftDay(x, emps, shifts, d, m - 1, s);
      var a, b := DayEntries(x, emps, shifts, d, m - 1), CellEntries(x, emps, shifts[m - 1].name, d, m - 1, |emps|);
      assert DayEntries(x, emps, shifts, d, m) == a + b;
      CountShiftAppend(a, b, name);
      CountShiftCell(x, emps, shifts[m - 1].name, d, m - 1, |emps|, name);
      if s == m - 1 {
        assert CountShift(a, name) == 0 && CountShift(b, name) == |b|;
      } else {
        assert name != shifts[m - 1].name by {
          if s < m - 1 {
            assert shifts[s].name != shifts[m - 1].name;
          } else {
            assert shifts[m - 1].name != shifts[s].name;
          }
        }
        assert CountShift(b, name) == 0;
      }
    }
  }

  /** Whatever the shift names, a day's list holds at least the entries of
      each of its cells under that cell's shift name. */
  lemma {:induction false} CountShiftDayAtLeast(x: Grid, emps: seq<Employee>, shifts: seq<Shift>, d: int, m: nat, s: nat)
    requires s < m <= |shifts|
    ensures CountShift(DayEntries(x, emps, shifts, d, m), shifts[s].name)
         >= |CellEntries(x, emps, shifts[s].name, d, s, |emps|)|
  {
    var name := shifts[s].name;
    var a, b := DayEntries(x, emps, shifts, d, m - 1), CellEntries(x, emps, shifts[m - 1].name, d, m - 1, |emps|);
    assert DayEntries(x, emps, shifts, d, m) == a + b;
    CountShiftAppend(a, b, name);
    if s == m - 1 {
      CountShiftCell(x, emps, shifts[m - 1].name, d, m - 1, |emps|, name);
    } else {
      CountShiftDayAtLeast(x, emps, shifts, d, m - 1, s);
    }
  }

  /** Day names are pairwise different. */
  predicate DistinctDays(days: seq<string>) {
    forall i, j :: 0 <= i < j < |days| ==> days[i] != days[j]
  }

  /** With distinct day names, a day not yet visited has no key. */
  lemma {:induction false} AssignmentsOmits(days: seq<string>, perDay: seq<seq<Entry>>, k: nat, d: nat)
    requires k <= d < |days| && k <= |perDay| && DistinctDays(days)
    ensures days[d] !in Assignments(days, perDay, k)
  {
    if k > 0 {
      AssignmentsOmits(days, perDay, k - 1, d);
      assert days[k - 1] != days[d];
    }
  }

  /** With distinct day names, a day's list is that day's entries. */
  lemma {:induction false} LookupAssignments(days: seq<string>, perDay: seq<seq<Entry>>, k: nat, d: nat)
    requires d < k <= |days| && k <= |perDay| && DistinctDays(days)
    ensures Lookup(Assignments(days, perDay, k), days[d]) == perDay[d]
  {
    var prev := Assignments(days, perDay, k - 1);
    if d == k - 1 {
      AssignmentsOmits(days, perDay, k - 1, d);
      assert Lookup(prev, days[d]) == [];
      assert [] + perDay[d] == perDay[d];
    } else {
      LookupAssignments(days, perDay, k - 1, d);
      assert days[d] != days[k - 1];
    }
  }

  /** Whatever the day names, a day name's list holds at least the entries
      of each day of that name, shift by shift. */
  lemma {:induction false} LookupAssignmentsAtLeast(days: seq<string>, perDay: seq<seq<Entry>>, k: nat, d: nat, name: string)
    requires d < k <= |days| && k <= |perDay|
    ensures CountShift(Lookup(Assignments(days, perDay, k), days[d]), name) >= CountShift(perDay[d], name)
  {
    var prev := Assignments(days, perDay, k - 1);
    AddEntriesLookup(prev, days[k - 1], perDay[k - 1], days[d]);
    if days[d] == days[k - 1] {
      CountShiftAppend(Lookup(prev, days[d]), perDay[k - 1], name);
      if d < k - 1 {
        LookupAssignmentsAtLeast(days, perDay, k - 1, d, name);
      }
    } else {
      LookupAssignmentsAtLeast(days, perDay, k - 1, d, name);
    }
  }

  // ---------------------------------------------------------------------
  // The returned schedule
  // ---------------------------------------------------------------------

  /** The entries of a returned schedule are exactly the grid's
      assignments on days of that name, each to a named employee; unless
      availability was relaxed, nobody is listed on a day or a shift they
      marked unavailable. */
  lemma CpScheduleEntries(schema: Schema, opts: CpOptions, answer: Option<Grid>, day: string, en: Entry)
    requires SolverAnswer(schema, opts, answer) && answer.Some?
    requires CpOutcome(schema, answer).Returned? && CpOutcome(schema, answer).output.Schedule?
    ensures schema.employees.Some? && schema.shiftStructure.Some?
    ensures
      en in Lookup(CpOutcome(schema, answer).output.byDay, day) <==>
        exists e, d, s :: 0 <= e < |schema.employees.value| && 0 <= d < |DaysOf(schema)| && 0 <= s < |schema.shiftStructure.value|
          && DaysOf(schema)[d] == day && Cell(answer.value, e, d, s)
          && en == Entry(schema.shiftStructure.value[s].name, schema.employees.value[e].name)
    ensures en in Lookup(CpOutcome(schema, answer).output.byDay, day) ==> en.employee.Some? && day in DaysOf(schema)
    ensures en in Lookup(CpOutcome(schema, answer).output.byDay, day) && !opts.relaxAvailability ==>
      exists e, s :: 0 <= e < |schema.employees.value| && 0 <= s < |schema.shiftStructure.value|
        && en == Entry(schema.shiftStructure.value[s].name, schema.employees.value[e].name)
        && day !in schema.employees.value[e].unavailableDays
        && schema.shiftStructure.value[s].name !in schema.employees.value[e].unavailableTimes
  {
    var emps, days, shifts := schema.employees.value, DaysOf(schema), WithDefaultMinStaff(schema.shiftStructure.value);
    var x := answer.value;
    var perDay := AllDays(x, emps, shifts, |days|);
    AssignmentsMembers(days, perDay, |days|, day);
    assert days[..|days|] == days;
    forall d | 0 <= d < |days| {
      DayEntriesMembers(x, emps, shifts, d, |shifts|);
    }
    if en in Lookup(CpOutcome(schema, answer).output.byDay, day) {
      var d :| 0 <= d < |days| && days[d] == day && en in perDay[d];
      var e, s :| 0 <= e < |emps| && 0 <= s < |shifts| && Cell(x, e, d, s) && en == Entry(shifts[s].name, emps[e].name);
      assert !Unnamed(x, emps, |days|, |shifts|);
      if !opts.relaxAvailability {
        assert !Unavailable(emps[e], days[d], shifts[s]);
      }
    }
  }

  /** A returned schedule lists, for every shift of every day, at least
      `min_staff` entries under that day's and that shift's names, unless
      coverage was relaxed. */
  lemma CpCoverage(schema: Schema, opts: CpOptions, answer: Option<Grid>, d: nat, s: nat)
    requires SolverAnswer(schema, opts, answer) && answer.Some?
    requires CpOutcome(schema, answer).Returned? && CpOutcome(schema, answer).output.Schedule?
    requires !opts.relaxCoverage
    requires schema.shiftStructure.Some?
    requires d < |DaysOf(schema)| && s < |schema.shiftStructure.value|
    ensures CountShift(Lookup(CpOutcome(schema, answer).output.byDay, DaysOf(schema)[d]), schema.shiftStructure.value[s].name)
         >= MinStaff(schema.shiftStructure.value[s])
  {
    var emps, days, shifts := schema.employees.value, DaysOf(schema), WithDefaultMinStaff(schema.shiftStructure.value);
    var x := answer.value;
    var perDay := AllDays(x, emps, shifts, |days|);
    assert shifts[s].name == schema.shiftStructure.value[s].name;
    LookupAssignmentsAtLeast(days, perDay, |days|, d, shifts[s].name);
    CountShiftDayAtLeast(x, emps, shifts, d, |shifts|, s);
    CellEntriesFacts(x, emps, shifts[s].name, d, s, |emps|);
    assert Count(x, emps, d, s, Anyone, |emps|) >= MinStaff(shifts[s]);
  }

  /** Without employees, and with some shift needing staff on some day and
      coverage enforced, the call reports that no schedule was found. */
  lemma CpEmptyRoster(schema: Schema, opts: CpOptions, answer: Option<Grid>, d: int, s: int)
    requires SolverAnswer(schema, opts, answer)
    requires schema.employees == Some([]) && schema.shiftStructure.Some? && !opts.relaxCoverage
    requires 0 <= d < |DaysOf(schema)| && 0 <= s < |schema.shiftStructure.value|
    requires MinStaff(schema.shiftStructure.value[s]) >= 1
    ensures CpOutcome(schema, answer) == Returned(ErrorDict(NoSolution))
  {
    if answer.Some? {
      EmptyRosterInfeasible(answer.value, DaysOf(schema), WithDefaultMinStaff(schema.shiftStructure.value), opts, d, s);
    }
  }
}
