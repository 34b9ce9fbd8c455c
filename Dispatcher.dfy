/** `build_schedule`, the unified entry point: it filters the roster by the
    optional thresholds on a deep copy of the schema, then hands the copy
    to the greedy assigner or to the CP-SAT scheduler, or reports an
    unknown method.  The two sources of nondeterminism are parameters: the
    order `random.shuffle` produces for the greedy assigner, and the
    solver's answer for the CP scheduler. */
module Dispatcher {
  import opened Schema
  import opened EmployeeFilter
  import opened Greedy
  import opened GreedyRun
  import opened CpModel
  import opened CpSchedule
  import opened CpResults

  /** The keyword arguments of `build_schedule`. */
  datatype ScheduleOptions = ScheduleOptions(
    methodName: string,
    fairness: bool,
    restConstraint: bool,
    seniority: bool,
    fairnessWeight: int,
    workPercentageThreshold: Option<int>,
    experienceThreshold: Option<int>,
    relaxWorkPercentage: bool,
    relaxCoverage: bool,
    relaxAvailability: bool)

  /** The defaults of `build_schedule`: CP-SAT, fairness and rest on,
      seniority off, weight 1, no thresholds, nothing relaxed. */
  const DefaultOptions: ScheduleOptions :=
    ScheduleOptions("cp", true, true, false, 1, None, None, false, false, false)

  /** The flags forwarded to `build_optimized_schedule_cp`. */
  function CpOptionsOf(o: ScheduleOptions): CpOptions {
    CpOptions(o.relaxWorkPercentage, o.relaxCoverage, o.relaxAvailability,
              o.fairness, o.fairnessWeight, o.restConstraint, o.seniority)
  }

  /** The default options forward the CP scheduler's own defaults. */
  lemma DefaultOptionsForwardDefaults()
    ensures DefaultOptions.methodName == "cp"
    ensures CpOptionsOf(DefaultOptions) == DefaultCpOptions
  {
  }

  /** The message for a method that is neither `"greedy"` nor `"cp"`. */
  function UnknownMethod(m: string): string {
    "Unknown method '" + m + "'"
  }

  /** The message quotes the method, so different methods get different
      messages. */
  lemma UnknownMethodInjective(m: string, m': string)
    requires UnknownMethod(m) == UnknownMethod(m')
    ensures m == m'
  {
    var head := "Unknown method '";
    assert UnknownMethod(m)[|head|..|head| + |m|] == m;
    assert UnknownMethod(m')[|head|..|head| + |m'|] == m';
  }

  /** The message cannot be mistaken for the solver's. */
  lemma UnknownMethodNotNoSolution(m: string)
    ensures UnknownMethod(m) != NoSolution
  {
    var u := UnknownMethod(m);
    assert u[|u| - 1] == '\'';
    assert NoSolution[|NoSolution| - 1] == '.';
  }

  /** The filtered copy both schedulers receive. */
  function Filtered(schema: Schema, o: ScheduleOptions): (r: Schema)
    ensures TaskCount(r) == TaskCount(schema)
    ensures r.employees.Some?
    ensures forall e :: e in r.employees.value <==>
      e in schema.employees.GetOr([]) && PassesThresholds(o.workPercentageThreshold, o.experienceThreshold, e)
  {
    FilterEmployeesMembers(schema.employees.GetOr([]), o.workPercentageThreshold, o.experienceThreshold);
    FilterSchema(schema, o.workPercentageThreshold, o.experienceThreshold)
  }

  /** What `build_schedule(schema, **o)` returns or raises, given the
      shuffle order (used by the greedy assigner only) and the solver's
      answer (used by the CP scheduler only). */
  function Dispatch(schema: Schema, o: ScheduleOptions, order: seq<nat>, answer: Option<Grid>): (r: Outcome)
    requires o.methodName == "greedy" ==> IsPermutation(order, TaskCount(schema))
    ensures r.KeyError? ==> r.key in {"shift_structure", "name"}
    ensures r == KeyError("shift_structure") <==>
      (o.methodName == "greedy" || o.methodName == "cp") && schema.shiftStructure.None?
    ensures o.methodName != "greedy" && o.methodName != "cp" ==> r == Returned(ErrorDict(UnknownMethod(o.methodName)))
    ensures r.Returned? && r.output.ErrorDict? ==> (r.output.error == NoSolution <==> o.methodName == "cp")
  {
    var filtered := Filtered(schema, o);
    if o.methodName == "greedy" then GreedyOutcome(filtered, order)
    else if o.methodName == "cp" then CpOutcome(filtered, answer)
    else
      UnknownMethodNotNoSolution(o.methodName);
      Returned(ErrorDict(UnknownMethod(o.methodName)))
  }

  /** `build_schedule` itself: filter, then dispatch on `method`. */
  method BuildSchedule(schema: Schema, o: ScheduleOptions, order: seq<nat>, answer: Option<Grid>)
    returns (r: Outcome)
    requires o.methodName == "greedy" ==> IsPermutation(order, TaskCount(schema))
    ensures r == Dispatch(schema, o, order, answer)
  {
    var filtered := FilterSchema(schema, o.workPercentageThreshold, o.experienceThreshold);
    if o.methodName == "greedy" {
      r := BuildBasicSchedule(filtered, order);
      return;
    }
    if o.methodName == "cp" {
      var after;
      r, after := BuildOptimizedScheduleCp(filtered, CpOptionsOf(o), answer);
      return;
    }
    r := Returned(ErrorDict(UnknownMethod(o.methodName)));
  }

  /** The greedy assigner ignores every CP flag and the solver: two calls
      that differ only in those give the same result. */
  lemma GreedyIgnoresCpOptions(schema: Schema, o: ScheduleOptions, o': ScheduleOptions,
                               order: seq<nat>, answer: Option<Grid>, answer': Option<Grid>)
    requires o.methodName == "greedy" && o'.methodName == "greedy" && IsPermutation(order, TaskCount(schema))
    requires o.workPercentageThreshold == o'.workPercentageThreshold
    requires o.experienceThreshold == o'.experienceThreshold
    ensures Dispatch(schema, o, order, answer) == Dispatch(schema, o', order, answer')
  {
  }

  /** Passing thresholds is the same as calling without thresholds on a
      schema whose roster was filtered beforehand. */
  lemma ThresholdsAsPrefilter(schema: Schema, o: ScheduleOptions, order: seq<nat>, answer: Option<Grid>)
    requires o.methodName == "greedy" ==> IsPermutation(order, TaskCount(schema))
    ensures var plain := o.(workPercentageThreshold := None, experienceThreshold := None);
      Dispatch(schema, o, order, answer) == Dispatch(Filtered(schema, o), plain, order, answer)
  {
    var plain := o.(workPercentageThreshold := None, experienceThreshold := None);
    var once := Filtered(schema, o);
    assert Filtered(once, plain) == once by {
      FilterSchemaNoThreshold(once);
    }
  }

  /** Every employee a returned schedule names belongs to the roster and
      passes the thresholds; for CP-SAT this rests on the solver answering
      with a grid that satisfies its model. */
  lemma NamedEmployeesQualify(schema: Schema, o: ScheduleOptions, order: seq<nat>, answer: Option<Grid>,
                              day: string, en: Entry)
    requires o.methodName == "greedy" ==> IsPermutation(order, TaskCount(schema))
    requires o.methodName == "cp" ==> SolverAnswer(Filtered(schema, o), CpOptionsOf(o), answer)
    requires Dispatch(schema, o, order, answer).Returned?
    requires Dispatch(schema, o, order, answer).output.Schedule?
    requires en in Lookup(Dispatch(schema, o, order, answer).output.byDay, day) && en.employee.Some?
    ensures exists e :: (e in schema.employees.GetOr([]) && e.name == en.employee
      && PassesThresholds(o.workPercentageThreshold, o.experienceThreshold, e))
  {
    var filtered := Filtered(schema, o);
    var emps := filtered.employees.value;
    if o.methodName == "greedy" {
      GreedyNamesRoster(filtered, order, day, en);
    } else {
      CpNamesRoster(filtered, CpOptionsOf(o), answer, day, en);
    }
    var k :| 0 <= k < |emps| && emps[k].name == en.employee;
    assert emps[k] in emps;
  }

  /** A named greedy entry names some employee of the roster it was given. */
  lemma GreedyNamesRoster(schema: Schema, order: seq<nat>, day: string, en: Entry)
    requires IsPermutation(order, TaskCount(schema))
    requires GreedyOutcome(schema, order).Returned? && GreedyOutcome(schema, order).output.Schedule?
    requires en in Lookup(GreedyOutcome(schema, order).output.byDay, day) && en.employee.Some?
    ensures schema.employees.Some?
    ensures exists k :: 0 <= k < |schema.employees.value| && schema.employees.value[k].name == en.employee
  {
    var sched := GreedyOutcome(schema, order).output.byDay;
    GreedyAvailable(schema, order);
    var i :| 0 <= i < |Lookup(sched, day)| && Lookup(sched, day)[i] == en;
    assert EmployeesAvailable(schema.employees.value, sched);
  }

  /** A named CP-SAT entry names some employee of the roster it was given. */
  lemma CpNamesRoster(schema: Schema, opts: CpOptions, answer: Option<Grid>, day: string, en: Entry)
    requires SolverAnswer(schema, opts, answer)
    requires CpOutcome(schema, answer).Returned? && CpOutcome(schema, answer).output.Schedule?
    requires en in Lookup(CpOutcome(schema, answer).output.byDay, day) && en.employee.Some?
    ensures schema.employees.Some?
    ensures exists k :: 0 <= k < |schema.employees.value| && schema.employees.value[k].name == en.employee
  {
    CpScheduleEntries(schema, opts, answer, day, en);
    var emps, shifts := schema.employees.value, schema.shiftStructure.value;
    var e, d, s :| 0 <= e < |emps| && 0 <= d < |DaysOf(schema)| && 0 <= s < |shifts|
      && DaysOf(schema)[d] == day && Cell(answer.value, e, d, s)
      && en == Entry(shifts[s].name, emps[e].name);
  }
}
