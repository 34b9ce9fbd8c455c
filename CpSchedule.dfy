/** What `build_optimized_schedule_cp` does around the solver: it reads the
    mandatory keys, fills in `min_staff` on every shift, and turns the
    solver's grid into the day → entries dictionary, visiting days, then
    shifts, then employees.  The solver's answer is a parameter: `None` when
    CP-SAT reports neither OPTIMAL nor FEASIBLE, otherwise a grid which, by
    CP-SAT's guarantee, satisfies the model of `CpModel`. */
module CpSchedule {
  import opened Schema
  import opened CpModel

  const NoSolution: string := "No feasible schedule found with current constraints."

  // ---------------------------------------------------------------------
  // `sh.setdefault("min_staff", 1)`
  // ---------------------------------------------------------------------

  /** Every shift with its `min_staff` filled in: a shift that has one keeps
      it, the others get 1; nothing else changes. */
  function WithDefaultMinStaff(shifts: seq<Shift>): (r: seq<Shift>)
    ensures |r| == |shifts|
    ensures forall i :: 0 <= i < |shifts| ==> r[i].minStaff.Some? && MinStaff(r[i]) == MinStaff(shifts[i])
    ensures forall i :: 0 <= i < |shifts| ==>
      && r[i].name == shifts[i].name && r[i].hours == shifts[i].hours
      && r[i].requiredRoles == shifts[i].requiredRoles
    ensures forall i :: 0 <= i < |shifts| && shifts[i].minStaff.Some? ==> r[i] == shifts[i]
  {
    seq(|shifts|, i requires 0 <= i < |shifts| => shifts[i].(minStaff := Some(MinStaff(shifts[i]))))
  }

  /** Filling in the defaults a second time changes nothing. */
  lemma WithDefaultMinStaffIdempotent(shifts: seq<Shift>)
    ensures WithDefaultMinStaff(WithDefaultMinStaff(shifts)) == WithDefaultMinStaff(shifts)
  {
  }

  /** The loop over `shift_structure`, updating each shift in place. */
  method SetDefaultMinStaff(shifts: seq<Shift>) returns (r: seq<Shift>)
    ensures r == WithDefaultMinStaff(shifts)
  {
    r := shifts;
    for i := 0 to |shifts|
      invariant |r| == |shifts|
      invariant forall k :: 0 <= k < i ==> r[k] == WithDefaultMinStaff(shifts)[k]
      invariant forall k :: i <= k < |shifts| ==> r[k] == shifts[k]
    {
      if r[i].minStaff.None? {
        r := r[i := r[i].(minStaff := Some(1))];
      }
    }
  }

  // ---------------------------------------------------------------------
  // The output the code builds from a grid
  // ---------------------------------------------------------------------

  /** The entries of shift `s` on day `d`: one per employee among the first
      `n` that the grid assigns, in roster order. */
  function CellEntries(x: Grid, emps: seq<Employee>, name: string, d: int, s: int, n: nat): seq<Entry>
    requires n <= |emps|
  {
    if n == 0 then []
    else CellEntries(x, emps, name, d, s, n - 1)
         + (if Cell(x, n - 1, d, s) then [Entry(name, emps[n - 1].name)] else [])
  }

  /** The entries of day `d` for its first `m` shifts, shift by shift. */
  function DayEntries(x: Grid, emps: seq<Employee>, shifts: seq<Shift>, d: int, m: nat): seq<Entry>
    requires m <= |shifts|
  {
    if m == 0 then []
    else DayEntries(x, emps, shifts, d, m - 1) + CellEntries(x, emps, shifts[m - 1].name, d, m - 1, |emps|)
  }

  /** The entries of each of the first `nd` days. */
  function AllDays(x: Grid, emps: seq<Employee>, shifts: seq<Shift>, nd: nat): (r: seq<seq<Entry>>)
    ensures |r| == nd
    ensures forall d :: 0 <= d < nd ==> r[d] == DayEntries(x, emps, shifts, d, |shifts|)
  {
    seq(nd, d requires 0 <= d < nd => DayEntries(x, emps, shifts, d, |shifts|))
  }

  /** The dictionary after the first `k` days, day `d` contributing the
      entries `perDay[d]` under its name. */
  function Assignments(days: seq<string>, perDay: seq<seq<Entry>>, k: nat): map<string, seq<Entry>>
    requires k <= |days| && k <= |perDay|
  {
    if k == 0 then map[]
    else AddEntries(Assignments(days, perDay, k - 1), days[k - 1], perDay[k - 1])
  }

  /** Some assigned employee has no `name`: reading it raises `KeyError`. */
  predicate Unnamed(x: Grid, emps: seq<Employee>, nd: nat, ns: nat) {
    exists e, d, s :: 0 <= e < |emps| && 0 <= d < nd && 0 <= s < ns && Cell(x, e, d, s) && emps[e].name.None?
  }

  /** Everyone assigned on day `d` has a name. */
  predicate NamedOn(x: Grid, emps: seq<Employee>, d: int, ns: nat) {
    forall e, s :: 0 <= e < |emps| && 0 <= s < ns && Cell(x, e, d, s) ==> emps[e].name.Some?
  }

  /** One more day has an unnamed assigned employee exactly when that day
      has one. */
  lemma UnnamedStep(x: Grid, emps: seq<Employee>, d: nat, ns: nat)
    ensures Unnamed(x, emps, d + 1, ns) <==> Unnamed(x, emps, d, ns) || !NamedOn(x, emps, d, ns)
  {
    if Unnamed(x, emps, d + 1, ns) {
      var e, d', s :| 0 <= e < |emps| && 0 <= d' < d + 1 && 0 <= s < ns && Cell(x, e, d', s) && emps[e].name.None?;
      if d' < d {
        assert Unnamed(x, emps, d, ns);
      }
    }
    if !NamedOn(x, emps, d, ns) {
      var e, s :| 0 <= e < |emps| && 0 <= s < ns && Cell(x, e, d, s) && emps[e].name.None?;
      assert Unnamed(x, emps, d + 1, ns);
    }
  }

  /** More days can only add unnamed assignments. */
  lemma UnnamedMonotone(x: Grid, emps: seq<Employee>, d: nat, nd: nat, ns: nat)
    requires d <= nd && Unnamed(x, emps, d, ns)
    ensures Unnamed(x, emps, nd, ns)
  {
    var e, d', s :| 0 <= e < |emps| && 0 <= d' < d && 0 <= s < ns && Cell(x, e, d', s) && emps[e].name.None?;
  }

  /** The schema after the call: `setdefault` has filled in `min_staff` on
      the caller's own shifts, once both mandatory keys were read. */
  function AfterCall(schema: Schema): Schema {
    if schema.employees.Some? && schema.shiftStructure.Some?
    then schema.(shiftStructure := Some(WithDefaultMinStaff(schema.shiftStructure.value)))
    else schema
  }

  /** What `build_optimized_schedule_cp` returns or raises, given the
      solver's answer. */
  function CpOutcome(schema: Schema, answer: Option<Grid>): (r: Outcome)
    ensures r == KeyError("employees") <==> schema.employees.None?
    ensures r == KeyError("shift_structure") <==> schema.employees.Some? && schema.shiftStructure.None?
    ensures r == Returned(ErrorDict(NoSolution)) <==>
      schema.employees.Some? && schema.shiftStructure.Some? && answer.None?
    ensures r.KeyError? ==> r.key in {"employees", "shift_structure", "name"}
  {
    if schema.employees.None? then KeyError("employees")
    else if schema.shiftStructure.None? then KeyError("shift_structure")
    else if answer.None? then Returned(ErrorDict(NoSolution))
    else
      var emps, days, shifts := schema.employees.value, DaysOf(schema), WithDefaultMinStaff(schema.shiftStructure.value);
      if Unnamed(answer.value, emps, |days|, |shifts|) then KeyError("name")
      else Returned(Schedule(Assignments(days, AllDays(answer.value, emps, shifts, |days|), |days|)))
  }

  /** The innermost loop, over the employees, for shift `s` of day `d`: the
      entries it appends to the day's list, or `ok == false` when it reads
      the name of an assigned employee that has none. */
  method ShapeCell(x: Grid, emps: seq<Employee>, name: string, d: int, s: int)
    returns (entries: seq<Entry>, ok: bool)
    ensures ok <==> forall e :: 0 <= e < |emps| && Cell(x, e, d, s) ==> emps[e].name.Some?
    ensures ok ==> entries == CellEntries(x, emps, name, d, s, |emps|)
  {
    entries := [];
    for e := 0 to |emps|
      invariant entries == CellEntries(x, emps, name, d, s, e)
      invariant forall e' :: 0 <= e' < e && Cell(x, e', d, s) ==> emps[e'].name.Some?
    {
      if Cell(x, e, d, s) {
        if emps[e].name.None? {
          return entries, false;
        }
        entries := entries + [Entry(name, emps[e].name)];
      }
    }
    ok := true;
  }

  /** The middle loop, over the shifts of day `d`. */
  method ShapeDay(x: Grid, emps: seq<Employee>, shifts: seq<Shift>, d: int)
    returns (entries: seq<Entry>, ok: bool)
    ensures ok <==> NamedOn(x, emps, d, |shifts|)
    ensures ok ==> entries == DayEntries(x, emps, shifts, d, |shifts|)
  {
    entries := [];
    for s := 0 to |shifts|
      invariant entries == DayEntries(x, emps, shifts, d, s)
      invariant NamedOn(x, emps, d, s)
    {
      var cell;
      cell, ok := ShapeCell(x, emps, shifts[s].name, d, s);
      if !ok {
        return;
      }
      entries := entries + cell;
    }
    ok := true;
  }

  /** `build_optimized_schedule_cp(schema, **opts)` once the solver has
      answered; it also returns the caller's schema as the call leaves it. */
  method BuildOptimizedScheduleCp(schema: Schema, opts: CpOptions, answer: Option<Grid>)
    returns (r: Outcome, after: Schema)
    ensures r == CpOutcome(schema, answer)
    ensures after == AfterCall(schema)
  {
    if schema.employees.None? {
      return KeyError("employees"), schema;
    }
    if schema.shiftStructure.None? {
      return KeyError("shift_structure"), schema;
    }
    var emps := schema.employees.value;
    var days := DaysOf(schema);
    var shifts := SetDefaultMinStaff(schema.shiftStructure.value);
    after := schema.(shiftStructure := Some(shifts));
    if answer.None? {
      return Returned(ErrorDict(NoSolution)), after;
    }
    var x := answer.value;
    ghost var perDay := AllDays(x, emps, shifts, |days|);
    var sched: map<string, seq<Entry>> := map[];
    for d := 0 to |days|
      invariant sched == Assignments(days, perDay, d)
      invariant !Unnamed(x, emps, d, |shifts|)
    {
      var entries, ok := ShapeDay(x, emps, shifts, d);
      UnnamedStep(x, emps, d, |shifts|);
      if !ok {
        UnnamedMonotone(x, emps, d + 1, |days|, |shifts|);
        return KeyError("name"), after;
      }
      sched := AddEntries(sched, days[d], entries);
    }
    r := Returned(Schedule(sched));
  }
}
