/** The constraint model `build_optimized_schedule_cp` hands to CP-SAT.  A
    solution is a grid of booleans, `x[e][d][s]` being "employee e works
    shift s on day d"; the solver itself is not modelled, only what a grid
    must satisfy to be one of its answers. */
module CpModel {
  import opened Schema

  /** The keyword arguments of `build_optimized_schedule_cp`. */
  datatype CpOptions = CpOptions(
    relaxWorkPercentage: bool,
    relaxCoverage: bool,
    relaxAvailability: bool,
    fairness: bool,
    fairnessWeight: int,
    restConstraint: bool,
    seniority: bool)

  const DefaultCpOptions: CpOptions := CpOptions(false, false, false, true, 1, true, false)

  /** `x[e][d][s]`, the solver's value for the variable `x_e_d_s`. */
  type Grid = seq<seq<seq<bool>>>

  /** One variable per employee, day and shift. */
  predicate Shaped(x: Grid, ne: nat, nd: nat, ns: nat) {
    && |x| == ne
    && (forall e :: 0 <= e < ne ==> |x[e]| == nd)
    && (forall e, d :: 0 <= e < ne && 0 <= d < nd ==> |x[e][d]| == ns)
  }

  /** The value of one variable (false outside the grid). */
  predicate Cell(x: Grid, e: int, d: int, s: int) {
    && 0 <= e < |x| && 0 <= d < |x[e]| && 0 <= s < |x[e][d]|
    && x[e][d][s]
  }

  // ---------------------------------------------------------------------
  // Sums over the grid
  // ---------------------------------------------------------------------

  /** Which employees a headcount constraint counts. */
  datatype Who = Anyone | HasRole(role: string) | Experienced

  /** `role in emp.get("roles_primary", [])` and
      `emp.get("senior", False) or emp.get("experience_years", 0) >= 3`. */
  predicate Counts(who: Who, emp: Employee) {
    match who
    case Anyone => true
    case HasRole(role) => role in emp.rolesPrimary
    case Experienced => emp.senior || ExperienceYears(emp) >= 3
  }

  /** How many of the first `n` employees that `who` counts work shift `s`
      on day `d`. */
  function Count(x: Grid, emps: seq<Employee>, d: int, s: int, who: Who, n: nat): (c: nat)
    requires n <= |emps|
    ensures c <= n
  {
    if n == 0 then 0
    else Count(x, emps, d, s, who, n - 1) + (if Cell(x, n - 1, d, s) && Counts(who, emps[n - 1]) then 1 else 0)
  }

  /** Hours employee `e` works on day `d` in the first `m` shifts. */
  function DayHours(x: Grid, e: int, d: int, shifts: seq<Shift>, m: nat): nat
    requires m <= |shifts|
  {
    if m == 0 then 0
    else DayHours(x, e, d, shifts, m - 1) + (if Cell(x, e, d, m - 1) then shifts[m - 1].hours else 0)
  }

  /** Hours employee `e` works on the first `k` days. */
  function Hours(x: Grid, e: int, shifts: seq<Shift>, k: nat): nat {
    if k == 0 then 0 else Hours(x, e, shifts, k - 1) + DayHours(x, e, k - 1, shifts, |shifts|)
  }

  /** Python's `int()` of a quotient: division truncating toward zero. */
  function TruncDiv(a: int, b: int): int
    requires b > 0
  {
    if a >= 0 then a / b else -((-a) / b)
  }

  /** The weekly cap on anyone's target. */
  const WeeklyCap: int := 40

  /** `min(int(work_percentage / 100 * total), 40)`, computed exactly. */
  function TargetHours(emp: Employee, total: int): int {
    var t := TruncDiv(WorkPercentage(emp) * total, 100);
    if t < WeeklyCap then t else WeeklyCap
  }

  // ---------------------------------------------------------------------
  // The constraints
  // ---------------------------------------------------------------------

  /** 1. Every shift on every day has at least `min_staff` employees, unless
      coverage is relaxed. */
  predicate CoverageHolds(x: Grid, emps: seq<Employee>, nd: nat, shifts: seq<Shift>, opts: CpOptions) {
    opts.relaxCoverage ||
    forall d, s :: 0 <= d < nd && 0 <= s < |shifts| ==> Count(x, emps, d, s, Anyone, |emps|) >= MinStaff(shifts[s])
  }

  /** The employee said it cannot work that day or that shift. */
  predicate Unavailable(emp: Employee, day: string, sh: Shift) {
    day in emp.unavailableDays || sh.name in emp.unavailableTimes
  }

  /** 2. Nobody works when unavailable, unless availability is relaxed. */
  predicate AvailabilityHolds(x: Grid, emps: seq<Employee>, days: seq<string>, shifts: seq<Shift>, opts: CpOptions) {
    opts.relaxAvailability ||
    forall e, d, s :: 0 <= e < |emps| && 0 <= d < |days| && 0 <= s < |shifts| && Unavailable(emps[e], days[d], shifts[s])
      ==> !Cell(x, e, d, s)
  }

  /** 2b. Every required role has its headcount among the employees whose
      primary roles include it; never relaxed. */
  predicate RoleCoverageHolds(x: Grid, emps: seq<Employee>, nd: nat, shifts: seq<Shift>) {
    forall d, s, k :: 0 <= d < nd && 0 <= s < |shifts| && 0 <= k < |shifts[s].requiredRoles| ==>
      Count(x, emps, d, s, HasRole(shifts[s].requiredRoles[k].0), |emps|) >= shifts[s].requiredRoles[k].1
  }

  /** The slot after shift `s` of day `d`: the next shift of the day, or the
      first shift of the next day, or none after the last day's last shift. */
  function NextSlot(d: nat, s: nat, nd: nat, ns: nat): Option<(nat, nat)>
    requires s < ns
  {
    if s < ns - 1 then Some((d, s + 1))
    else if d + 1 < nd then Some((d + 1, 0))
    else None
  }

  /** 2c. Nobody works two adjacent slots, when the rule is on and a day has
      more than one shift. */
  predicate RestHolds(x: Grid, ne: nat, nd: nat, ns: nat, opts: CpOptions) {
    !(opts.restConstraint && ns > 1) ||
    forall e, d, s :: 0 <= e < ne && 0 <= d < nd && 0 <= s < ns && Cell(x, e, d, s) && NextSlot(d, s, nd, ns).Some?
      ==> !Cell(x, e, NextSlot(d, s, nd, ns).value.0, NextSlot(d, s, nd, ns).value.1)
  }

  /** 2d. With the seniority option, every shift needing more than two staff
      has a senior or experienced employee. */
  predicate SeniorityHolds(x: Grid, emps: seq<Employee>, nd: nat, shifts: seq<Shift>, opts: CpOptions) {
    !opts.seniority ||
    forall d, s :: 0 <= d < nd && 0 <= s < |shifts| && MinStaff(shifts[s]) > 2 ==>
      Count(x, emps, d, s, Experienced, |emps|) >= 1
  }

  /** Assigned hours against the target: exact, or within 95% to 105% of it
      when relaxed. */
  predicate HoursWithin(h: int, t: int, relax: bool) {
    if relax then 100 * h >= 95 * t && 100 * h <= 105 * t else h == t
  }

  /** 3. Everyone works their target hours. */
  predicate HoursHold(x: Grid, emps: seq<Employee>, nd: nat, shifts: seq<Shift>, total: int, opts: CpOptions) {
    forall e :: 0 <= e < |emps| ==>
      HoursWithin(Hours(x, e, shifts, nd), TargetHours(emps[e], total), opts.relaxWorkPercentage)
  }

  /** A grid CP-SAT may answer with: every hard constraint holds. */
  predicate Valid(x: Grid, emps: seq<Employee>, days: seq<string>, shifts: seq<Shift>, opts: CpOptions) {
    var nd := |days|;
    && Shaped(x, |emps|, nd, |shifts|)
    && CoverageHolds(x, emps, nd, shifts, opts)
    && AvailabilityHolds(x, emps, days, shifts, opts)
    && RoleCoverageHolds(x, emps, nd, shifts)
    && RestHolds(x, |emps|, nd, |shifts|, opts)
    && SeniorityHolds(x, emps, nd, shifts, opts)
    && HoursHold(x, emps, nd, shifts, TotalHours(days, shifts), opts)
  }

  // ---------------------------------------------------------------------
  // The fairness objective
  // ---------------------------------------------------------------------

  /** `staff_d`: how many shifts are staffed on day `d`, counting each
      employee on each shift. */
  function Headcount(x: Grid, ne: nat, d: int, ns: nat): nat {
    if ne == 0 then 0 else Headcount(x, ne - 1, d, ns) + EmployeeShifts(x, ne - 1, d, ns)
  }

  /** How many of the first `m` shifts of day `d` employee `e` works. */
  function EmployeeShifts(x: Grid, e: int, d: int, m: nat): (c: nat)
    ensures c <= m
  {
    if m == 0 then 0 else EmployeeShifts(x, e, d, m - 1) + (if Cell(x, e, d, m - 1) then 1 else 0)
  }

  /** The largest and smallest headcount over the first `k` days. */
  function MaxHeadcount(x: Grid, ne: nat, k: nat, ns: nat): nat
    requires k > 0
  {
    if k == 1 then Headcount(x, ne, 0, ns)
    else
      var m := MaxHeadcount(x, ne, k - 1, ns);
      var h := Headcount(x, ne, k - 1, ns);
      if h > m then h else m
  }

  function MinHeadcount(x: Grid, ne: nat, k: nat, ns: nat): nat
    requires k > 0
  {
    if k == 1 then Headcount(x, ne, 0, ns)
    else
      var m := MinHeadcount(x, ne, k - 1, ns);
      var h := Headcount(x, ne, k - 1, ns);
      if h < m then h else m
  }

  /** `spread = max_staff - min_staff`, the quantity minimised when fairness
      is on (scaled by `fairness_weight`). */
  function Spread(x: Grid, ne: nat, nd: nat, ns: nat): int
    requires nd > 0
  {
    MaxHeadcount(x, ne, nd, ns) - MinHeadcount(x, ne, nd, ns)
  }

  /** A day's headcount never exceeds `len(employees) * len(shift_structure)`,
      the upper bound of the objective's variables, so they never rule out
      a grid. */
  lemma {:induction false} HeadcountBound(x: Grid, ne: nat, d: int, ns: nat)
    ensures Headcount(x, ne, d, ns) <= ne * ns
  {
    if ne > 0 {
      HeadcountBound(x, ne - 1, d, ns);
      assert ne * ns == (ne - 1) * ns + ns;
    }
  }

  /** The largest and smallest headcount are those of some day and bound
      every day's. */
  lemma {:induction false} HeadcountExtremes(x: Grid, ne: nat, k: nat, ns: nat)
    requires k > 0
    ensures forall d :: 0 <= d < k ==>
      MinHeadcount(x, ne, k, ns) <= Headcount(x, ne, d, ns) <= MaxHeadcount(x, ne, k, ns)
    ensures exists d :: 0 <= d < k && Headcount(x, ne, d, ns) == MaxHeadcount(x, ne, k, ns)
    ensures exists d :: 0 <= d < k && Headcount(x, ne, d, ns) == MinHeadcount(x, ne, k, ns)
  {
    if k > 1 {
      HeadcountExtremes(x, ne, k - 1, ns);
    } else {
      assert Headcount(x, ne, 0, ns) == MaxHeadcount(x, ne, k, ns);
    }
  }

  /** The spread is never negative, and it is zero exactly when every day
      has the same headcount. */
  lemma SpreadZero(x: Grid, ne: nat, nd: nat, ns: nat)
    requires nd > 0
    ensures Spread(x, ne, nd, ns) >= 0
    ensures Spread(x, ne, nd, ns) == 0 <==>
      forall d :: 0 <= d < nd ==> Headcount(x, ne, d, ns) == Headcount(x, ne, 0, ns)
  {
    HeadcountExtremes(x, ne, nd, ns);
  }

  // ---------------------------------------------------------------------
  // Properties of the constraints
  // ---------------------------------------------------------------------

  /** The target is at most the weekly cap; it is never negative for a
      non-negative work percentage, and below the cap it is the whole part of
      `work_percentage * total / 100`. */
  lemma TargetHoursBounds(emp: Employee, total: nat)
    ensures TargetHours(emp, total) <= WeeklyCap
    ensures WorkPercentage(emp) >= 0 ==> TargetHours(emp, total) >= 0
    ensures WorkPercentage(emp) >= 0 && TargetHours(emp, total) < WeeklyCap ==>
      100 * TargetHours(emp, total) <= WorkPercentage(emp) * total < 100 * (TargetHours(emp, total) + 1)
  {
    if WorkPercentage(emp) >= 0 {
      assert WorkPercentage(emp) * total >= 0;
    }
  }

  /** In a valid grid nobody works more than the weekly cap (42 hours, 105%
      of it, when the work percentage is relaxed). */
  lemma ValidHoursCap(x: Grid, emps: seq<Employee>, days: seq<string>, shifts: seq<Shift>, opts: CpOptions, e: int)
    requires Valid(x, emps, days, shifts, opts) && 0 <= e < |emps|
    ensures !opts.relaxWorkPercentage ==> Hours(x, e, shifts, |days|) <= WeeklyCap
    ensures opts.relaxWorkPercentage ==> 100 * Hours(x, e, shifts, |days|) <= 105 * WeeklyCap
  {
    TargetHoursBounds(emps[e], TotalHours(days, shifts));
  }

  /** With the rest rule on, the slot after a worked slot is free: in the
      flattened order of slots (day by day, shift by shift) nobody works two
      consecutive ones. */
  lemma NextSlotFlat(d: nat, s: nat, nd: nat, ns: nat, d': nat, s': nat)
    requires s < ns && s' < ns && d' < nd
    ensures NextSlot(d, s, nd, ns) == Some((d', s')) <==> d' * ns + s' == d * ns + s + 1
  {
    var q := d' - d;
    assert d' * ns == d * ns + q * ns;
    assert (d + 1) * ns == d * ns + ns;
    if d' * ns + s' == d * ns + s + 1 {
      assert q * ns == s + 1 - s';
      ProductBounds(q, ns);
    }
  }

  /** Multiples of a positive `n` beyond `n` itself. */
  lemma ProductBounds(q: int, n: int)
    requires n > 0
    ensures q >= 2 ==> q * n >= 2 * n
    ensures q <= -1 ==> q * n <= -n
  {
    if q >= 2 {
      assert q * n == 2 * n + (q - 2) * n;
    } else if q <= -1 {
      assert q * n == -n + (q + 1) * n;
    }
  }

  /** Relaxing a constraint keeps every valid grid valid (the work
      percentage only when nobody's is negative, since a negative target
      has no 95%-105% band). */
  lemma RelaxKeepsValid(x: Grid, emps: seq<Employee>, days: seq<string>, shifts: seq<Shift>, opts: CpOptions)
    requires Valid(x, emps, days, shifts, opts)
    ensures Valid(x, emps, days, shifts, opts.(relaxCoverage := true))
    ensures Valid(x, emps, days, shifts, opts.(relaxAvailability := true))
    ensures Valid(x, emps, days, shifts, opts.(restConstraint := false))
    ensures Valid(x, emps, days, shifts, opts.(seniority := false))
    ensures (forall e :: 0 <= e < |emps| ==> WorkPercentage(emps[e]) >= 0) ==>
      Valid(x, emps, days, shifts, opts.(relaxWorkPercentage := true))
  {
    if forall e :: 0 <= e < |emps| ==> WorkPercentage(emps[e]) >= 0 {
      var total := TotalHours(days, shifts);
      forall e | 0 <= e < |emps|
        ensures HoursWithin(Hours(x, e, shifts, |days|), TargetHours(emps[e], total), true)
      {
        TargetHoursBounds(emps[e], total);
      }
    }
  }

  /** Without employees there is no valid grid as soon as some shift needs
      staff on some day and coverage is enforced. */
  lemma EmptyRosterInfeasible(x: Grid, days: seq<string>, shifts: seq<Shift>, opts: CpOptions, d: int, s: int)
    requires !opts.relaxCoverage && 0 <= d < |days| && 0 <= s < |shifts| && MinStaff(shifts[s]) >= 1
    ensures !Valid(x, [], days, shifts, opts)
  {
    assert Count(x, [], d, s, Anyone, 0) == 0;
  }
}
