/** Narrowing the roster before scheduling: `_filter_employees`, which the
    unified entry point applies first, and the two partial-schedule tools,
    which only report the employees a threshold selects. */
module EmployeeFilter {
  import opened Schema
  import PyText

  /** A list comprehension `[e for e in emps if keep(e)]`. */
  function Select(emps: seq<Employee>, keep: Employee -> bool): (r: seq<Employee>)
    ensures |r| <= |emps|
    ensures forall e :: e in r <==> e in emps && keep(e)
  {
    if emps == [] then []
    else (if keep(emps[0]) then [emps[0]] else []) + Select(emps[1..], keep)
  }

  /** The employees kept from a concatenation are those kept from each part,
      in the same order: the comprehension keeps the roster's order. */
  lemma {:induction false} SelectAppend(a: seq<Employee>, b: seq<Employee>, keep: Employee -> bool)
    ensures Select(a + b, keep) == Select(a, keep) + Select(b, keep)
  {
    if a != [] {
      SelectAppend(a[1..], b, keep);
      var head := if keep(a[0]) then [a[0]] else [];
      assert (a + b)[0] == a[0] && (a + b)[1..] == a[1..] + b;
      calc {
        Select(a + b, keep);
        head + Select(a[1..] + b, keep);
        head + (Select(a[1..], keep) + Select(b, keep));
        (head + Select(a[1..], keep)) + Select(b, keep);
        Select(a, keep) + Select(b, keep);
      }
    } else {
      assert a + b == b;
    }
  }

  /** Keeping by one test and then by another keeps exactly the employees
      that pass both, in roster order. */
  lemma {:induction false} SelectTwice(emps: seq<Employee>, p: Employee -> bool, q: Employee -> bool, both: Employee -> bool)
    requires forall e :: both(e) <==> p(e) && q(e)
    ensures Select(Select(emps, p), q) == Select(emps, both)
  {
    if emps != [] {
      SelectTwice(emps[1..], p, q, both);
      var e := emps[0];
      var rest := Select(emps[1..], p);
      if p(e) {
        assert Select(emps, p) == [e] + rest;
        assert ([e] + rest)[0] == e && ([e] + rest)[1..] == rest;
      } else {
        assert Select(emps, p) == rest;
      }
    }
  }

  /** Keeping twice by the same test changes nothing the second time. */
  lemma {:induction false} SelectIdempotent(emps: seq<Employee>, keep: Employee -> bool)
    ensures Select(Select(emps, keep), keep) == Select(emps, keep)
  {
    if emps != [] {
      SelectIdempotent(emps[1..], keep);
      var rest := Select(emps[1..], keep);
      if keep(emps[0]) {
        assert Select(emps, keep) == [emps[0]] + rest;
        assert ([emps[0]] + rest)[0] == emps[0] && ([emps[0]] + rest)[1..] == rest;
      } else {
        assert Select(emps, keep) == rest;
      }
    }
  }

  /** `e.get("work_percentage", 100) > threshold` */
  predicate AboveWorkPercentage(threshold: int, e: Employee) {
    WorkPercentage(e) > threshold
  }

  /** `e.get("experience_years", 0) > threshold` */
  predicate AboveExperience(threshold: int, e: Employee) {
    ExperienceYears(e) > threshold
  }

  /** The employees left by the optional thresholds, work percentage first,
      experience second; a missing threshold keeps everyone. */
  function FilterEmployees(emps: seq<Employee>, wp: Option<int>, exp: Option<int>): seq<Employee> {
    var afterWp := if wp.Some? then Select(emps, e => AboveWorkPercentage(wp.value, e)) else emps;
    if exp.Some? then Select(afterWp, e => AboveExperience(exp.value, e)) else afterWp
  }

  /** An employee stays exactly when it is on the roster and passes every
      threshold that is given. */
  lemma FilterEmployeesMembers(emps: seq<Employee>, wp: Option<int>, exp: Option<int>)
    ensures forall e :: e in FilterEmployees(emps, wp, exp) <==>
      && e in emps
      && (wp.Some? ==> WorkPercentage(e) > wp.value)
      && (exp.Some? ==> ExperienceYears(e) > exp.value)
  {
  }

  /** An employee passes every threshold that is given. */
  predicate PassesThresholds(wp: Option<int>, exp: Option<int>, e: Employee) {
    && (wp.Some? ==> AboveWorkPercentage(wp.value, e))
    && (exp.Some? ==> AboveExperience(exp.value, e))
  }

  /** The two comprehensions one after the other keep the same employees, in
      the same order, as one comprehension testing both thresholds. */
  lemma FilterEmployeesAsOne(emps: seq<Employee>, wp: Option<int>, exp: Option<int>)
    ensures FilterEmployees(emps, wp, exp) == Select(emps, e => PassesThresholds(wp, exp, e))
  {
    var both := e => PassesThresholds(wp, exp, e);
    if wp.Some? && exp.Some? {
      SelectTwice(emps, e => AboveWorkPercentage(wp.value, e), e => AboveExperience(exp.value, e), both);
    } else if wp.Some? {
      SelectSame(emps, e => AboveWorkPercentage(wp.value, e), both);
    } else if exp.Some? {
      SelectSame(emps, e => AboveExperience(exp.value, e), both);
    } else {
      SelectAll(emps, both);
    }
  }

  /** Two tests that agree on everyone keep the same employees. */
  lemma {:induction false} SelectSame(emps: seq<Employee>, p: Employee -> bool, q: Employee -> bool)
    requires forall e :: p(e) == q(e)
    ensures Select(emps, p) == Select(emps, q)
  {
    if emps != [] {
      SelectSame(emps[1..], p, q);
    }
  }

  /** A test everyone passes keeps the whole roster. */
  lemma {:induction false} SelectAll(emps: seq<Employee>, keep: Employee -> bool)
    requires forall e :: keep(e)
    ensures Select(emps, keep) == emps
  {
    if emps != [] {
      SelectAll(emps[1..], keep);
    }
  }

  /** The order of the two thresholds does not matter. */
  lemma FilterEmployeesCommute(emps: seq<Employee>, wp: int, exp: int)
    ensures FilterEmployees(emps, Some(wp), Some(exp))
         == FilterEmployees(FilterEmployees(emps, None, Some(exp)), Some(wp), None)
  {
    var p, q := e => AboveWorkPercentage(wp, e), e => AboveExperience(exp, e);
    var both := e => PassesThresholds(Some(wp), Some(exp), e);
    FilterEmployeesAsOne(emps, Some(wp), Some(exp));
    SelectTwice(emps, q, p, both);
  }

  /** Filtering a filtered roster again by the same thresholds changes
      nothing. */
  lemma FilterEmployeesIdempotent(emps: seq<Employee>, wp: Option<int>, exp: Option<int>)
    ensures FilterEmployees(FilterEmployees(emps, wp, exp), wp, exp) == FilterEmployees(emps, wp, exp)
  {
    var both := e => PassesThresholds(wp, exp, e);
    FilterEmployeesAsOne(emps, wp, exp);
    FilterEmployeesAsOne(FilterEmployees(emps, wp, exp), wp, exp);
    SelectIdempotent(emps, both);
  }

  /** The copy of the schema the schedulers get: the same keys, with
      `employees` replaced by the filtered list (present even when the
      original schema had none). */
  function FilterSchema(s: Schema, wp: Option<int>, exp: Option<int>): (r: Schema)
    ensures r.employees == Some(FilterEmployees(s.employees.GetOr([]), wp, exp))
    ensures r.companyName == s.companyName && r.openingHours == s.openingHours
    ensures r.shiftStructure == s.shiftStructure && r.days == s.days
  {
    s.(employees := Some(FilterEmployees(s.employees.GetOr([]), wp, exp)))
  }

  /** Without thresholds the copy holds the same employees. */
  lemma FilterSchemaNoThreshold(s: Schema)
    ensures FilterSchema(s, None, None).employees == Some(s.employees.GetOr([]))
  {
  }

  /** What a partial-schedule tool reports: a status, a message and the
      employees it picked. */
  datatype PartialResult = PartialResult(status: string, message: string, selectedEmployees: seq<Employee>)

  /** `build_partial_schedule_high_percentage`: the employees working more
      than `threshold` percent (50 unless given). */
  function PartialScheduleHighPercentage(s: Schema, threshold: int := 50): (r: PartialResult)
    ensures r.status == "success"
    ensures r.message == "Partial schedule created for employees with > " + PyText.IntToString(threshold) + "% work."
    ensures forall e :: e in r.selectedEmployees <==> e in s.employees.GetOr([]) && WorkPercentage(e) > threshold
  {
    PartialResult(
      "success",
      "Partial schedule created for employees with > " + PyText.IntToString(threshold) + "% work.",
      Select(s.employees.GetOr([]), e => AboveWorkPercentage(threshold, e)))
  }

  /** `build_partial_schedule_experience_threshold`: the employees with more
      than `threshold` years of experience (1 unless given). */
  function PartialScheduleExperienceThreshold(s: Schema, threshold: int := 1): (r: PartialResult)
    ensures r.status == "success"
    ensures r.message == "Partial schedule created for employees with > " + PyText.IntToString(threshold) + " years experience."
    ensures forall e :: e in r.selectedEmployees <==> e in s.employees.GetOr([]) && ExperienceYears(e) > threshold
  {
    PartialResult(
      "success",
      "Partial schedule created for employees with > " + PyText.IntToString(threshold) + " years experience.",
      Select(s.employees.GetOr([]), e => AboveExperience(threshold, e)))
  }

  /** The partial tools pick the same employees, in the same order, as the
      entry point's filter with only that threshold. */
  lemma PartialMatchesFilter(s: Schema, t: int)
    ensures PartialScheduleHighPercentage(s, t).selectedEmployees
         == FilterSchema(s, Some(t), None).employees.value
    ensures PartialScheduleExperienceThreshold(s, t).selectedEmployees
         == FilterSchema(s, None, Some(t)).employees.value
  {
  }

  /** Different thresholds give different messages, so the message tells
      which threshold was applied. */
  lemma PartialMessageNamesThreshold(s: Schema, t: int, u: int)
    requires PartialScheduleHighPercentage(s, t).message == PartialScheduleHighPercentage(s, u).message
    ensures t == u
  {
    var head := "Partial schedule created for employees with > ";
    var m, n := PyText.IntToString(t), PyText.IntToString(u);
    assert head + m + "% work." == head + n + "% work.";
    assert m == n by {
      assert (head + m + "% work.")[|head|..|head| + |m|] == m;
      assert |head + m + "% work."| == |head + n + "% work."|;
      assert (head + n + "% work.")[|head|..|head| + |n|] == n;
    }
    PyText.IntToStringInjective(t, u);
  }
}
