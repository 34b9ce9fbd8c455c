/** `validate_schema` of the tools module: a light sanity check that lists
    human-readable warnings, empty when the schema is ready to schedule.
    The top-level keys are checked for presence only (the employee list
    must also be non-empty), then every employee for a name and an
    employment type. */
module ToolsValidation {
  import opened Schema

  const MissingCompanyName: string := "Missing company_name."
  const MissingOpeningHours: string := "Missing opening_hours."
  const MissingEmployees: string := "Missing or empty employees list."
  const MissingShiftStructure: string := "Missing shift_structure."
  const EmployeeMissingName: string := "One employee missing name."

  /** The warning for an employee without `employment_type`, naming it by
      its `name` or, without one, as `Unknown`. */
  function MissingEmploymentType(e: Employee): string {
    "Employee " + e.name.GetOr("Unknown") + " missing employment_type."
  }

  /** The warnings about the top-level keys, in their fixed order. */
  function KeyWarnings(s: Schema): seq<string> {
    (if s.companyName.None? then [MissingCompanyName] else [])
    + (if s.openingHours.None? then [MissingOpeningHours] else [])
    + (if s.employees.None? || s.employees.value == [] then [MissingEmployees] else [])
    + (if s.shiftStructure.None? then [MissingShiftStructure] else [])
  }

  /** The warnings about one employee. */
  function EmployeeWarnings(e: Employee): seq<string> {
    (if e.name.None? then [EmployeeMissingName] else [])
    + (if e.employmentType.None? then [MissingEmploymentType(e)] else [])
  }

  /** The warnings about the employees, one after the other. */
  function AllEmployeeWarnings(emps: seq<Employee>): seq<string> {
    if emps == [] then []
    else AllEmployeeWarnings(emps[..|emps| - 1]) + EmployeeWarnings(emps[|emps| - 1])
  }

  /** Everything `validate_schema` reports, in order. */
  function Warnings(s: Schema): seq<string> {
    KeyWarnings(s) + AllEmployeeWarnings(s.employees.GetOr([]))
  }

  /** Every employee has a name and an employment type. */
  predicate EmployeesComplete(emps: seq<Employee>) {
    forall k :: 0 <= k < |emps| ==> emps[k].name.Some? && emps[k].employmentType.Some?
  }

  /** What a schema without warnings looks like. */
  predicate Complete(s: Schema) {
    && s.companyName.Some?
    && s.openingHours.Some?
    && s.employees.Some? && s.employees.value != []
    && s.shiftStructure.Some?
    && EmployeesComplete(s.employees.value)
  }

  /** Position of a key warning in the fixed order. */
  function KeyRank(w: string): int {
    if w == MissingCompanyName then 0
    else if w == MissingOpeningHours then 1
    else if w == MissingEmployees then 2
    else if w == MissingShiftStructure then 3
    else 4
  }

  /** The four key warnings are told apart by their ranks. */
  lemma KeyRanks()
    ensures KeyRank(MissingCompanyName) == 0 && KeyRank(MissingOpeningHours) == 1
    ensures KeyRank(MissingEmployees) == 2 && KeyRank(MissingShiftStructure) == 3
  {
    assert |MissingCompanyName| == 21 && |MissingOpeningHours| == 22;
    assert |MissingEmployees| == 32 && |MissingShiftStructure| == 24;
  }

  /** The employees give no warning exactly when each has a name and an
      employment type. */
  lemma {:induction false} AllEmployeeWarningsEmpty(emps: seq<Employee>)
    ensures AllEmployeeWarnings(emps) == [] <==> EmployeesComplete(emps)
  {
    if emps != [] {
      var front := emps[..|emps| - 1];
      AllEmployeeWarningsEmpty(front);
      if EmployeesComplete(emps) {
        assert EmployeesComplete(front) by {
          forall k | 0 <= k < |front| ensures front[k].name.Some? && front[k].employmentType.Some? {
            assert front[k] == emps[k];
          }
        }
      }
      if EmployeesComplete(front) && EmployeeWarnings(emps[|emps| - 1]) == [] {
        forall k | 0 <= k < |emps| ensures emps[k].name.Some? && emps[k].employmentType.Some? {
          if k < |front| {
            assert front[k] == emps[k];
          }
        }
      }
    }
  }

  /** No warning at all exactly when the schema is complete. */
  lemma WarningsEmpty(s: Schema)
    ensures Warnings(s) == [] <==> Complete(s)
  {
    AllEmployeeWarningsEmpty(s.employees.GetOr([]));
  }

  /** At most one warning per key, in the order company name, opening
      hours, employees, shift structure. */
  lemma KeyWarningsOrder(s: Schema)
    ensures |KeyWarnings(s)| <= 4
    ensures forall i, j :: 0 <= i < j < |KeyWarnings(s)| ==> KeyRank(KeyWarnings(s)[i]) < KeyRank(KeyWarnings(s)[j])
    ensures forall i :: 0 <= i < |KeyWarnings(s)| ==> KeyRank(KeyWarnings(s)[i]) < 4
  {
    KeyRanks();
  }

  /** Each key warning appears exactly when its key is missing (or, for the
      employees, when the list is empty). */
  lemma KeyWarningsPresent(s: Schema)
    ensures MissingCompanyName in KeyWarnings(s) <==> s.companyName.None?
    ensures MissingOpeningHours in KeyWarnings(s) <==> s.openingHours.None?
    ensures MissingEmployees in KeyWarnings(s) <==> s.employees.None? || s.employees.value == []
    ensures MissingShiftStructure in KeyWarnings(s) <==> s.shiftStructure.None?
  {
  }

  /** The key warnings come before any warning about an employee. */
  lemma KeyWarningsFirst(s: Schema)
    ensures Warnings(s)[..|KeyWarnings(s)|] == KeyWarnings(s)
  {
  }

  /** One more employee appends its warnings to those of the ones before. */
  lemma AppendEmployee(keys: seq<string>, emps: seq<Employee>, k: int, before: seq<string>, after: seq<string>)
    requires 0 <= k < |emps|
    requires before == keys + AllEmployeeWarnings(emps[..k])
    requires after == before + EmployeeWarnings(emps[k])
    ensures after == keys + AllEmployeeWarnings(emps[..k + 1])
  {
    assert emps[..k + 1][..k] == emps[..k];
  }

  /** The check reads the schema and returns a fresh list: the loop over the
      employees appends their warnings after the key warnings. */
  method ValidateSchema(s: Schema) returns (w: seq<string>)
    ensures w == Warnings(s)
    ensures w == [] <==> Complete(s)
  {
    w := [];
    if s.companyName.None? {
      w := w + [MissingCompanyName];
    }
    if s.openingHours.None? {
      w := w + [MissingOpeningHours];
    }
    if s.employees.None? || s.employees.value == [] {
      w := w + [MissingEmployees];
    }
    if s.shiftStructure.None? {
      w := w + [MissingShiftStructure];
    }
    assert w == KeyWarnings(s);
    var emps := s.employees.GetOr([]);
    for k := 0 to |emps|
      invariant w == KeyWarnings(s) + AllEmployeeWarnings(emps[..k])
    {
      ghost var before := w;
      if emps[k].name.None? {
        w := w + [EmployeeMissingName];
      }
      if emps[k].employmentType.None? {
        w := w + [MissingEmploymentType(emps[k])];
      }
      AppendEmployee(KeyWarnings(s), emps, k, before, w);
    }
    assert emps[..|emps|] == emps;
    WarningsEmpty(s);
  }
}
