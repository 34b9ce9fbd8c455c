/** The data shared by the scheduling tools: the schema a business describes
    itself with (company, opening hours, shifts, employees, days) and the
    values the schedulers hand back.  Python dictionaries with optional keys
    become records whose optional fields are `Option`s. */
module Schema {

  datatype Option<+T> = None | Some(value: T) {
    /** `dict.get(key, default)` */
    function GetOr(default: T): T {
      if Some? then value else default
    }
  }

  /** A decoded JSON value, as far as Python truthiness needs it
      (floating-point numbers are not modelled). */
  datatype Json =
    | JNull
    | JBool(b: bool)
    | JInt(i: int)
    | JStr(s: string)
    | JList(items: seq<Json>)
    | JObject(fields: seq<(string, Json)>)

  /** Python's `bool(v)`: null, false, 0, "" and empty containers are falsy. */
  predicate Truthy(v: Json) {
    match v
    case JNull => false
    case JBool(b) => b
    case JInt(i) => i != 0
    case JStr(s) => s != ""
    case JList(items) => items != []
    case JObject(fields) => fields != []
  }

  /** One entry of `shift_structure`; `required_roles` keeps the dictionary's
      iteration order as a sequence of (role, minimum headcount) pairs. */
  datatype Shift = Shift(
    name: string,
    hours: nat,
    minStaff: Option<int>,
    requiredRoles: seq<(string, int)>)

  /** One entry of `employees`.  `senior` is the truth value of the optional
      `senior` flag (absent reads as false); the two availability lists are
      `availability.unavailable_days` and `availability.unavailable_times`. */
  datatype Employee = Employee(
    name: Option<string>,
    employmentType: Option<string>,
    workPercentage: Option<int>,
    experienceYears: Option<int>,
    senior: bool,
    rolesPrimary: seq<string>,
    unavailableDays: seq<string>,
    unavailableTimes: seq<string>)

  /** The top-level keys the tools read; `None` is a missing key. */
  datatype Schema = Schema(
    companyName: Option<Json>,
    openingHours: Option<Json>,
    employees: Option<seq<Employee>>,
    shiftStructure: Option<seq<Shift>>,
    days: Option<seq<string>>)

  const DefaultDays: seq<string> :=
    ["Monday", "Tuesday", "Wednesday", "Thursday", "Friday", "Saturday", "Sunday"]

  /** `schema.get("days", <the full week>)` */
  function DaysOf(s: Schema): seq<string> {
    s.days.GetOr(DefaultDays)
  }

  /** `e.get("work_percentage", 100)` */
  function WorkPercentage(e: Employee): int {
    e.workPercentage.GetOr(100)
  }

  /** `e.get("experience_years", 0)` */
  function ExperienceYears(e: Employee): int {
    e.experienceYears.GetOr(0)
  }

  /** `shift.get("min_staff", 1)` */
  function MinStaff(sh: Shift): int {
    sh.minStaff.GetOr(1)
  }

  /** Sum of the hours of one day's shifts. */
  function SumHours(shifts: seq<Shift>): nat {
    if shifts == [] then 0 else SumHours(shifts[..|shifts| - 1]) + shifts[|shifts| - 1].hours
  }

  /** Hours the whole horizon asks for: every shift on every day. */
  function TotalHours(days: seq<string>, shifts: seq<Shift>): nat {
    |days| * SumHours(shifts)
  }

  /** One element of a day's list in a schedule: `{"shift": ..., "employee": ...}`,
      the employee being `None` for an unstaffed slot. */
  datatype Entry = Entry(shift: string, employee: Option<string>)

  /** What a scheduler returns: a day → entries dictionary, or `{"error": ...}`. */
  datatype Output = Schedule(byDay: map<string, seq<Entry>>) | ErrorDict(error: string)

  /** A return value, or the `KeyError` raised by a missing mandatory key. */
  datatype Outcome = Returned(output: Output) | KeyError(key: string)

  /** `schedule[day]` of a `defaultdict(list)`: empty when the day has no key. */
  function Lookup(sched: map<string, seq<Entry>>, day: string): seq<Entry> {
    if day in sched then sched[day] else []
  }

  /** Appending `es` one by one to `schedule[day]` of a `defaultdict(list)`:
      the day gets a key only once something is appended to it. */
  function AddEntries(sched: map<string, seq<Entry>>, day: string, es: seq<Entry>): (r: map<string, seq<Entry>>)
    ensures forall d :: d in r <==> d in sched || (d == day && es != [])
  {
    if es == [] then sched else sched[day := Lookup(sched, day) + es]
  }

  /** After the appends the day's list ends with `es`, and the other days'
      lists are untouched. */
  lemma AddEntriesLookup(sched: map<string, seq<Entry>>, day: string, es: seq<Entry>, d: string)
    ensures Lookup(AddEntries(sched, day, es), d) == if d == day then Lookup(sched, day) + es else Lookup(sched, d)
  {
  }

  /** Appending in two batches is appending once. */
  lemma AddEntriesTwice(sched: map<string, seq<Entry>>, day: string, a: seq<Entry>, b: seq<Entry>)
    ensures AddEntries(AddEntries(sched, day, a), day, b) == AddEntries(sched, day, a + b)
  {
    var l := AddEntries(AddEntries(sched, day, a), day, b);
    var r := AddEntries(sched, day, a + b);
    assert Lookup(sched, day) + a + b == Lookup(sched, day) + (a + b);
    assert l.Keys == r.Keys;
    forall d | d in l ensures l[d] == r[d] {
      assert Lookup(l, d) == Lookup(r, d);
    }
  }
}
