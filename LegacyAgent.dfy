/** The first-generation scheduling agent, kept in the repository for
    reference: its own stricter `validate_schema`, which judges the four
    mandatory keys by Python truthiness, and `build_schema_prompt`, which
    puts together the system prompt for creating or editing a schema. */
module LegacyAgent {
  import opened Schema
  import ToolsValidation
  import PyText

  /** `schema_data.get(key)` is truthy: the key is there and its value is
      not null, false, zero or empty. */
  predicate Present(v: Option<Json>) {
    v.Some? && Truthy(v.value)
  }

  /** The list under a key is there and not empty. */
  predicate NonEmpty<T>(v: Option<seq<T>>) {
    v.Some? && v.value != []
  }

  /** The legacy check: one warning per mandatory key that is missing or
      falsy, in the order company name, opening hours, employees, shift
      structure; the employees themselves are not inspected. */
  function ValidateSchema(s: Schema): (w: seq<string>)
    ensures |w| <= 4
    ensures ToolsValidation.MissingCompanyName in w <==> !Present(s.companyName)
    ensures ToolsValidation.MissingOpeningHours in w <==> !Present(s.openingHours)
    ensures ToolsValidation.MissingEmployees in w <==> !NonEmpty(s.employees)
    ensures ToolsValidation.MissingShiftStructure in w <==> !NonEmpty(s.shiftStructure)
  {
    (if !Present(s.companyName) then [ToolsValidation.MissingCompanyName] else [])
    + (if !Present(s.openingHours) then [ToolsValidation.MissingOpeningHours] else [])
    + (if !NonEmpty(s.employees) then [ToolsValidation.MissingEmployees] else [])
    + (if !NonEmpty(s.shiftStructure) then [ToolsValidation.MissingShiftStructure] else [])
  }

  /** The warnings keep the fixed order of the keys. */
  lemma ValidateSchemaOrder(s: Schema)
    ensures forall i, j :: 0 <= i < j < |ValidateSchema(s)| ==>
      ToolsValidation.KeyRank(ValidateSchema(s)[i]) < ToolsValidation.KeyRank(ValidateSchema(s)[j])
    ensures forall i :: 0 <= i < |ValidateSchema(s)| ==> ToolsValidation.KeyRank(ValidateSchema(s)[i]) < 4
  {
    ToolsValidation.KeyRanks();
  }

  /** The legacy check is the stricter of the two on the keys: every key
      warning of the tools' check is also a legacy warning, and the two
      agree on the keys whenever the values present are truthy and the
      shift structure is not empty. */
  lemma {:induction false} LegacyStricter(s: Schema)
    ensures forall m :: m in ToolsValidation.KeyWarnings(s) ==> m in ValidateSchema(s)
    ensures (s.companyName.Some? ==> Truthy(s.companyName.value))
         && (s.openingHours.Some? ==> Truthy(s.openingHours.value))
         && (s.shiftStructure.Some? ==> s.shiftStructure.value != [])
        ==> ValidateSchema(s) == ToolsValidation.KeyWarnings(s)
  {
    ToolsValidation.KeyWarningsPresent(s);
    ToolsValidation.KeyWarningsOrder(s);
  }

  /** The same opening hours, 11:00 to 23:00, for every day. */
  function DailyHours(days: seq<string>): (r: seq<(string, Json)>)
    ensures |r| == |days|
    ensures forall k :: 0 <= k < |days| ==> r[k].0 == days[k]
  {
    if days == [] then []
    else [(days[0], JObject([("open", JStr("11:00")), ("close", JStr("23:00"))]))] + DailyHours(days[1..])
  }

  /** The days as JSON strings. */
  function DayNames(days: seq<string>): (r: seq<Json>)
    ensures |r| == |days|
    ensures forall k :: 0 <= k < |days| ==> r[k] == JStr(days[k])
  {
    if days == [] then [] else [JStr(days[0])] + DayNames(days[1..])
  }

  /** The example schema shown to the model: one pizza place open 11:00 to
      23:00 every day of the week, a day and a night shift, one employee. */
  const ExampleSchema: Json :=
    JObject([
      ("company_name", JStr("Example Pizza")),
      ("opening_hours", JObject(DailyHours(DefaultDays))),
      ("shift_structure", JList([
         JObject([("name", JStr("Day")), ("hours", JInt(8))]),
         JObject([("name", JStr("Night")), ("hours", JInt(6))])])),
      ("employees", JList([
         JObject([
           ("name", JStr("Alice")),
           ("employment_type", JStr("full-time")),
           ("work_percentage", JInt(100)),
           ("roles_primary", JList([JStr("Baker")])),
           ("availability", JObject([
              ("unavailable_days", JList([])),
              ("unavailable_times", JList([]))]))])])),
      ("days", JList(DayNames(DefaultDays)))])

  const PromptHead: string :=
    "\nYou are a scheduling assistant.\n\n**Output format**\n" +
    "Return ONE valid JSON object \U{2013} no markdown fences, no commentary.\n\n" +
    "**Schema prototype**\n"

  const PromptTail: string :=
    "\n\n**Mandatory keys**\n" +
    "- company_name\n" +
    "- opening_hours  (dict of 7 days \U{2192} {open, close})\n" +
    "- shift_structure (list of {name, hours})\n" +
    "- employees      (list)\n" +
    "- days           (list of weekdays)\n"

  /** The shared part of the prompt: output format, the example schema as
      indented JSON, and the mandatory keys. */
  const BaseSchemaMsg: string := PromptHead + PyText.Dumps(ExampleSchema, 0) + PromptTail

  const InitTask: string :=
    "\nTask: Using ONLY the user\U{2019}s natural\U{2011}language description, " +
    "produce a complete schema that matches the prototype above."

  const EditTask: string :=
    "\nTask: You are given the current schema and a user request. " +
    "Update only the fields the user mentions; keep everything " +
    "else unchanged, then output the FULL updated object."

  const BadTask: string := "task must be 'init' or 'edit'"

  /** A prompt, or the `ValueError` raised for an unknown task. */
  datatype PromptResult = Prompt(text: string) | ValueError(msg: string)

  /** The system prompt for `task`: the shared part followed by the
      instructions for `task`, which must be `init` or `edit`. */
  function BuildSchemaPrompt(task: string): (r: PromptResult)
    ensures r.Prompt? <==> task == "init" || task == "edit"
    ensures r.Prompt? ==> BaseSchemaMsg <= r.text
    ensures task == "init" ==> r.Prompt? && r.text[|BaseSchemaMsg|..] == InitTask
    ensures task == "edit" ==> r.Prompt? && r.text[|BaseSchemaMsg|..] == EditTask
    ensures r.ValueError? ==> r.msg == BadTask
  {
    if task == "init" then Prompt(BaseSchemaMsg + InitTask)
    else if task == "edit" then Prompt(BaseSchemaMsg + EditTask)
    else ValueError(BadTask)
  }

  /** Creating and editing get different prompts. */
  lemma {:induction false} PromptsDiffer()
    ensures BuildSchemaPrompt("init").text != BuildSchemaPrompt("edit").text
  {
    var n := |BaseSchemaMsg|;
    var a, b := BuildSchemaPrompt("init"), BuildSchemaPrompt("edit");
    assert |InitTask| != |EditTask|;
    assert a.text[n..] != b.text[n..];
  }
}
