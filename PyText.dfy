/** The bits of Python's text formatting the tools rely on: `str()` of an
    integer (used in the partial-schedule messages) and `json.dumps` with
    `indent=2` (used to show the example schema in the legacy prompt). */
module PyText {
  import opened Schema

  /** The decimal digit for `d`. */
  function DigitChar(d: int): char
    requires 0 <= d < 10
  {
    "0123456789"[d]
  }

  predicate IsDigit(c: char) {
    '0' <= c <= '9'
  }

  /** The value of a decimal digit; the inverse of `DigitChar`. */
  function DigitValue(c: char): (d: nat)
    requires IsDigit(c)
    ensures d < 10 && DigitChar(d) == c
  {
    c as int - '0' as int
  }

  /** `str(n)` for a natural number: its decimal digits, most significant
      first, no leading zero. */
  function NatToString(n: nat): (r: string)
    ensures r != []
    ensures forall k :: 0 <= k < |r| ==> IsDigit(r[k])
    ensures |r| > 1 ==> r[0] != '0'
  {
    if n < 10 then [DigitChar(n)] else NatToString(n / 10) + [DigitChar(n % 10)]
  }

  /** `str(i)`: a minus sign before the digits of a negative number. */
  function IntToString(i: int): (r: string)
    ensures r != []
    ensures r[0] == '-' <==> i < 0
    ensures i < 0 ==> r[1..] == NatToString(-i)
    ensures 0 <= i ==> r == NatToString(i)
  {
    if i < 0 then "-" + NatToString(-i) else NatToString(i)
  }

  /** The value of a string of decimal digits (the reading back that
      `int()` does). */
  function ParseNat(s: string): nat
    requires forall k :: 0 <= k < |s| ==> IsDigit(s[k])
  {
    if s == [] then 0 else ParseNat(s[..|s| - 1]) * 10 + DigitValue(s[|s| - 1])
  }

  /** `int(str(n)) == n` */
  lemma {:induction false} NatToStringRoundTrip(n: nat)
    ensures ParseNat(NatToString(n)) == n
  {
    var r := NatToString(n);
    if n >= 10 {
      NatToStringRoundTrip(n / 10);
      assert r[..|r| - 1] == NatToString(n / 10);
    }
  }

  /** Different numbers are written differently. */
  lemma IntToStringInjective(i: int, j: int)
    requires IntToString(i) == IntToString(j)
    ensures i == j
  {
    var r := IntToString(i);
    var m, n := if i < 0 then -i else i, if j < 0 then -j else j;
    assert NatToString(m) == NatToString(n) by {
      if i < 0 {
        assert j < 0 && NatToString(m) == r[1..] == NatToString(n);
      } else {
        assert 0 <= j;
      }
    }
    NatToStringRoundTrip(m);
    NatToStringRoundTrip(n);
  }

  /** A JSON string literal as `json.dumps` writes it: quote, backslash and
      the common control characters are escaped. */
  function Escape(s: string): (r: string)
    ensures |s| <= |r| <= 2 * |s|
  {
    if s == [] then []
    else EscapeChar(s[0]) + Escape(s[1..])
  }

  function EscapeChar(c: char): string {
    match c
    case '"' => "\\\""
    case '\\' => "\\\\"
    case '\n' => "\\n"
    case '\r' => "\\r"
    case '\t' => "\\t"
    case _ => [c]
  }

  /** How a JSON reader undoes `Escape`. */
  function Unescape(r: string): string
  {
    if r == [] then []
    else if r[0] == '\\' && |r| >= 2 then UnescapeChar(r[1]) + Unescape(r[2..])
    else [r[0]] + Unescape(r[1..])
  }

  function UnescapeChar(c: char): string {
    match c
    case 'n' => "\n"
    case 'r' => "\r"
    case 't' => "\t"
    case _ => [c]
  }

  /** Reading back one escaped character. */
  lemma EscapeCharRead(c: char, rest: string)
    ensures Unescape(EscapeChar(c) + rest) == [c] + Unescape(rest)
  {
    var r := EscapeChar(c) + rest;
    if c in "\"\\\n\r\t" {
      assert r[0] == '\\' && UnescapeChar(r[1]) == [c] && r[2..] == rest;
    } else {
      assert r[0] == c && r[1..] == rest;
    }
  }

  /** Reading an escaped string gives the original string back. */
  lemma {:induction false} EscapeRoundTrip(s: string)
    ensures Unescape(Escape(s)) == s
  {
    if s != [] {
      EscapeRoundTrip(s[1..]);
      EscapeCharRead(s[0], Escape(s[1..]));
    }
  }

  /** `n` blanks. */
  function Spaces(n: nat): (r: string)
    ensures |r| == n && forall k :: 0 <= k < n ==> r[k] == ' '
  {
    if n == 0 then [] else Spaces(n - 1) + " "
  }

  /** `json.dumps(v, indent=2)` for a value nested `level` deep: scalars on
      one line; a non-empty list or object opens a line per item, indented
      two more blanks, items separated by `,` and the closing bracket back
      at the current indentation; empty ones are `[]` and `{}`. */
  function Dumps(v: Json, level: nat): string
    decreases v
  {
    match v
    case JNull => "null"
    case JBool(b) => if b then "true" else "false"
    case JInt(i) => IntToString(i)
    case JStr(s) => "\"" + Escape(s) + "\""
    case JList(items) =>
      if items == [] then "[]"
      else "[\n" + Lines(seq(|items|, k requires 0 <= k < |items| =>
                    Spaces(2 * (level + 1)) + Dumps(items[k], level + 1)))
           + "\n" + Spaces(2 * level) + "]"
    case JObject(fields) =>
      if fields == [] then "{}"
      else "{\n" + Lines(seq(|fields|, k requires 0 <= k < |fields| =>
                    Spaces(2 * (level + 1)) + "\"" + Escape(fields[k].0) + "\": "
                    + Dumps(fields[k].1, level + 1)))
           + "\n" + Spaces(2 * level) + "}"
  }

  /** The items joined by `,` and a line break. */
  function Lines(items: seq<string>): string {
    if items == [] then []
    else if |items| == 1 then items[0]
    else items[0] + ",\n" + Lines(items[1..])
  }
}
