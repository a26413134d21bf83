/** JSON (RFC 8259): syntax trees, the pretty and the compact printer, and the
    parser. Text is a sequence of Unicode scalar values. */
module Json {
  import opened Common
  import Decimal
  import Hex

  // ---------------------------------------------------------------- numbers

  predicate IsNumberChar(c: char) {
    Decimal.IsDigit(c) || c == '+' || c == '-' || c == '.' || c == 'e' || c == 'E'
  }

  predicate AllNumberChars(s: string) {
    forall i | 0 <= i < |s| :: IsNumberChar(s[i])
  }

  /** The literals of natural numbers: no sign and no leading zero. */
  predicate IsNatural(s: string) {
    s == "0" || (s != "" && '1' <= s[0] && Decimal.AllDigits(s))
  }

  function SkipDigits(s: string): (r: string)
    ensures |r| <= |s|
  {
    if s != "" && Decimal.IsDigit(s[0]) then SkipDigits(s[1..]) else s
  }

  predicate IsExponent(s: string) {
    s == "" ||
    ((s[0] == 'e' || s[0] == 'E') &&
     var digits := if |s| > 1 && (s[1] == '+' || s[1] == '-') then s[2..] else s[1..];
     digits != "" && Decimal.AllDigits(digits))
  }

  predicate IsFraction(s: string) {
    if s != "" && s[0] == '.' then
      var r := SkipDigits(s[1..]);
      |r| < |s| - 1 && IsExponent(r)
    else IsExponent(s)
  }

  /** Section 6 of RFC 8259. */
  predicate IsNumber(s: string) {
    var t := StripPrefix(s, "-");
    var r := SkipDigits(t);
    AllNumberChars(s) && IsNatural(t[..|t| - |r|]) && IsFraction(r)
  }

  predicate IsOtherNumber(s: string) {
    IsNumber(s) && !IsNatural(s)
  }

  /** The literal of a negative number, a fraction, or a power of ten. */
  type OtherLiteral = s: string | IsOtherNumber(s) witness "-0"

  // ----------------------------------------------------------- syntax trees

  datatype Json =
    | Null
    | Bool(b: bool)
    | Number(n: nat)
    | OtherNumber(literal: OtherLiteral)
    | String(s: string)
    | Array(items: seq<Json>)
    | Object(fields: seq<Field>)

  datatype Field = Field(key: string, value: Json)

  // --------------------------------------------------------------- printing

  /** `to_vec` or `to_vec_pretty`. */
  datatype Layout = Compact | Pretty

  // Every printer takes the text that follows and returns both.

  function Indent(level: nat, rest: string): string {
    if level == 0 then rest else "  " + Indent(level - 1, rest)
  }

  function Newline(layout: Layout, level: nat, rest: string): string {
    if layout == Compact then rest else "\n" + Indent(level, rest)
  }

  function Colon(layout: Layout, rest: string): string {
    if layout == Compact then ":" + rest else ": " + rest
  }

  function EscapeChar(c: char): string {
    if c == '"' then "\\\""
    else if c == '\\' then "\\\\"
    else if c == '\U{8}' then "\\b"
    else if c == '\U{C}' then "\\f"
    else if c == '\n' then "\\n"
    else if c == '\r' then "\\r"
    else if c == '\t' then "\\t"
    else if c < ' ' then "\\u00" + [Hex.Digit(c as int / 16), Hex.Digit(c as int % 16)]
    else [c]
  }

  /** The rest of a string literal after its opening quote. */
  function PrintString(s: string, rest: string): string {
    if s == "" then "\"" + rest else EscapeChar(s[0]) + PrintString(s[1..], rest)
  }

  function PrintTo(v: Json, layout: Layout, level: nat, rest: string): string
    decreases v, 1
  {
    match v
    case Null => "null" + rest
    case Bool(b) => (if b then "true" else "false") + rest
    case Number(n) => Decimal.PrintTo(n, rest)
    case OtherNumber(literal) => literal + rest
    case String(s) => "\"" + PrintString(s, rest)
    case Array(items) =>
      if items == [] then "[" + ("]" + rest)
      else "[" + Newline(layout, level + 1, PrintItems(items, layout, level, rest))
    case Object(fields) =>
      if fields == [] then "{" + ("}" + rest)
      else "{" + Newline(layout, level + 1, PrintFields(fields, layout, level, rest))
  }

  /** The elements of an array that is itself at `level`, and its closing bracket. */
  function PrintItems(items: seq<Json>, layout: Layout, level: nat, rest: string): string
    requires items != []
    decreases items, 0
  {
    PrintTo(items[0], layout, level + 1, PrintMoreItems(items[1..], layout, level, rest))
  }

  function PrintMoreItems(items: seq<Json>, layout: Layout, level: nat, rest: string): string
    decreases items, 1
  {
    if items == [] then Newline(layout, level, "]" + rest)
    else "," + Newline(layout, level + 1, PrintItems(items, layout, level, rest))
  }

  function PrintFields(fields: seq<Field>, layout: Layout, level: nat, rest: string): string
    requires fields != []
    decreases fields, 0
  {
    PrintField(fields[0], layout, level + 1, PrintMoreFields(fields[1..], layout, level, rest))
  }

  function PrintMoreFields(fields: seq<Field>, layout: Layout, level: nat, rest: string): string
    decreases fields, 1
  {
    if fields == [] then Newline(layout, level, "}" + rest)
    else "," + Newline(layout, level + 1, PrintFields(fields, layout, level, rest))
  }

  function PrintField(field: Field, layout: Layout, level: nat, rest: string): string
    decreases field, 0
  {
    "\"" + PrintString(field.key, Colon(layout, PrintTo(field.value, layout, level, rest)))
  }

  function Print(v: Json, layout: Layout): string {
    PrintTo(v, layout, 0, "")
  }

  // ---------------------------------------------------------------- parsing

  // Every parser returns what it read and the text it left.

  predicate IsSpace(c: char) {
    c == ' ' || c == '\n' || c == '\t' || c == '\r'
  }

  function SkipSpace(s: string): (r: string)
    ensures |r| <= |s|
  {
    if s != "" && IsSpace(s[0]) then SkipSpace(s[1..]) else s
  }

  function HexUnit(s: string): (r: Option<nat>)
    ensures r.Some? ==> |s| >= 4 && r.value < 0x1_0000
  {
    if |s| < 4 then None
    else
      var a :- Hex.Value(s[0]);
      var b :- Hex.Value(s[1]);
      var c :- Hex.Value(s[2]);
      var d :- Hex.Value(s[3]);
      Some(a * 4096 + b * 256 + c * 16 + d)
  }

  /** `\uXXXX`, after its `u`. A high surrogate takes a second unit; a lone
      surrogate is refused. */
  function ParseUnicodeEscape(s: string): (r: Option<(char, string)>)
    ensures r.Some? ==> |r.value.1| < |s|
  {
    var n :- HexUnit(s);
    if n < 0xD800 || 0xE000 <= n then Some((n as char, s[4..]))
    else if n < 0xDC00 && |s| >= 6 && s[4] == '\\' && s[5] == 'u' then
      var low :- HexUnit(s[6..]);
      if 0xDC00 <= low < 0xE000 then
        Some((((n - 0xD800) * 1024 + (low - 0xDC00) + 0x1_0000) as char, s[10..]))
      else None
    else None
  }

  /** An escape sequence, after its backslash. */
  function ParseEscape(s: string): (r: Option<(char, string)>)
    ensures r.Some? ==> |r.value.1| < |s|
  {
    if s == "" then None
    else
      match s[0]
      case '"' => Some(('"', s[1..]))
      case '\\' => Some(('\\', s[1..]))
      case '/' => Some(('/', s[1..]))
      case 'b' => Some(('\U{8}', s[1..]))
      case 'f' => Some(('\U{C}', s[1..]))
      case 'n' => Some(('\n', s[1..]))
      case 'r' => Some(('\r', s[1..]))
      case 't' => Some(('\t', s[1..]))
      case 'u' => ParseUnicodeEscape(s[1..])
      case _ => None
  }

  /** A string literal, after its opening quote. */
  function ParseString(s: string): (r: Option<(string, string)>)
    ensures r.Some? ==> |r.value.1| < |s|
  {
    if s == "" then None
    else if s[0] == '"' then Some(("", s[1..]))
    else if s[0] == '\\' then
      var (c, left) :- ParseEscape(s[1..]);
      var (cs, rest) :- ParseString(left);
      Some(([c] + cs, rest))
    else if s[0] < ' ' then None
    else
      var (cs, rest) :- ParseString(s[1..]);
      Some(([s[0]] + cs, rest))
  }

  /** The longest run of number characters, and the text after it. */
  function NumberRun(s: string): (r: (string, string))
    ensures |r.0| + |r.1| == |s|
    ensures AllNumberChars(r.0)
  {
    if s != "" && IsNumberChar(s[0]) then
      var (run, rest) := NumberRun(s[1..]);
      ([s[0]] + run, rest)
    else ("", s)
  }

  lemma NaturalIsDigits(s: string)
    requires IsNatural(s)
    ensures s != "" && Decimal.AllDigits(s)
  {
  }

  function ParseNumber(s: string): (r: Option<(Json, string)>)
    ensures r.Some? ==> |r.value.1| < |s|
  {
    var (run, rest) := NumberRun(s);
    if IsNatural(run) then
      NaturalIsDigits(run);
      Some((Number(Decimal.Read(run, 0)), rest))
    else if IsOtherNumber(run) then Some((OtherNumber(run), rest))
    else None
  }

  function ParseWord(s: string, word: string, v: Json): (r: Option<(Json, string)>)
    requires word != ""
    ensures r.Some? ==> |r.value.1| < |s|
  {
    if StartsWith(s, word) then Some((v, s[|word|..])) else None
  }

  function ParseValue(text: string): (r: Option<(Json, string)>)
    ensures r.Some? ==> |r.value.1| < |text|
    decreases |text|, 0
  {
    var s := SkipSpace(text);
    if s == "" then None
    else
      match s[0]
      case 'n' => ParseWord(s, "null", Null)
      case 't' => ParseWord(s, "true", Bool(true))
      case 'f' => ParseWord(s, "false", Bool(false))
      case '"' =>
        var (cs, rest) :- ParseString(s[1..]);
        Some((String(cs), rest))
      case '[' =>
        var t := SkipSpace(s[1..]);
        if t != "" && t[0] == ']' then Some((Array([]), t[1..]))
        else
          var (items, rest) :- ParseItems(t);
          Some((Array(items), rest))
      case '{' =>
        var t := SkipSpace(s[1..]);
        if t != "" && t[0] == '}' then Some((Object([]), t[1..]))
        else
          var (fields, rest) :- ParseFields(t);
          Some((Object(fields), rest))
      case _ => ParseNumber(s)
  }

  /** At least one element, and the closing bracket. */
  function ParseItems(text: string): (r: Option<(seq<Json>, string)>)
    ensures r.Some? ==> |r.value.1| < |text|
    decreases |text|, 1
  {
    var (v, left) :- ParseValue(text);
    var (vs, rest) :- ParseMoreItems(left);
    Some(([v] + vs, rest))
  }

  function ParseMoreItems(text: string): (r: Option<(seq<Json>, string)>)
    ensures r.Some? ==> |r.value.1| < |text|
    decreases |text|, 0
  {
    var s := SkipSpace(text);
    if s == "" then None
    else if s[0] == ']' then Some(([], s[1..]))
    else if s[0] == ',' then ParseItems(s[1..])
    else None
  }

  /** A quoted key, a colon and a value. */
  function ParseField(text: string): (r: Option<(Field, string)>)
    ensures r.Some? ==> |r.value.1| < |text|
    decreases |text|, 1
  {
    var s := SkipSpace(text);
    if s == "" || s[0] != '"' then None
    else
      var (key, left) :- ParseString(s[1..]);
      var t := SkipSpace(left);
      if t == "" || t[0] != ':' then None
      else
        var (v, rest) :- ParseValue(t[1..]);
        Some((Field(key, v), rest))
  }

  /** At least one field, and the closing brace. */
  function ParseFields(text: string): (r: Option<(seq<Field>, string)>)
    ensures r.Some? ==> |r.value.1| < |text|
    decreases |text|, 2
  {
    var (f, left) :- ParseField(text);
    var (fs, rest) :- ParseMoreFields(left);
    Some(([f] + fs, rest))
  }

  function ParseMoreFields(text: string): (r: Option<(seq<Field>, string)>)
    ensures r.Some? ==> |r.value.1| < |text|
    decreases |text|, 0
  {
    var s := SkipSpace(text);
    if s == "" then None
    else if s[0] == '}' then Some(([], s[1..]))
    else if s[0] == ',' then ParseFields(s[1..])
    else None
  }

  /** One value with nothing but white space around it. */
  function Parse(s: string): Option<Json> {
    var (v, rest) :- ParseValue(s);
    if SkipSpace(rest) == "" then Some(v) else None
  }
}
