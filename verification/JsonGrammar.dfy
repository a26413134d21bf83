/** The grammar of RFC 8259, stated without a parser. A predicate relates a tree
    to a text that starts with it and to the text that follows. */
module JsonGrammar {
  import opened Common
  import opened Json
  import Decimal

  // ------------------------------------------------------ white space (section 2)

  predicate AllSpace(s: string) {
    forall i | 0 <= i < |s| :: IsSpace(s[i])
  }

  /** `text` is white space, if anything, and then `t`. */
  predicate Spaced(text: string, t: string) {
    && |t| <= |text|
    && var n := |text| - |t|;
       text[n..] == t && AllSpace(text[..n])
  }

  // ----------------------------------------------------------- numbers (section 6)

  /** A decimal point and some digits, or nothing. */
  predicate IsFractionPart(s: string) {
    s == "" || (s[0] == '.' && |s| > 1 && Decimal.AllDigits(s[1..]))
  }

  /** The letter e in either case, a sign if any, and some digits; or nothing. */
  ghost predicate IsExponentPart(s: string) {
    s == "" ||
    exists letter, sign, digits ::
      && (letter == "e" || letter == "E") && (sign == "" || sign == "+" || sign == "-")
      && IsDigits(digits) && s == letter + (sign + digits)
  }

  predicate IsDigits(s: string) {
    s != "" && Decimal.AllDigits(s)
  }

  ghost predicate IsNumberOf(s: string, sign: string, whole: string, fraction: string, exponent: string) {
    && s == sign + (whole + (fraction + exponent))
    && (sign == "" || sign == "-")
    && IsNatural(whole) && IsFractionPart(fraction) && IsExponentPart(exponent)
  }

  ghost predicate IsNumberText(s: string) {
    exists sign, whole, fraction, exponent :: IsNumberOf(s, sign, whole, fraction, exponent)
  }

  // ----------------------------------------------------------- strings (section 7)

  /** The letters of the two-character escapes, and what they stand for. */
  predicate IsShortEscape(letter: char, c: char) {
    || (letter == c && (c == '"' || c == '\\' || c == '/'))
    || (letter == 'b' && c == '\U{8}') || (letter == 'f' && c == '\U{C}') || (letter == 'n' && c == '\n')
    || (letter == 'r' && c == '\r') || (letter == 't' && c == '\t')
  }

  /** `\uXXXX` for the 16-bit unit `n`. */
  predicate IsUnitEscape(s: string, n: nat) {
    |s| == 6 && s[0] == '\\' && s[1] == 'u' && HexUnit(s[2..]) == Some(n)
  }

  /** The spellings of a character inside a string literal: itself, a short
      escape, a numeric one, or the numeric ones of its surrogate pair. */
  ghost predicate Spells(s: string, c: char) {
    || (s == [c] && ' ' <= c && c != '"' && c != '\\')
    || (|s| == 2 && s[0] == '\\' && IsShortEscape(s[1], c))
    || IsUnitEscape(s, c as nat)
    || (|s| == 12 && exists high: nat, low: nat ::
          && IsUnitEscape(s[..6], high) && IsUnitEscape(s[6..], low)
          && 0xD800 <= high < 0xDC00 && 0xDC00 <= low < 0xE000
          && c as int == (high - 0xD800) * 1024 + (low - 0xDC00) + 0x1_0000)
  }

  ghost predicate SpellsAll(spellings: seq<string>, s: string) {
    |spellings| == |s| && forall i | 0 <= i < |s| :: Spells(spellings[i], s[i])
  }

  /** The rest of a literal with these spellings. */
  function Spelled(spellings: seq<string>, rest: string): string {
    if spellings == [] then "\"" + rest else spellings[0] + Spelled(spellings[1..], rest)
  }

  ghost predicate IsString(s: string, text: string, rest: string) {
    exists spellings :: SpellsAll(spellings, s) && text == "\"" + Spelled(spellings, rest)
  }

  // ------------------------------------------------- values (sections 3, 4 and 5)

  ghost predicate IsValue(v: Json, text: string, rest: string)
    decreases v, 2
  {
    match v
    case Null => text == "null" + rest
    case Bool(b) => text == (if b then "true" else "false") + rest
    case Number(n) => exists run :: IsNatural(run) && Decimal.Parse(run) == Some(n) && text == run + rest
    case OtherNumber(literal) => text == literal + rest
    case String(s) => IsString(s, text, rest)
    case Array(items) =>
      text != "" && text[0] == '[' &&
      if items == [] then Spaced(text[1..], "]" + rest) else IsItems(items, text[1..], rest)
    case Object(fields) =>
      text != "" && text[0] == '{' &&
      if fields == [] then Spaced(text[1..], "}" + rest) else IsFields(fields, text[1..], rest)
  }

  ghost predicate IsItems(items: seq<Json>, text: string, rest: string)
    requires items != []
    decreases items, 0
  {
    exists item, left ::
      Spaced(text, item) && IsValue(items[0], item, left) && IsMoreItems(items[1..], left, rest)
  }

  ghost predicate IsMoreItems(items: seq<Json>, text: string, rest: string)
    decreases items, 1
  {
    if items == [] then Spaced(text, "]" + rest)
    else exists next :: Spaced(text, "," + next) && IsItems(items, next, rest)
  }

  ghost predicate IsFields(fields: seq<Field>, text: string, rest: string)
    requires fields != []
    decreases fields, 0
  {
    exists field, left ::
      Spaced(text, field) && IsField(fields[0], field, left) && IsMoreFields(fields[1..], left, rest)
  }

  ghost predicate IsMoreFields(fields: seq<Field>, text: string, rest: string)
    decreases fields, 1
  {
    if fields == [] then Spaced(text, "}" + rest)
    else exists next :: Spaced(text, "," + next) && IsFields(fields, next, rest)
  }

  ghost predicate IsField(field: Field, text: string, rest: string)
    decreases field, 0
  {
    exists colon, after, value ::
      && IsString(field.key, text, colon)
      && Spaced(colon, ":" + after) && Spaced(after, value)
      && IsValue(field.value, value, rest)
  }

  /** One value with white space around it. */
  ghost predicate IsDocument(v: Json, text: string) {
    exists value, rest :: Spaced(text, value) && IsValue(v, value, rest) && AllSpace(rest)
  }
}
