/** The parser reads exactly the grammar, and what the printer writes is in it:
    parsing undoes printing, in both layouts and for every syntax tree. */
module JsonLaws {
  import opened Common
  import opened Json
  import opened JsonGrammar
  import Decimal
  import Hex

  /** Text that a number literal in front of it does not run into. */
  predicate Delimited(rest: string) {
    rest == "" || !IsNumberChar(rest[0])
  }

  // ------------------------------------------------------------- white space

  lemma SpacedSteps(text: string, t: string)
    requires |text| > |t|
    ensures Spaced(text, t) <==> IsSpace(text[0]) && Spaced(text[1..], t)
  {
    var n := |text| - |t|;
    var space := text[..n];
    assert text[1..][..n - 1] == space[1..] && text[1..][n - 1..] == text[n..];
    assert AllSpace(space) <==> IsSpace(space[0]) && AllSpace(space[1..]) by {
      assert space == [space[0]] + space[1..];
    }
  }

  lemma {:induction false} SkipsSpace(text: string)
    ensures Spaced(text, SkipSpace(text))
    ensures SkipSpace(text) == "" || !IsSpace(SkipSpace(text)[0])
  {
    if text != "" && IsSpace(text[0]) {
      SkipsSpace(text[1..]);
      SpacedSteps(text, SkipSpace(text));
    }
  }

  lemma {:induction false} SkipSpaced(text: string, t: string)
    requires Spaced(text, t)
    ensures SkipSpace(text) == SkipSpace(t)
  {
    if |text| > |t| {
      SpacedSteps(text, t);
      SkipSpaced(text[1..], t);
    }
  }

  /** The first character of a token is found. */
  lemma SkipToToken(text: string, t: string)
    requires Spaced(text, t) && t != "" && !IsSpace(t[0])
    ensures SkipSpace(text) == t
  {
    SkipSpaced(text, t);
  }

  /** What is not a token of its own does not run into a number. */
  lemma SpacedIsDelimited(text: string, t: string)
    requires Spaced(text, t) && Delimited(t)
    ensures Delimited(text)
  {
    if |text| > |t| {
      SpacedSteps(text, t);
    }
  }

  lemma OnlySpace(s: string)
    ensures SkipSpace(s) == "" <==> AllSpace(s)
  {
    SkipsSpace(s);
    if AllSpace(s) {
      SkipSpaced(s, "");
    } else {
      assert s[..|s|] == s;
    }
  }

  /** The parsers see only the text after leading white space. */
  lemma ParseAfterSpace(s: string, t: string)
    requires SkipSpace(s) == SkipSpace(t)
    ensures ParseValue(s) == ParseValue(t)
    ensures ParseItems(s) == ParseItems(t)
    ensures ParseField(s) == ParseField(t)
    ensures ParseFields(s) == ParseFields(t)
  {
  }

  // ----------------------------------------------------------------- strings

  lemma HexUnitIsLocal(s: string, t: string)
    requires |s| >= 4 && |t| >= 4 && s[..4] == t[..4]
    ensures HexUnit(s) == HexUnit(t)
  {
    assert forall i | 0 <= i < 4 :: s[i] == s[..4][i] && t[i] == t[..4][i];
  }

  lemma ParseUnit(s: string, n: nat, rest: string)
    requires IsUnitEscape(s, n)
    ensures (s + rest)[0] == '\\' && (s + rest)[1] == 'u'
    ensures HexUnit((s + rest)[2..]) == Some(n)
    ensures (s + rest)[2..][4..] == rest
  {
    assert (s + rest)[2..][..4] == s[2..][..4];
    HexUnitIsLocal((s + rest)[2..], s[2..]);
  }

  lemma ParsePair(high: string, h: nat, low: string, l: nat, rest: string)
    requires IsUnitEscape(high, h) && IsUnitEscape(low, l)
    requires 0xD800 <= h < 0xDC00 && 0xDC00 <= l < 0xE000
    ensures ParseUnicodeEscape((high + (low + rest))[2..])
            == Some((((h - 0xD800) * 1024 + (l - 0xDC00) + 0x1_0000) as char, rest))
  {
    var tail := low + rest;
    var s := (high + tail)[2..];
    ParseUnit(high, h, tail);
    ParseUnit(low, l, rest);
    assert s[4..] == tail && s[4] == tail[0] && s[5] == tail[1];
    assert s[6..] == tail[2..] && s[10..] == tail[2..][4..];
  }

  /** One spelled character, at the head of a literal. */
  lemma ParseSpelling(s: string, c: char, rest: string)
    requires Spells(s, c)
    ensures
      var t := s + rest;
      || (t[0] == c && ' ' <= c && c != '"' && c != '\\' && t[1..] == rest)
      || (t[0] == '\\' && ParseEscape(t[1..]) == Some((c, rest)))
  {
    var t := s + rest;
    if |s| == 1 {
    } else if |s| == 2 {
      assert t[1..][0] == s[1] && t[1..][1..] == rest;
    } else {
      ParseNumericSpelling(s, c, rest);
      assert t[1..][0] == 'u' && t[1..][1..] == t[2..];
    }
  }

  lemma ParseNumericSpelling(s: string, c: char, rest: string)
    requires Spells(s, c) && |s| > 2
    ensures (s + rest)[0] == '\\' && (s + rest)[1] == 'u'
    ensures ParseUnicodeEscape((s + rest)[2..]) == Some((c, rest))
  {
    if |s| == 6 {
      ParseUnit(s, c as nat, rest);
    } else {
      var high: nat, low: nat :| IsUnitEscape(s[..6], high) && IsUnitEscape(s[6..], low)
        && 0xD800 <= high < 0xDC00 && 0xDC00 <= low < 0xE000
        && c as int == (high - 0xD800) * 1024 + (low - 0xDC00) + 0x1_0000;
      ParsePair(s[..6], high, s[6..], low, rest);
      assert s + rest == s[..6] + (s[6..] + rest);
    }
  }

  /** However a string is spelled, it is read. */
  lemma {:induction false} ParseSpelled(spellings: seq<string>, s: string, rest: string)
    requires SpellsAll(spellings, s)
    ensures ParseString(Spelled(spellings, rest)) == Some((s, rest))
  {
    if s == "" {
    } else {
      ParseSpelled(spellings[1..], s[1..], rest);
      ParseSpelling(spellings[0], s[0], Spelled(spellings[1..], rest));
      assert [s[0]] + s[1..] == s;
    }
  }

  lemma UnicodeEscapeIsSpelled(t: string)
    requires t != "" && t[0] == 'u' && ParseUnicodeEscape(t[1..]).Some?
    ensures
      var (c, left) := ParseUnicodeEscape(t[1..]).value;
      var n := |t| - |left|;
      Spells(['\\'] + t[..n], c) && left == t[n..]
  {
    var (c, left) := ParseUnicodeEscape(t[1..]).value;
    var n := |t| - |left|;
    var s := ['\\'] + t[..n];
    if n == 5 {
      assert s[2..] == t[1..5] && t[1..][..4] == t[1..5][..4];
      HexUnitIsLocal(t[1..], s[2..]);
    } else {
      var first, second := s[..6], s[6..];
      var high, low := HexUnit(t[1..]).value, HexUnit(t[1..][6..]).value;
      assert n == 11;
      assert first[2..] == t[1..5] == t[1..][..4] && second[2..] == t[7..11] == t[1..][6..][..4];
      HexUnitIsLocal(t[1..], first[2..]);
      HexUnitIsLocal(t[1..][6..], second[2..]);
      assert IsUnitEscape(first, high) && IsUnitEscape(second, low);
    }
  }

  lemma EscapeIsSpelled(t: string)
    requires ParseEscape(t).Some?
    ensures
      var (c, left) := ParseEscape(t).value;
      var n := |t| - |left|;
      Spells(['\\'] + t[..n], c) && left == t[n..]
  {
    if t[0] == 'u' {
      UnicodeEscapeIsSpelled(t);
    }
  }

  lemma FirstIsSpelled(t: string) returns (head: string, c: char, left: string)
    requires ParseString(t).Some? && t[0] != '"'
    ensures t == head + left && Spells(head, c) && |left| < |t|
    ensures ParseString(left).Some?
    ensures ParseString(t) == Some(([c] + ParseString(left).value.0, ParseString(left).value.1))
  {
    if t[0] == '\\' {
      EscapeIsSpelled(t[1..]);
      c, left := ParseEscape(t[1..]).value.0, ParseEscape(t[1..]).value.1;
      head := ['\\'] + t[1..][..|t| - 1 - |left|];
    } else {
      head, c, left := [t[0]], t[0], t[1..];
    }
  }

  /** Whatever is read was spelled: nothing but the spellings is accepted. */
  lemma {:induction false} ParsedIsSpelled(t: string) returns (spellings: seq<string>)
    requires ParseString(t).Some?
    ensures
      var (s, rest) := ParseString(t).value;
      SpellsAll(spellings, s) && t == Spelled(spellings, rest)
    decreases |t|
  {
    if t[0] == '"' {
      spellings := [];
      assert t == "\"" + t[1..];
    } else {
      var head, c, left := FirstIsSpelled(t);
      var tail := ParsedIsSpelled(left);
      spellings := [head] + tail;
      assert spellings[1..] == tail;
    }
  }

  /** A literal is read exactly when it is one. */
  lemma ParseStringExactly(text: string, s: string, rest: string)
    ensures IsString(s, text, rest) <==>
            text != "" && text[0] == '"' && ParseString(text[1..]) == Some((s, rest))
  {
    if IsString(s, text, rest) {
      var spellings :| SpellsAll(spellings, s) && text == "\"" + Spelled(spellings, rest);
      assert text[1..] == Spelled(spellings, rest);
      ParseSpelled(spellings, s, rest);
    }
    if text != "" && text[0] == '"' && ParseString(text[1..]) == Some((s, rest)) {
      var spellings := ParsedIsSpelled(text[1..]);
      assert text == "\"" + text[1..];
    }
  }

  // ----------------------------------------------------------------- numbers

  lemma {:induction false} NumberRunTakesAll(run: string, rest: string)
    requires AllNumberChars(run) && Delimited(rest)
    ensures NumberRun(run + rest) == (run, rest)
  {
    if run == "" {
      assert run + rest == rest;
    } else {
      assert (run + rest)[1..] == run[1..] + rest;
      NumberRunTakesAll(run[1..], rest);
      assert [run[0]] + run[1..] == run;
    }
  }

  lemma {:induction false} NumberRunSplits(s: string)
    ensures NumberRun(s).0 + NumberRun(s).1 == s && Delimited(NumberRun(s).1)
  {
    if s != "" && IsNumberChar(s[0]) {
      var (run, rest) := NumberRun(s[1..]);
      NumberRunSplits(s[1..]);
      assert ([s[0]] + run) + rest == [s[0]] + (run + rest) == s;
    }
  }

  lemma {:induction false} SkipDigitsSplits(s: string)
    ensures
      var r := SkipDigits(s);
      var n := |s| - |r|;
      s[n..] == r && Decimal.AllDigits(s[..n]) && (r == "" || !Decimal.IsDigit(r[0]))
  {
    if s != "" && Decimal.IsDigit(s[0]) {
      var n := |s| - |SkipDigits(s)|;
      SkipDigitsSplits(s[1..]);
      assert s[1..][..n - 1] == s[..n][1..];
    }
  }

  lemma {:induction false} SkipDigitsOver(digits: string, r: string)
    requires Decimal.AllDigits(digits) && (r == "" || !Decimal.IsDigit(r[0]))
    ensures SkipDigits(digits + r) == r
  {
    if digits == "" {
      assert digits + r == r;
    } else {
      assert (digits + r)[1..] == digits[1..] + r;
      SkipDigitsOver(digits[1..], r);
    }
  }

  lemma NumberChars(s: string, t: string)
    ensures AllNumberChars(s + t) <==> AllNumberChars(s) && AllNumberChars(t)
  {
    var st := s + t;
    if AllNumberChars(st) {
      assert forall i | 0 <= i < |s| :: s[i] == st[i];
      assert forall i | 0 <= i < |t| :: t[i] == st[|s| + i];
    }
  }

  lemma ExponentChars(s: string)
    requires IsExponent(s)
    ensures AllNumberChars(s) && (s == "" || !Decimal.IsDigit(s[0]))
  {
    if s != "" {
      var n := if |s| > 1 && (s[1] == '+' || s[1] == '-') then 2 else 1;
      assert s == s[..n] + s[n..];
      NumberChars(s[..n], s[n..]);
    }
  }

  lemma ExponentExactly(s: string)
    ensures IsExponent(s) <==> IsExponentPart(s)
  {
    if s != "" && IsExponent(s) {
      var n := if |s| > 1 && (s[1] == '+' || s[1] == '-') then 2 else 1;
      assert IsDigits(s[n..]) && s == s[..1] + (s[1..n] + s[n..]);
      assert s[..1] == [s[0]] && s[1..n] == if n == 1 then "" else [s[1]];
    }
    if s != "" && IsExponentPart(s) {
      var letter, sign, digits :|
        && (letter == "e" || letter == "E") && (sign == "" || sign == "+" || sign == "-")
        && IsDigits(digits) && s == letter + (sign + digits);
      assert s[1..] == sign + digits && Decimal.IsDigit(digits[0]);
      if sign == "" {
        assert s[1..] == digits && s[1] == digits[0];
      } else {
        assert s[1..][0] == sign[0] && s[1..][1..] == digits;
      }
    }
  }

  /** The literals without a leading zero are those that are printed. */
  lemma NaturalExactly(s: string, n: nat)
    ensures IsNatural(s) && Decimal.Parse(s) == Some(n) <==> s == Decimal.Print(n)
  {
    if IsNatural(s) {
      NaturalIsDigits(s);
      Decimal.PrintParsed(s);
    }
    if s == Decimal.Print(n) {
      Decimal.ParsePrint(n);
      Decimal.PrintShape(n);
      assert Decimal.IsDigit(s[0]);
    }
  }

  /** The four characters of white space, and the four hex digits of a unit. */
  lemma SpacesExactly(c: char)
    ensures IsSpace(c) <==> c in " \t\n\r"
  {
  }

  lemma HexUnitExactly(s: string, n: nat)
    ensures HexUnit(s) == Some(n) <==>
            |s| >= 4 && n < 0x1_0000 && Hex.AllHexDigits(s[..4])
            && Hex.Lower(s[..4]) == Hex.Encode([n / 0x100, n % 0x100])
  {
    if |s| >= 4 && n < 0x1_0000 {
      HexUnitIsDecoded(s, n / 0x100, n % 0x100);
      Hex.DecodesTo(s[..4], [n / 0x100, n % 0x100]);
    }
  }

  lemma HexUnitIsDecoded(s: string, high: byte, low: byte)
    requires |s| >= 4
    ensures HexUnit(s) == Some(high * 0x100 + low) <==> Hex.Decode(s[..4]) == Some([high, low])
  {
    assert s[..4] == [s[0], s[1], s[2], s[3]];
    Hex.DecodeFour(s[0], s[1], s[2], s[3]);
    if HexUnit(s).Some? {
      var a, b, c, d :=
        Hex.Value(s[0]).value, Hex.Value(s[1]).value, Hex.Value(s[2]).value, Hex.Value(s[3]).value;
      assert Hex.Decode(s[..4]).value[0] == a * 16 + b && Hex.Decode(s[..4]).value[1] == c * 16 + d;
      assert HexUnit(s).value == (a * 16 + b) * 0x100 + (c * 16 + d);
    }
  }

  /** A fraction and an exponent, either of which may be missing. */
  lemma FractionExactly(s: string)
    ensures IsFraction(s) <==>
            exists fraction, exponent ::
              IsFractionPart(fraction) && IsExponent(exponent) && s == fraction + exponent
  {
    if IsFraction(s) {
      var fraction, exponent := FractionSplits(s);
    }
    if fraction, exponent :|
      IsFractionPart(fraction) && IsExponent(exponent) && s == fraction + exponent
    {
      ExponentChars(exponent);
      if fraction == "" {
        assert s == exponent;
      } else {
        assert s[1..] == fraction[1..] + exponent;
        SkipDigitsOver(fraction[1..], exponent);
      }
    }
  }

  lemma FractionSplits(s: string) returns (fraction: string, exponent: string)
    requires IsFraction(s)
    ensures IsFractionPart(fraction) && IsExponent(exponent) && s == fraction + exponent
  {
    if s != "" && s[0] == '.' {
      exponent := SkipDigits(s[1..]);
      SkipDigitsSplits(s[1..]);
      var n := |s| - |exponent|;
      fraction := s[..n];
      assert fraction[1..] == s[1..][..n - 1];
    } else {
      fraction, exponent := "", s;
    }
  }

  lemma FractionChars(fraction: string, exponent: string)
    requires IsFractionPart(fraction) && IsExponent(exponent)
    ensures AllNumberChars(fraction + exponent)
    ensures fraction + exponent == "" || !Decimal.IsDigit((fraction + exponent)[0])
  {
    ExponentChars(exponent);
    NumberChars(fraction, exponent);
    if fraction != "" {
      assert fraction == [fraction[0]] + fraction[1..];
      NumberChars([fraction[0]], fraction[1..]);
    } else {
      assert fraction + exponent == exponent;
    }
  }

  /** The literals that are read are those of the grammar. */
  lemma NumberExactly(s: string)
    ensures IsNumber(s) <==> IsNumberText(s)
  {
    if IsNumber(s) {
      var sign, whole, fraction, exponent := NumberSplits(s);
    }
    if sign, whole, fraction, exponent :| IsNumberOf(s, sign, whole, fraction, exponent) {
      PartsAreNumber(s, sign, whole, fraction, exponent);
    }
  }

  lemma NumberSplits(s: string) returns (sign: string, whole: string, fraction: string, exponent: string)
    requires IsNumber(s)
    ensures IsNumberOf(s, sign, whole, fraction, exponent)
  {
    var t := StripPrefix(s, "-");
    var r := SkipDigits(t);
    sign, whole := if StartsWith(s, "-") then "-" else "", t[..|t| - |r|];
    SkipDigitsSplits(t);
    fraction, exponent := FractionSplits(r);
    ExponentExactly(exponent);
    assert t == whole + r && r == fraction + exponent;
    assert s == sign + t;
  }

  lemma PartsAreNumber(s: string, sign: string, whole: string, fraction: string, exponent: string)
    requires IsNumberOf(s, sign, whole, fraction, exponent)
    ensures IsNumber(s)
  {
    var r := fraction + exponent;
    var t := whole + r;
    ExponentExactly(exponent);
    NaturalIsDigits(whole);
    FractionChars(fraction, exponent);
    NumberChars(whole, r);
    NumberChars(sign, t);
    SkipDigitsOver(whole, r);
    assert t[..|t| - |r|] == whole;
    FractionExactly(r);
    if sign == "-" {
      StripPrefixed("-", t);
    } else {
      assert s == t && t[0] == whole[0] && t[..1][0] == t[0];
    }
  }

  predicate IsNumeric(v: Json) {
    v.Number? || v.OtherNumber?
  }

  /** A number is read from its longest literal. */
  lemma ParseNumberExactly(text: string, v: Json, rest: string)
    ensures ParseNumber(text) == Some((v, rest)) <==> IsNumeric(v) && IsValue(v, text, rest) && Delimited(rest)
  {
    NumberRunSplits(text);
    if IsNumeric(v) && IsValue(v, text, rest) && Delimited(rest) {
      match v
      case Number(n) =>
        var run :| IsNatural(run) && Decimal.Parse(run) == Some(n) && text == run + rest;
        NaturalIsDigits(run);
        NumberRunTakesAll(run, rest);
      case OtherNumber(literal) => NumberRunTakesAll(literal, rest);
    }
  }

  lemma NumberStarts(v: Json, text: string, rest: string)
    requires IsNumeric(v) && IsValue(v, text, rest)
    ensures text != "" && (text[0] == '-' || Decimal.IsDigit(text[0]))
  {
    match v
    case Number(n) =>
      var run :| IsNatural(run) && Decimal.Parse(run) == Some(n) && text == run + rest;
      assert text[0] == run[0];
    case OtherNumber(literal) =>
      assert literal[0] == '-' || Decimal.IsDigit(literal[0]);
  }

  // ------------------------------------------------- from the grammar to values

  /** What a value starts with: never white space and never a closing bracket. */
  predicate StartsValue(s: string) {
    s != "" && !IsSpace(s[0]) && s[0] != ']' && s[0] != '}'
  }

  // One step of the parser on each kind of text.

  lemma ParseWordText(word: string, v: Json, rest: string)
    requires (word == "null" && v == Null) || (word == "true" && v == Bool(true))
             || (word == "false" && v == Bool(false))
    ensures ParseValue(word + rest) == Some((v, rest))
  {
    var s := word + rest;
    assert s[0] == word[0];
    assert s[..|word|] == word && s[|word|..] == rest;
  }

  lemma ParseNumberText(s: string)
    requires s != "" && (s[0] == '-' || Decimal.IsDigit(s[0]))
    ensures ParseValue(s) == ParseNumber(s)
  {
    var c := s[0];
    assert c != 'n' && c != 't' && c != 'f' && c != '"' && c != '[' && c != '{';
    assert SkipSpace(s) == s;
  }

  lemma ParseEmptyArray(text: string, rest: string)
    requires text != "" && text[0] == '[' && SkipSpace(text[1..]) == "]" + rest
    ensures ParseValue(text) == Some((Array([]), rest))
  {
    assert SkipSpace(text[1..])[1..] == rest;
  }

  lemma ParseEmptyObject(text: string, rest: string)
    requires text != "" && text[0] == '{' && SkipSpace(text[1..]) == "}" + rest
    ensures ParseValue(text) == Some((Object([]), rest))
  {
    assert SkipSpace(text[1..])[1..] == rest;
  }

  lemma ParseStringText(text: string, s: string, rest: string)
    requires IsString(s, text, rest)
    ensures StartsValue(text) && ParseValue(text) == Some((String(s), rest))
  {
    ParseStringExactly(text, s, rest);
  }

  lemma ParseArrayText(text: string, items: seq<Json>, rest: string)
    requires text != "" && text[0] == '[' && StartsValue(SkipSpace(text[1..]))
    requires ParseItems(text[1..]) == Some((items, rest))
    ensures ParseValue(text) == Some((Array(items), rest))
  {
    SkipTwice(text[1..]);
    ParseAfterSpace(text[1..], SkipSpace(text[1..]));
  }

  lemma ParseObjectText(text: string, fields: seq<Field>, rest: string)
    requires text != "" && text[0] == '{' && StartsValue(SkipSpace(text[1..]))
    requires ParseFields(text[1..]) == Some((fields, rest))
    ensures ParseValue(text) == Some((Object(fields), rest))
  {
    SkipTwice(text[1..]);
    ParseAfterSpace(text[1..], SkipSpace(text[1..]));
  }

  lemma SkipTwice(text: string)
    ensures SkipSpace(SkipSpace(text)) == SkipSpace(text)
  {
    SkipsSpace(text);
    SkipSpaced(text, SkipSpace(text));
  }

  lemma {:induction false} GrammarIsParsed(v: Json, text: string, rest: string)
    requires IsValue(v, text, rest) && (IsNumeric(v) ==> Delimited(rest))
    ensures StartsValue(text)
    ensures ParseValue(text) == Some((v, rest))
    decreases v, 2
  {
    match v {
      case Null => ParseWordText("null", v, rest);
      case Bool(b) => ParseWordText(if b then "true" else "false", v, rest);
      case Number(_) =>
        NumberStarts(v, text, rest);
        ParseNumberExactly(text, v, rest);
        ParseNumberText(text);
      case OtherNumber(_) =>
        NumberStarts(v, text, rest);
        ParseNumberExactly(text, v, rest);
        ParseNumberText(text);
      case String(s) => ParseStringText(text, s, rest);
      case Array(items) =>
        if items == [] {
          SkipToToken(text[1..], "]" + rest);
          ParseEmptyArray(text, rest);
        } else {
          ItemsAreParsed(items, text[1..], rest);
          ParseArrayText(text, items, rest);
        }
      case Object(fields) =>
        if fields == [] {
          SkipToToken(text[1..], "}" + rest);
          ParseEmptyObject(text, rest);
        } else {
          FieldsAreParsed(fields, text[1..], rest);
          ParseObjectText(text, fields, rest);
        }
    }
  }

  lemma {:induction false} ItemsAreParsed(items: seq<Json>, text: string, rest: string)
    requires items != [] && IsItems(items, text, rest)
    ensures StartsValue(SkipSpace(text))
    ensures ParseItems(text) == Some((items, rest))
    decreases items, 0
  {
    var item, left :|
      Spaced(text, item) && IsValue(items[0], item, left) && IsMoreItems(items[1..], left, rest);
    MoreItemsAreParsed(items[1..], left, rest);
    GrammarIsParsed(items[0], item, left);
    SkipToToken(text, item);
    ParseItemsText(text, item, items, left, rest);
  }

  lemma ParseItemsText(text: string, item: string, items: seq<Json>, left: string, rest: string)
    requires items != [] && SkipSpace(text) == SkipSpace(item) && ParseValue(item) == Some((items[0], left))
    requires ParseMoreItems(left) == Some((items[1..], rest))
    ensures ParseItems(text) == Some((items, rest))
  {
    ParseAfterSpace(text, item);
    assert [items[0]] + items[1..] == items;
  }

  lemma {:induction false} MoreItemsAreParsed(items: seq<Json>, text: string, rest: string)
    requires IsMoreItems(items, text, rest)
    ensures Delimited(text)
    ensures ParseMoreItems(text) == Some((items, rest))
    decreases items, 1
  {
    if items == [] {
      SkipToToken(text, "]" + rest);
      SpacedIsDelimited(text, "]" + rest);
    } else {
      var next :| Spaced(text, "," + next) && IsItems(items, next, rest);
      ItemsAreParsed(items, next, rest);
      SkipToToken(text, "," + next);
      SpacedIsDelimited(text, "," + next);
      assert ("," + next)[1..] == next;
    }
  }

  lemma {:induction false} FieldsAreParsed(fields: seq<Field>, text: string, rest: string)
    requires fields != [] && IsFields(fields, text, rest)
    ensures StartsValue(SkipSpace(text))
    ensures ParseFields(text) == Some((fields, rest))
    decreases fields, 0
  {
    var field, left :|
      Spaced(text, field) && IsField(fields[0], field, left) && IsMoreFields(fields[1..], left, rest);
    MoreFieldsAreParsed(fields[1..], left, rest);
    FieldIsParsed(fields[0], field, left);
    SkipToToken(text, field);
    ParseFieldsText(text, field, fields, left, rest);
  }

  lemma ParseFieldsText(text: string, field: string, fields: seq<Field>, left: string, rest: string)
    requires fields != [] && SkipSpace(text) == SkipSpace(field) && ParseField(field) == Some((fields[0], left))
    requires ParseMoreFields(left) == Some((fields[1..], rest))
    ensures ParseFields(text) == Some((fields, rest))
  {
    ParseAfterSpace(text, field);
    assert [fields[0]] + fields[1..] == fields;
  }

  lemma {:induction false} MoreFieldsAreParsed(fields: seq<Field>, text: string, rest: string)
    requires IsMoreFields(fields, text, rest)
    ensures Delimited(text)
    ensures ParseMoreFields(text) == Some((fields, rest))
    decreases fields, 1
  {
    if fields == [] {
      SkipToToken(text, "}" + rest);
      SpacedIsDelimited(text, "}" + rest);
    } else {
      var next :| Spaced(text, "," + next) && IsFields(fields, next, rest);
      FieldsAreParsed(fields, next, rest);
      SkipToToken(text, "," + next);
      SpacedIsDelimited(text, "," + next);
      assert ("," + next)[1..] == next;
    }
  }

  lemma {:induction false} FieldIsParsed(field: Field, text: string, rest: string)
    requires IsField(field, text, rest) && Delimited(rest)
    ensures StartsValue(text)
    ensures ParseField(text) == Some((field, rest))
    decreases field, 0
  {
    var colon, after, value :|
      && IsString(field.key, text, colon)
      && Spaced(colon, ":" + after) && Spaced(after, value)
      && IsValue(field.value, value, rest);
    ParseStringExactly(text, field.key, colon);
    GrammarIsParsed(field.value, value, rest);
    SkipToToken(colon, ":" + after);
    SkipSpaced(after, value);
    ParseAfterSpace(after, value);
    ParseFieldText(text, field, colon, after, rest);
  }

  lemma ParseFieldText(text: string, field: Field, colon: string, after: string, rest: string)
    requires text != "" && text[0] == '"' && ParseString(text[1..]) == Some((field.key, colon))
    requires SkipSpace(colon) == ":" + after && ParseValue(after) == Some((field.value, rest))
    ensures ParseField(text) == Some((field, rest))
  {
    assert (":" + after)[1..] == after;
  }

  // ------------------------------------------------- from values to the grammar

  lemma {:induction false} ParsedIsValue(text: string)
    requires ParseValue(text).Some?
    ensures
      var (v, rest) := ParseValue(text).value;
      IsValue(v, SkipSpace(text), rest) && (IsNumeric(v) ==> Delimited(rest))
    decreases |text|, 3
  {
    var s := SkipSpace(text);
    var (v, rest) := ParseValue(text).value;
    SkipTwice(text);
    ParseAfterSpace(text, s);
    match s[0] {
      case 'n' => ParsedIsWord(s);
      case 't' => ParsedIsWord(s);
      case 'f' => ParsedIsWord(s);
      case '"' => ParseStringExactly(s, v.s, rest);
      case '[' => ParsedIsArray(s);
      case '{' => ParsedIsObject(s);
      case _ => ParseNumberExactly(s, v, rest);
    }
  }

  lemma ParsedIsWord(s: string)
    requires s != "" && (s[0] == 'n' || s[0] == 't' || s[0] == 'f') && ParseValue(s).Some?
    ensures
      var (v, rest) := ParseValue(s).value;
      IsValue(v, s, rest) && !IsNumeric(v)
  {
    var rest := ParseValue(s).value.1;
    if s[0] == 'n' {
      assert s == "null" + rest;
    } else if s[0] == 't' {
      assert s == "true" + rest;
    } else {
      assert s == "false" + rest;
    }
  }

  lemma {:induction false} ParsedIsArray(s: string)
    requires s != "" && s[0] == '[' && ParseValue(s).Some?
    ensures ParseValue(s).value.0.Array?
    ensures IsValue(ParseValue(s).value.0, s, ParseValue(s).value.1)
    decreases |s|, 2
  {
    var text, t, rest := s[1..], SkipSpace(s[1..]), ParseValue(s).value.1;
    SkipsSpace(text);
    if t != "" && t[0] == ']' {
      assert t == "]" + rest;
    } else {
      SkipTwice(text);
      ParseAfterSpace(text, t);
      ParsedAreItems(text);
    }
  }

  lemma {:induction false} ParsedAreItems(text: string)
    requires ParseItems(text).Some?
    ensures
      var (items, rest) := ParseItems(text).value;
      items != [] && IsItems(items, text, rest)
    decreases |text|, 4
  {
    var (v, left) := ParseValue(text).value;
    var (items, rest) := ParseItems(text).value;
    ParsedIsValue(text);
    ParsedAreMoreItems(left);
    SkipsSpace(text);
    assert items[1..] == ParseMoreItems(left).value.0;
    assert Spaced(text, SkipSpace(text)) && IsValue(items[0], SkipSpace(text), left);
  }

  lemma {:induction false} ParsedAreMoreItems(text: string)
    requires ParseMoreItems(text).Some?
    ensures
      var (items, rest) := ParseMoreItems(text).value;
      IsMoreItems(items, text, rest)
    decreases |text|, 0
  {
    var s := SkipSpace(text);
    SkipsSpace(text);
    if s[0] == ']' {
      assert s == "]" + s[1..];
    } else {
      assert s == "," + s[1..];
      ParsedAreItems(s[1..]);
    }
  }

  lemma {:induction false} ParsedIsObject(s: string)
    requires s != "" && s[0] == '{' && ParseValue(s).Some?
    ensures ParseValue(s).value.0.Object?
    ensures IsValue(ParseValue(s).value.0, s, ParseValue(s).value.1)
    decreases |s|, 2
  {
    var text, t, rest := s[1..], SkipSpace(s[1..]), ParseValue(s).value.1;
    SkipsSpace(text);
    if t != "" && t[0] == '}' {
      assert t == "}" + rest;
    } else {
      SkipTwice(text);
      ParseAfterSpace(text, t);
      ParsedAreFields(text);
    }
  }

  lemma {:induction false} ParsedAreFields(text: string)
    requires ParseFields(text).Some?
    ensures
      var (fields, rest) := ParseFields(text).value;
      fields != [] && IsFields(fields, text, rest)
    decreases |text|, 4
  {
    var (f, left) := ParseField(text).value;
    var (fields, rest) := ParseFields(text).value;
    ParsedIsField(text);
    ParsedAreMoreFields(left);
    SkipsSpace(text);
    assert fields[1..] == ParseMoreFields(left).value.0;
    assert Spaced(text, SkipSpace(text)) && IsField(fields[0], SkipSpace(text), left);
  }

  lemma {:induction false} ParsedAreMoreFields(text: string)
    requires ParseMoreFields(text).Some?
    ensures
      var (fields, rest) := ParseMoreFields(text).value;
      IsMoreFields(fields, text, rest)
    decreases |text|, 0
  {
    var s := SkipSpace(text);
    SkipsSpace(text);
    if s[0] == '}' {
      assert s == "}" + s[1..];
    } else {
      assert s == "," + s[1..];
      ParsedAreFields(s[1..]);
    }
  }

  lemma {:induction false} ParsedIsField(text: string)
    requires ParseField(text).Some?
    ensures
      var (f, rest) := ParseField(text).value;
      IsField(f, SkipSpace(text), rest)
    decreases |text|, 3
  {
    var s := SkipSpace(text);
    var (key, colon) := ParseString(s[1..]).value;
    var t := SkipSpace(colon);
    var (f, rest) := ParseField(text).value;
    ParseStringExactly(s, key, colon);
    SkipsSpace(colon);
    assert t == ":" + t[1..];
    ParsedIsValue(t[1..]);
    SkipsSpace(t[1..]);
    assert Spaced(t[1..], SkipSpace(t[1..])) && IsValue(f.value, SkipSpace(t[1..]), rest);
  }

  // ------------------------------------------------------------- both directions

  /** The parser reads a value, and leaves the text after it, exactly when the
      grammar says so; a number is read to its end. */
  lemma ParseValueExactly(text: string, v: Json, rest: string)
    ensures ParseValue(text) == Some((v, rest)) <==>
            IsValue(v, SkipSpace(text), rest) && (IsNumeric(v) ==> Delimited(rest))
  {
    if ParseValue(text) == Some((v, rest)) {
      ParsedIsValue(text);
    }
    if IsValue(v, SkipSpace(text), rest) && (IsNumeric(v) ==> Delimited(rest)) {
      GrammarIsParsed(v, SkipSpace(text), rest);
      SkipTwice(text);
      ParseAfterSpace(text, SkipSpace(text));
    }
  }

  /** The accepted texts are exactly the documents of the grammar, and each is
      read as the tree that it is a document of. */
  lemma ParseExactly(text: string, v: Json)
    ensures Parse(text) == Some(v) <==> IsDocument(v, text)
  {
    if Parse(text) == Some(v) {
      var rest := ParseValue(text).value.1;
      ParseValueExactly(text, v, rest);
      SkipsSpace(text);
      OnlySpace(rest);
      assert IsValue(v, SkipSpace(text), rest);
    }
    if value, rest :| Spaced(text, value) && IsValue(v, value, rest) && AllSpace(rest) {
      GrammarIsParsed(v, value, rest);
      SkipToToken(text, value);
      ParseAfterSpace(text, value);
      OnlySpace(rest);
    }
  }

  // --------------------------------------------------------------- printing

  lemma {:induction false} IndentIsTwoSpaces(level: nat, rest: string)
    ensures Indent(level, rest) == seq(2 * level, i => ' ') + rest
  {
    if level > 0 {
      IndentIsTwoSpaces(level - 1, rest);
      assert seq(2 * level, i => ' ') == "  " + seq(2 * (level - 1), i => ' ');
    }
  }

  /** Every line of the pretty layout starts with two spaces a level, and the
      compact layout has no lines; either way the grammar ignores it. */
  lemma NewlineIsSpace(layout: Layout, level: nat, rest: string)
    ensures Spaced(Newline(layout, level, rest), rest)
    ensures Newline(layout, level, rest) ==
            if layout == Compact then rest else "\n" + seq(2 * level, i => ' ') + rest
  {
    IndentIsTwoSpaces(level, rest);
    if layout == Pretty {
      var space := "\n" + seq(2 * level, i => ' ');
      assert Newline(layout, level, rest) == space + rest;
      assert (space + rest)[..|space|] == space && (space + rest)[|space|..] == rest;
    }
  }

  /** The spellings that the printer chooses. */
  function Escaped(s: string): seq<string> {
    seq(|s|, i requires 0 <= i < |s| => EscapeChar(s[i]))
  }

  lemma EscapeSpells(c: char)
    ensures Spells(EscapeChar(c), c)
  {
    var e := EscapeChar(c);
    if |e| == 6 {
      var n := c as int;
      assert e[2..] == ['0', '0', Hex.Digit(n / 16), Hex.Digit(n % 16)];
    }
  }

  lemma {:induction false} PrintStringIsSpelled(s: string, rest: string)
    ensures PrintString(s, rest) == Spelled(Escaped(s), rest)
  {
    if s != "" {
      PrintStringIsSpelled(s[1..], rest);
      assert Escaped(s)[1..] == Escaped(s[1..]);
    }
  }

  lemma PrintedString(s: string, rest: string)
    ensures IsString(s, "\"" + PrintString(s, rest), rest)
  {
    forall i | 0 <= i < |s|
      ensures Spells(Escaped(s)[i], s[i])
    {
      EscapeSpells(s[i]);
    }
    PrintStringIsSpelled(s, rest);
    assert SpellsAll(Escaped(s), s);
  }

  /** A printed string is read back. */
  lemma ParsePrintString(s: string, rest: string)
    ensures ParseString(PrintString(s, rest)) == Some((s, rest))
  {
    PrintedString(s, rest);
    ParseStringExactly("\"" + PrintString(s, rest), s, rest);
    assert ("\"" + PrintString(s, rest))[1..] == PrintString(s, rest);
  }

  lemma PrintedNumber(n: nat, rest: string)
    ensures IsValue(Number(n), Decimal.PrintTo(n, rest), rest)
  {
    Decimal.PrintToSplits(n, rest);
    Decimal.PrintShape(n);
    Decimal.ParsePrint(n);
    assert Decimal.IsDigit(Decimal.Print(n)[0]);
    assert IsNatural(Decimal.Print(n));
  }

  /** What is printed is in the grammar. */
  lemma {:induction false} PrintedValue(v: Json, layout: Layout, level: nat, rest: string)
    ensures IsValue(v, PrintTo(v, layout, level, rest), rest)
    decreases v, 1
  {
    match v {
      case Null =>
      case Bool(b) =>
      case Number(n) => PrintedNumber(n, rest);
      case OtherNumber(literal) =>
      case String(s) => PrintedString(s, rest);
      case Array(items) =>
        if items == [] {
          assert ("[" + ("]" + rest))[1..] == "]" + rest;
        } else {
          var inner := PrintItems(items, layout, level, rest);
          var after := Newline(layout, level + 1, inner);
          NewlineIsSpace(layout, level + 1, inner);
          PrintedItems(items, layout, level, after, rest);
          assert ("[" + after)[1..] == after;
        }
      case Object(fields) =>
        if fields == [] {
          assert ("{" + ("}" + rest))[1..] == "}" + rest;
        } else {
          var inner := PrintFields(fields, layout, level, rest);
          var after := Newline(layout, level + 1, inner);
          NewlineIsSpace(layout, level + 1, inner);
          PrintedFields(fields, layout, level, after, rest);
          assert ("{" + after)[1..] == after;
        }
    }
  }

  lemma {:induction false} PrintedItems(items: seq<Json>, layout: Layout, level: nat, text: string, rest: string)
    requires items != [] && Spaced(text, PrintItems(items, layout, level, rest))
    ensures IsItems(items, text, rest)
    decreases items, 0
  {
    var left := PrintMoreItems(items[1..], layout, level, rest);
    PrintedValue(items[0], layout, level + 1, left);
    PrintedMoreItems(items[1..], layout, level, rest);
  }

  lemma {:induction false} PrintedMoreItems(items: seq<Json>, layout: Layout, level: nat, rest: string)
    ensures IsMoreItems(items, PrintMoreItems(items, layout, level, rest), rest)
    decreases items, 1
  {
    if items == [] {
      NewlineIsSpace(layout, level, "]" + rest);
    } else {
      var next := Newline(layout, level + 1, PrintItems(items, layout, level, rest));
      NewlineIsSpace(layout, level + 1, PrintItems(items, layout, level, rest));
      PrintedItems(items, layout, level, next, rest);
      assert Spaced("," + next, "," + next);
    }
  }

  lemma {:induction false} PrintedFields(
    fields: seq<Field>, layout: Layout, level: nat, text: string, rest: string)
    requires fields != [] && Spaced(text, PrintFields(fields, layout, level, rest))
    ensures IsFields(fields, text, rest)
    decreases fields, 0
  {
    var left := PrintMoreFields(fields[1..], layout, level, rest);
    PrintedField(fields[0], layout, level + 1, left);
    PrintedMoreFields(fields[1..], layout, level, rest);
  }

  lemma {:induction false} PrintedMoreFields(fields: seq<Field>, layout: Layout, level: nat, rest: string)
    ensures IsMoreFields(fields, PrintMoreFields(fields, layout, level, rest), rest)
    decreases fields, 1
  {
    if fields == [] {
      NewlineIsSpace(layout, level, "}" + rest);
    } else {
      var next := Newline(layout, level + 1, PrintFields(fields, layout, level, rest));
      NewlineIsSpace(layout, level + 1, PrintFields(fields, layout, level, rest));
      PrintedFields(fields, layout, level, next, rest);
      assert Spaced("," + next, "," + next);
    }
  }

  lemma {:induction false} PrintedField(field: Field, layout: Layout, level: nat, rest: string)
    ensures IsField(field, PrintField(field, layout, level, rest), rest)
    decreases field, 0
  {
    var value := PrintTo(field.value, layout, level, rest);
    var after := if layout == Compact then value else " " + value;
    assert Colon(layout, value) == ":" + after;
    PrintedString(field.key, ":" + after);
    PrintedValue(field.value, layout, level, rest);
    assert Spaced(":" + after, ":" + after) && Spaced(after, value);
  }

  /** Parsing undoes printing, at any depth and in front of any text that a
      number does not run into. */
  lemma ParsePrintTo(v: Json, layout: Layout, level: nat, rest: string)
    requires Delimited(rest)
    ensures ParseValue(PrintTo(v, layout, level, rest)) == Some((v, rest))
  {
    PrintedValue(v, layout, level, rest);
    GrammarIsParsed(v, PrintTo(v, layout, level, rest), rest);
  }

  /** Parsing undoes printing. */
  lemma ParsePrint(v: Json, layout: Layout)
    ensures Parse(Print(v, layout)) == Some(v)
  {
    ParsePrintTo(v, layout, 0, "");
  }

  lemma PrintInjective(v: Json, w: Json, layout: Layout)
    requires Print(v, layout) == Print(w, layout)
    ensures v == w
  {
    ParsePrint(v, layout);
    ParsePrint(w, layout);
  }

  /** White space around a document is ignored, and anything else after it is
      an error. */
  lemma ParseSurrounded(v: Json, layout: Layout, before: string, after: string)
    requires AllSpace(before) && Delimited(after)
    ensures Parse(before + PrintTo(v, layout, 0, after)) == if AllSpace(after) then Some(v) else None
  {
    var printed := PrintTo(v, layout, 0, after);
    ParsePrintTo(v, layout, 0, after);
    assert (before + printed)[..|before|] == before && (before + printed)[|before|..] == printed;
    SkipSpaced(before + printed, printed);
    ParseAfterSpace(before + printed, printed);
    OnlySpace(after);
  }
}
