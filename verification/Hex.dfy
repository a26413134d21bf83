/** Hexadecimal text as `hex::encode` writes and `hex::decode` reads it. */
module Hex {
  import opened Common

  function Digit(n: nat): (c: char)
    requires n < 16
    ensures Value(c) == Some(n)
  {
    if n < 10 then (n + '0' as int) as char else (n - 10 + 'a' as int) as char
  }

  /** Upper and lower case are both read. */
  function Value(c: char): (r: Option<nat>)
    ensures r.Some? ==> r.value < 16
  {
    if '0' <= c <= '9' then Some(c as int - '0' as int)
    else if 'a' <= c <= 'f' then Some(c as int - 'a' as int + 10)
    else if 'A' <= c <= 'F' then Some(c as int - 'A' as int + 10)
    else None
  }

  predicate IsHexDigit(c: char) {
    Value(c).Some?
  }

  predicate AllHexDigits(s: string) {
    forall i | 0 <= i < |s| :: IsHexDigit(s[i])
  }

  /** `hex::encode`: two lowercase digits a byte. */
  function Encode(b: bytes): (s: string)
    ensures |s| == 2 * |b|
  {
    if b == [] then "" else [Digit(b[0] / 16), Digit(b[0] % 16)] + Encode(b[1..])
  }

  /** `hex::decode`: odd lengths and other characters are refused. */
  function Decode(s: string): (r: Option<bytes>)
    ensures r.Some? ==> 2 * |r.value| == |s|
  {
    if s == "" then Some([])
    else if |s| == 1 then None
    else
      var high :- Value(s[0]);
      var low :- Value(s[1]);
      var rest :- Decode(s[2..]);
      Some([high * 16 + low] + rest)
  }

  lemma DecodePair(a: char, b: char, rest: string)
    ensures Decode([a, b] + rest) ==
            if !IsHexDigit(a) || !IsHexDigit(b) || Decode(rest).None? then None
            else Some([Value(a).value * 16 + Value(b).value] + Decode(rest).value)
  {
    assert ([a, b] + rest)[2..] == rest;
  }

  lemma DecodeFour(a: char, b: char, c: char, d: char)
    ensures Decode([a, b, c, d]) ==
            if !IsHexDigit(a) || !IsHexDigit(b) || !IsHexDigit(c) || !IsHexDigit(d) then None
            else Some([Value(a).value * 16 + Value(b).value, Value(c).value * 16 + Value(d).value])
  {
    assert [a, b, c, d] == [a, b] + [c, d] && [c, d] == [c, d] + "";
    DecodePair(a, b, [c, d]);
    DecodePair(c, d, "");
    if IsHexDigit(a) && IsHexDigit(b) && IsHexDigit(c) && IsHexDigit(d) {
      var high: byte := Value(a).value * 16 + Value(b).value;
      var low: byte := Value(c).value * 16 + Value(d).value;
      var none: bytes := [];
      assert Decode([c, d]) == Some([low] + none) && [low] + none == [low];
      assert [high] + [low] == [high, low];
    }
  }

  function LowerChar(c: char): char {
    if 'A' <= c <= 'F' then (c as int + 32) as char else c
  }

  function Lower(s: string): string {
    if s == "" then "" else [LowerChar(s[0])] + Lower(s[1..])
  }

  lemma {:induction false} LowerLength(s: string)
    ensures |Lower(s)| == |s|
  {
    if s != "" {
      LowerLength(s[1..]);
    }
  }

  /** The digits of each byte, the high one first, and lowercase. */
  lemma {:induction false} EncodeAt(b: bytes, k: nat)
    requires k < |b|
    ensures Encode(b)[2 * k] == "0123456789abcdef"[b[k] / 16]
    ensures Encode(b)[2 * k + 1] == "0123456789abcdef"[b[k] % 16]
  {
    if k == 0 {
      DigitAt(b[0] / 16);
      DigitAt(b[0] % 16);
    } else {
      EncodeAt(b[1..], k - 1);
      assert Encode(b)[2..] == Encode(b[1..]);
    }
  }

  lemma DigitAt(n: nat)
    requires n < 16
    ensures Digit(n) == "0123456789abcdef"[n]
  {
    if n < 10 {
      assert "0123456789abcdef"[n] == ('0' as int + n) as char;
    } else {
      assert "0123456789abcdef"[n] == ('a' as int + n - 10) as char;
    }
  }

  /** The digits that are read, and what lowering does to each character. */
  lemma DigitsInEitherCase(s: string, k: nat)
    requires k < |s|
    ensures IsHexDigit(s[k]) <==> s[k] in "0123456789abcdefABCDEF"
    ensures |Lower(s)| == |s|
    ensures Lower(s)[k] == if s[k] in "ABCDEF" then "abcdef"[s[k] as int - 'A' as int] else s[k]
  {
    LowerLength(s);
    if k > 0 {
      DigitsInEitherCase(s[1..], k - 1);
    }
  }

  lemma {:induction false} DecodeEncode(b: bytes)
    ensures Decode(Encode(b)) == Some(b)
  {
    if b == [] {
    } else {
      DecodeEncode(b[1..]);
      assert Encode(b)[2..] == Encode(b[1..]);
      assert b[0] / 16 * 16 + b[0] % 16 == b[0];
      assert [b[0]] + b[1..] == b;
    }
  }

  lemma EncodePair(high: char, low: char, rest: bytes)
    requires IsHexDigit(high) && IsHexDigit(low)
    ensures Encode([Value(high).value * 16 + Value(low).value] + rest)
            == [LowerChar(high), LowerChar(low)] + Encode(rest)
  {
    var b: byte := Value(high).value * 16 + Value(low).value;
    assert b / 16 == Value(high).value && b % 16 == Value(low).value;
    assert ([b] + rest)[1..] == rest;
  }

  /** What decodes: an even number of digits, in either case. */
  lemma {:induction false} DecodesExactly(s: string)
    ensures Decode(s).Some? <==> |s| % 2 == 0 && AllHexDigits(s)
  {
    if |s| >= 2 {
      DecodesExactly(s[2..]);
      assert s == [s[0], s[1]] + s[2..];
      assert AllHexDigits(s) <==> IsHexDigit(s[0]) && IsHexDigit(s[1]) && AllHexDigits(s[2..]);
    }
  }

  /** Only the case of the digits is lost in decoding. */
  lemma {:induction false} EncodeDecode(s: string)
    requires Decode(s).Some?
    ensures Encode(Decode(s).value) == Lower(s)
  {
    if s == "" {
    } else {
      EncodeDecode(s[2..]);
      EncodePair(s[0], s[1], Decode(s[2..]).value);
      LowerPair(s);
    }
  }

  lemma TwoInFront(a: char, b: char, rest: string)
    ensures [a] + ([b] + rest) == [a, b] + rest
  {
  }

  lemma LowerPair(s: string)
    requires |s| >= 2
    ensures Lower(s) == [LowerChar(s[0]), LowerChar(s[1])] + Lower(s[2..])
  {
    assert s[1..][1..] == s[2..];
    TwoInFront(LowerChar(s[0]), LowerChar(s[1]), Lower(s[2..]));
  }

  /** The texts of given bytes: their digits, in either case. */
  lemma DecodesTo(s: string, b: bytes)
    ensures Decode(s) == Some(b) <==> AllHexDigits(s) && Lower(s) == Encode(b)
  {
    DecodesExactly(s);
    LowerLength(s);
    if Decode(s).Some? {
      EncodeDecode(s);
      if Lower(s) == Encode(b) {
        EncodeInjective(Decode(s).value, b);
      }
    }
  }

  lemma EncodeInjective(a: bytes, b: bytes)
    requires Encode(a) == Encode(b)
    ensures a == b
  {
    DecodeEncode(a);
    DecodeEncode(b);
  }

  /** An optional `0x` never eats digits: text that already decodes is not
      changed by stripping, and adding the prefix changes nothing. */
  lemma PrefixIsOptional(s: string)
    requires Decode(s).Some?
    ensures StripPrefix(s, "0x") == s
    ensures StripPrefix("0x" + s, "0x") == s
  {
    DecodesExactly(s);
    if |s| >= 2 {
      assert IsHexDigit(s[1]);
      assert s[..2][1] == s[1];
    }
    StripPrefixed("0x", s);
  }
}
