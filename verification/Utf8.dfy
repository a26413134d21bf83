/** UTF-8 (RFC 3629): how a Rust `String` becomes bytes and back. */
module Utf8 {
  import opened Common

  function EncodeChar(c: char): bytes {
    var n := c as int;
    if n < 0x80 then [n]
    else if n < 0x800 then [0xC0 + n / 64, 0x80 + n % 64]
    else if n < 0x1_0000 then [0xE0 + n / 4096, 0x80 + n / 64 % 64, 0x80 + n % 64]
    else [0xF0 + n / 262144, 0x80 + n / 4096 % 64, 0x80 + n / 64 % 64, 0x80 + n % 64]
  }

  /** `s.as_bytes()`. */
  function Encode(s: string): bytes {
    if s == "" then [] else EncodeChar(s[0]) + Encode(s[1..])
  }

  predicate IsContinuation(b: byte) {
    0x80 <= b < 0xC0
  }

  /** The low six bits of a continuation byte. */
  function Low(b: byte): int {
    b as int - 0x80
  }

  function Scalar2(a: byte, b: byte): int {
    (a as int - 0xC0) * 64 + Low(b)
  }

  function Scalar3(a: byte, b: byte, c: byte): int {
    (a as int - 0xE0) * 4096 + Low(b) * 64 + Low(c)
  }

  function Scalar4(a: byte, b: byte, c: byte, d: byte): int {
    (a as int - 0xF0) * 262144 + Low(b) * 4096 + Low(c) * 64 + Low(d)
  }

  predicate IsScalar(n: int) {
    0 <= n < 0xD800 || 0xE000 <= n < 0x11_0000
  }

  /** The scalar value a well-formed sequence starts with, and the length of its
      encoding. Overlong forms, surrogates and values past U+10FFFF are refused. */
  function DecodeChar(b: bytes): (r: Option<(char, nat)>)
    ensures r.Some? ==> 0 < r.value.1 <= |b|
  {
    if b == [] then None
    else if b[0] < 0x80 then Some((b[0] as char, 1))
    else if 0xC2 <= b[0] < 0xE0 && |b| >= 2 && IsContinuation(b[1]) then
      Some((Scalar2(b[0], b[1]) as char, 2))
    else if 0xE0 <= b[0] < 0xF0 && |b| >= 3 && IsContinuation(b[1]) && IsContinuation(b[2]) then
      var n := Scalar3(b[0], b[1], b[2]);
      if 0x800 <= n && IsScalar(n) then Some((n as char, 3)) else None
    else if 0xF0 <= b[0] < 0xF5 && |b| >= 4
            && IsContinuation(b[1]) && IsContinuation(b[2]) && IsContinuation(b[3]) then
      var n := Scalar4(b[0], b[1], b[2], b[3]);
      if 0x1_0000 <= n < 0x11_0000 then Some((n as char, 4)) else None
    else None
  }

  /** `str::from_utf8(b)`. */
  function Decode(b: bytes): Option<string> {
    if b == [] then Some("")
    else
      var (c, n) :- DecodeChar(b);
      var rest :- Decode(b[n..]);
      Some([c] + rest)
  }

  /** Section 3 of RFC 3629: how long the encoding of a scalar value is, the range
      of each of its bytes, and the bits of the value that each carries. */
  lemma EncodeCharExactly(c: char)
    ensures
      var n, e := c as int, EncodeChar(c);
      && (n < 0x80 ==> e == [n])
      && (0x80 <= n < 0x800 ==>
            |e| == 2 && 0xC2 <= e[0] < 0xE0 && 0x80 <= e[1] < 0xC0
            && n == (e[0] as int - 0xC0) * 64 + (e[1] as int - 0x80))
      && (0x800 <= n < 0x1_0000 ==>
            |e| == 3 && 0xE0 <= e[0] < 0xF0 && 0x80 <= e[1] < 0xC0 && 0x80 <= e[2] < 0xC0
            && n == ((e[0] as int - 0xE0) * 64 + (e[1] as int - 0x80)) * 64 + (e[2] as int - 0x80))
      && (0x1_0000 <= n ==>
            |e| == 4 && 0xF0 <= e[0] < 0xF5 && 0x80 <= e[1] < 0xC0 && 0x80 <= e[2] < 0xC0 && 0x80 <= e[3] < 0xC0
            && n == (((e[0] as int - 0xF0) * 64 + (e[1] as int - 0x80)) * 64 + (e[2] as int - 0x80)) * 64
                    + (e[3] as int - 0x80))
  {
    Digits(c as int);
  }

  /** Characters are encoded one after the other. */
  lemma {:induction false} EncodeAppends(s: string, t: string)
    ensures Encode(s + t) == Encode(s) + Encode(t)
    ensures |s| == 1 ==> Encode(s) == EncodeChar(s[0])
  {
    if s == "" {
      assert s + t == t;
    } else {
      EncodeAppends(s[1..], t);
      assert (s + t)[1..] == s[1..] + t;
      assert EncodeChar(s[0]) + (Encode(s[1..]) + Encode(t)) == EncodeChar(s[0]) + Encode(s[1..]) + Encode(t);
    }
  }

  /** The base-64 digits of a scalar value. */
  lemma Digits(n: nat)
    ensures n / 4096 == n / 64 / 64
    ensures n / 262144 == n / 4096 / 64
    ensures n == n / 64 * 64 + n % 64
    ensures n / 64 == n / 4096 * 64 + n / 64 % 64
    ensures n / 4096 == n / 262144 * 64 + n / 4096 % 64
  {
  }

  lemma DecodeCharEncodeChar(c: char, rest: bytes)
    ensures DecodeChar(EncodeChar(c) + rest) == Some((c, |EncodeChar(c)|))
  {
    var n := c as int;
    var e := EncodeChar(c);
    var b := e + rest;
    assert forall i | 0 <= i < |e| :: b[i] == e[i];
    Digits(n);
    if n < 0x80 {
    } else if n < 0x800 {
      assert Scalar2(e[0], e[1]) == n;
    } else if n < 0x1_0000 {
      assert Scalar3(e[0], e[1], e[2]) == n;
    } else {
      assert Scalar4(e[0], e[1], e[2], e[3]) == n;
    }
  }

  lemma {:induction false} DecodeEncode(s: string)
    ensures Decode(Encode(s)) == Some(s)
  {
    if s == "" {
    } else {
      var rest := Encode(s[1..]);
      DecodeCharEncodeChar(s[0], rest);
      assert (EncodeChar(s[0]) + rest)[|EncodeChar(s[0])|..] == rest;
      DecodeEncode(s[1..]);
      assert [s[0]] + s[1..] == s;
    }
  }

  lemma Shifted(high: int, low: int)
    requires 0 <= low < 64
    ensures (high * 64 + low) / 64 == high
    ensures (high * 64 + low) % 64 == low
  {
  }

  lemma EncodeScalar2(a: byte, b: byte)
    requires 0xC2 <= a < 0xE0 && IsContinuation(b)
    ensures EncodeChar(Scalar2(a, b) as char) == [a, b]
  {
    Shifted(a as int - 0xC0, Low(b));
  }

  lemma EncodeScalar3(a: byte, b: byte, c: byte)
    requires 0xE0 <= a < 0xF0 && IsContinuation(b) && IsContinuation(c)
    requires 0x800 <= Scalar3(a, b, c) && IsScalar(Scalar3(a, b, c))
    ensures EncodeChar(Scalar3(a, b, c) as char) == [a, b, c]
  {
    var n := Scalar3(a, b, c);
    var high := (a as int - 0xE0) * 64 + Low(b);
    assert n == high * 64 + Low(c);
    Shifted(high, Low(c));
    Shifted(a as int - 0xE0, Low(b));
    Digits(n);
  }

  lemma EncodeScalar4(a: byte, b: byte, c: byte, d: byte)
    requires 0xF0 <= a < 0xF5 && IsContinuation(b) && IsContinuation(c) && IsContinuation(d)
    requires 0x1_0000 <= Scalar4(a, b, c, d) < 0x11_0000
    ensures EncodeChar(Scalar4(a, b, c, d) as char) == [a, b, c, d]
  {
    var n := Scalar4(a, b, c, d);
    var top := (a as int - 0xF0) * 64 + Low(b);
    var high := top * 64 + Low(c);
    assert n == high * 64 + Low(d);
    Shifted(high, Low(d));
    Shifted(top, Low(c));
    Shifted(a as int - 0xF0, Low(b));
    Digits(n);
  }

  lemma EncodeCharDecodeChar(b: bytes)
    requires DecodeChar(b).Some?
    ensures EncodeChar(DecodeChar(b).value.0) == b[..DecodeChar(b).value.1]
  {
    var k := DecodeChar(b).value.1;
    if k == 2 {
      EncodeScalar2(b[0], b[1]);
    } else if k == 3 {
      EncodeScalar3(b[0], b[1], b[2]);
    } else if k == 4 {
      EncodeScalar4(b[0], b[1], b[2], b[3]);
    }
  }

  /** One step of decoding is undone by one step of encoding. */
  lemma EncodeDecodedHead(b: bytes)
    requires b != [] && Decode(b).Some?
    ensures
      var n := DecodeChar(b).value.1;
      Decode(b[n..]).Some? && Encode(Decode(b).value) == b[..n] + Encode(Decode(b[n..]).value)
  {
    var (c, n) := DecodeChar(b).value;
    var rest := Decode(b[n..]).value;
    EncodeCharDecodeChar(b);
    assert ([c] + rest)[1..] == rest;
  }

  /** Decoding is strict: only the encoding of a string decodes to it. */
  lemma {:induction false} EncodeDecode(b: bytes)
    requires Decode(b).Some?
    ensures Encode(Decode(b).value) == b
  {
    if b == [] {
    } else {
      var n := DecodeChar(b).value.1;
      EncodeDecode(b[n..]);
      EncodeDecodedHead(b);
    }
  }

  lemma EncodeInjective(s: string, t: string)
    requires Encode(s) == Encode(t)
    ensures s == t
  {
    DecodeEncode(s);
    DecodeEncode(t);
  }
}
