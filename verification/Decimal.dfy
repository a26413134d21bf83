/** Decimal text of natural numbers: what `format!("{}", n)` and the JSON
    printer write, and how such text is read. */
module Decimal {
  import opened Common

  predicate IsDigit(c: char) {
    '0' <= c <= '9'
  }

  predicate AllDigits(s: string) {
    forall i | 0 <= i < |s| :: IsDigit(s[i])
  }

  function Digit(n: nat): (c: char)
    requires n < 10
    ensures IsDigit(c) && c as int - '0' as int == n
  {
    (n + '0' as int) as char
  }

  /** The decimal digits of `n` in front of `rest`. */
  function PrintTo(n: nat, rest: string): string {
    if n < 10 then [Digit(n)] + rest else PrintTo(n / 10, [Digit(n % 10)] + rest)
  }

  function Print(n: nat): string {
    PrintTo(n, "")
  }

  /** Reads digits from the left, `acc` being the value of those already read. */
  function Read(s: string, acc: nat): nat
    requires AllDigits(s)
  {
    if s == "" then acc
    else
      assert IsDigit(s[0]);
      Read(s[1..], acc * 10 + (s[0] as int - '0' as int))
  }

  /** `s.parse::<usize>()` without its upper bound: some digits and nothing else. */
  function Parse(s: string): Option<nat> {
    if s != "" && AllDigits(s) then Some(Read(s, 0)) else None
  }

  lemma {:induction false} PrintToSplits(n: nat, rest: string)
    ensures PrintTo(n, rest) == Print(n) + rest
  {
    if n < 10 {
    } else {
      PrintToSplits(n / 10, [Digit(n % 10)] + rest);
      PrintToSplits(n / 10, [Digit(n % 10)] + "");
    }
  }

  /** Digits only, at least one, and no leading zero but that of zero itself. */
  lemma {:induction false} PrintShape(n: nat)
    ensures Print(n) != "" && AllDigits(Print(n))
    ensures Print(n)[0] == '0' <==> n == 0
    ensures n == 0 ==> Print(n) == "0"
  {
    if n < 10 {
    } else {
      PrintShape(n / 10);
      PrintToSplits(n / 10, [Digit(n % 10)] + "");
    }
  }

  /** What is printed, digit by digit: base ten, the last digit last. */
  lemma PrintExactly(n: nat, d: nat)
    requires d < 10
    ensures Print(d) == ["0123456789"[d]]
    ensures n > 0 ==> Print(n * 10 + d) == Print(n) + ["0123456789"[d]]
  {
    assert Digit(d) == "0123456789"[d];
    if n > 0 {
      assert (n * 10 + d) / 10 == n && (n * 10 + d) % 10 == d;
      PrintToSplits(n, [Digit(d)] + "");
    }
  }

  lemma {:induction false} ReadAppends(s: string, c: char, acc: nat)
    requires AllDigits(s) && IsDigit(c)
    ensures AllDigits(s + [c]) && Read(s + [c], acc) == Read(s, acc) * 10 + (c as int - '0' as int)
  {
    if s == "" {
      assert s + [c] == [c];
      var none: string := [c][1..];
      assert none == "";
    } else {
      assert (s + [c])[1..] == s[1..] + [c];
      ReadAppends(s[1..], c, acc * 10 + (s[0] as int - '0' as int));
    }
  }

  /** The text of a number that has no leading zeros is the printed one. */
  lemma {:induction false} PrintParsed(s: string)
    requires s != "" && AllDigits(s) && (s[0] == '0' ==> |s| == 1)
    ensures Parse(s).Some? && Print(Parse(s).value) == s
  {
    var head, c := s[..|s| - 1], s[|s| - 1];
    var d := c as int - '0' as int;
    assert s == head + [c];
    assert c == "0123456789"[d];
    ReadAppends(head, c, 0);
    if head == "" {
      PrintExactly(0, d);
    } else {
      PrintParsed(head);
      PrintShape(Parse(head).value);
      PrintExactly(Parse(head).value, d);
    }
  }

  lemma {:induction false} ReadPrintTo(n: nat, rest: string)
    requires AllDigits(rest)
    ensures AllDigits(PrintTo(n, rest))
    ensures Read(PrintTo(n, rest), 0) == Read(rest, n)
  {
    if n < 10 {
    } else {
      var digit := [Digit(n % 10)];
      ReadPrintTo(n / 10, digit + rest);
      assert (digit + rest)[1..] == rest;
    }
  }

  lemma ParsePrint(n: nat)
    ensures Parse(Print(n)) == Some(n)
  {
    PrintShape(n);
    ReadPrintTo(n, "");
  }
}
