/** What the string functions return, apart from how they find it. */
module StringsLaws {
  import opened Common
  import opened Strings

  /** The characters with Unicode's White_Space property. */
  const WHITE_SPACE :=
    "\t\n\U{B}\U{C}\r \U{85}\U{A0}\U{1680}\U{2000}\U{2001}\U{2002}\U{2003}\U{2004}\U{2005}\U{2006}"
    + "\U{2007}\U{2008}\U{2009}\U{200A}\U{2028}\U{2029}\U{202F}\U{205F}\U{3000}"

  lemma WhitespaceExactly(c: char)
    ensures IsWhitespace(c) <==> c in WHITE_SPACE
  {
  }

  predicate AllWhite(s: string) {
    forall i | 0 <= i < |s| :: IsWhitespace(s[i])
  }

  predicate AllAre(s: string, c: char) {
    forall i | 0 <= i < |s| :: s[i] == c
  }

  // ----------------------------------------------------------------- trimming

  lemma {:induction false} LeadingWhite(s: string) returns (a: string)
    ensures AllWhite(a) && s == a + TrimStart(s)
  {
    if s != "" && IsWhitespace(s[0]) {
      var rest := LeadingWhite(s[1..]);
      a := [s[0]] + rest;
      assert s == [s[0]] + s[1..];
    } else {
      a := "";
    }
  }

  lemma {:induction false} TrailingWhite(s: string) returns (b: string)
    ensures AllWhite(b) && s == TrimEnd(s) + b
    decreases |s|
  {
    if s != "" && IsWhitespace(s[|s| - 1]) {
      var front := TrailingWhite(s[..|s| - 1]);
      b := front + [s[|s| - 1]];
      assert s == s[..|s| - 1] + [s[|s| - 1]];
    } else {
      b := "";
    }
  }

  lemma {:induction false} TrimStartOver(a: string, s: string)
    requires AllWhite(a)
    ensures TrimStart(a + s) == TrimStart(s)
  {
    if a == "" {
      assert a + s == s;
    } else {
      TrimStartOver(a[1..], s);
      assert (a + s)[1..] == a[1..] + s;
    }
  }

  lemma TrimEndLast(s: string, c: char)
    requires IsWhitespace(c)
    ensures TrimEnd(s + [c]) == TrimEnd(s)
  {
    assert (s + [c])[..|s|] == s;
  }

  lemma {:induction false} TrimEndOver(s: string, b: string)
    requires AllWhite(b)
    ensures TrimEnd(s + b) == TrimEnd(s)
    decreases |b|
  {
    if b == "" {
      assert s + b == s;
    } else {
      var front, last := b[..|b| - 1], b[|b| - 1];
      assert s + b == (s + front) + [last];
      TrimEndLast(s + front, last);
      TrimEndOver(s, front);
    }
  }

  /** `s` is `r` with white space around it. */
  ghost predicate Surrounded(s: string, r: string) {
    exists a, b :: AllWhite(a) && AllWhite(b) && s == a + (r + b)
  }

  lemma TrimSplits(s: string)
    ensures Surrounded(s, Trim(s))
  {
    var t := TrimStart(s);
    var a := LeadingWhite(s);
    var b := TrailingWhite(t);
    assert s == a + (TrimEnd(t) + b);
  }

  lemma TrimSurrounded(a: string, r: string, b: string)
    requires AllWhite(a) && AllWhite(b) && Trimmed(r)
    ensures Trim(a + (r + b)) == r
  {
    TrimStartOver(a, r + b);
    if r == "" {
      assert r + b == b && b + "" == b;
      TrimStartOver(b, "");
    } else {
      assert (r + b)[0] == r[0];
      TrimEndOver(r, b);
      assert TrimEnd(r) == r;
    }
  }

  /** Trimming takes off the white space at both ends and nothing else. */
  lemma TrimExactly(s: string, r: string)
    ensures Trim(s) == r <==> Trimmed(r) && Surrounded(s, r)
  {
    TrimSplits(s);
    if Trimmed(r) && Surrounded(s, r) {
      var a, b :| AllWhite(a) && AllWhite(b) && s == a + (r + b);
      TrimSurrounded(a, r, b);
    }
  }

  lemma {:induction false} TrimMatchesSplits(s: string, c: char) returns (a: string, b: string)
    ensures AllAre(a, c) && AllAre(b, c) && s == a + (TrimMatches(s, c) + b)
    ensures TrimMatches(TrimMatches(s, c), c) == TrimMatches(s, c)
    decreases |s|
  {
    if s != "" && s[0] == c {
      a, b := TrimMatchesSplits(s[1..], c);
      a := [c] + a;
    } else if s != "" && s[|s| - 1] == c {
      a, b := TrimMatchesSplits(s[..|s| - 1], c);
      b := b + [c];
    } else {
      a, b := "", "";
    }
  }

  lemma {:induction false} TrimMatchesLeft(a: string, s: string, c: char)
    requires AllAre(a, c)
    ensures TrimMatches(a + s, c) == TrimMatches(s, c)
  {
    if a == "" {
      assert a + s == s;
    } else {
      assert (a + s)[1..] == a[1..] + s;
      TrimMatchesLeft(a[1..], s, c);
    }
  }

  lemma {:induction false} TrimMatchesLast(s: string, c: char)
    ensures TrimMatches(s + [c], c) == TrimMatches(s, c)
    decreases |s|
  {
    if s == "" {
    } else if s[0] == c {
      assert (s + [c])[1..] == s[1..] + [c];
      TrimMatchesLast(s[1..], c);
    } else {
      assert (s + [c])[..|s|] == s;
    }
  }

  lemma {:induction false} TrimMatchesRight(s: string, b: string, c: char)
    requires AllAre(b, c)
    ensures TrimMatches(s + b, c) == TrimMatches(s, c)
    decreases |b|
  {
    if b == "" {
      assert s + b == s;
    } else {
      var front := b[..|b| - 1];
      assert s + b == (s + front) + [c];
      TrimMatchesLast(s + front, c);
      TrimMatchesRight(s, front, c);
    }
  }

  /** The same for one character in place of white space. */
  lemma TrimMatchesExactly(s: string, c: char, r: string)
    ensures TrimMatches(s, c) == r <==>
            && (r == "" || (r[0] != c && r[|r| - 1] != c))
            && exists a, b :: AllAre(a, c) && AllAre(b, c) && s == a + (r + b)
  {
    var a, b := TrimMatchesSplits(s, c);
    if r == "" || (r[0] != c && r[|r| - 1] != c) {
      if a, b :| AllAre(a, c) && AllAre(b, c) && s == a + (r + b) {
        TrimMatchesLeft(a, r + b, c);
        TrimMatchesRight(r, b, c);
      }
    }
  }

  // -------------------------------------------------------------------- lines

  /** A carriage return at the end of a line belongs to its ending. */
  function WithoutReturn(line: string): string {
    if line != "" && line[|line| - 1] == '\r' then line[..|line| - 1] else line
  }

  /** Lines end at line feeds; a last one that does not counts if it is not
      empty, and keeps its carriage return. */
  lemma LinesExactly(line: string, rest: string)
    requires '\n' !in line
    ensures Lines(line) == if line == "" then [] else [line]
    ensures Lines(line + ['\n'] + rest) == [WithoutReturn(line)] + Lines(rest)
  {
    BeforeOf(line, '\n', rest);
    assert (line + ['\n'] + rest)[|line| + 1..] == rest;
  }
}
