/** The parts of `str` that the configuration parsers use. */
module Strings {
  import opened Common

  /** `char::is_whitespace`: Unicode's White_Space property. */
  predicate IsWhitespace(c: char) {
    || '\t' <= c <= '\r' || c == ' ' || c == '\U{85}' || c == '\U{A0}' || c == '\U{1680}'
    || '\U{2000}' <= c <= '\U{200A}' || c == '\U{2028}' || c == '\U{2029}' || c == '\U{202F}'
    || c == '\U{205F}' || c == '\U{3000}'
  }

  function TrimStart(s: string): (r: string)
    ensures |r| <= |s|
    ensures r != "" ==> !IsWhitespace(r[0])
  {
    if s != "" && IsWhitespace(s[0]) then TrimStart(s[1..]) else s
  }

  function TrimEnd(s: string): (r: string)
    ensures |r| <= |s| && r == s[..|r|]
    ensures r != "" ==> !IsWhitespace(r[|r| - 1])
  {
    if s != "" && IsWhitespace(s[|s| - 1]) then TrimEnd(s[..|s| - 1]) else s
  }

  /** No white space at either end. */
  predicate Trimmed(s: string) {
    s == "" || (!IsWhitespace(s[0]) && !IsWhitespace(s[|s| - 1]))
  }

  function Trim(s: string): (r: string)
    ensures Trimmed(r)
    ensures Trimmed(s) <==> r == s
  {
    TrimEnd(TrimStart(s))
  }

  /** `s.trim_matches(c)`: every `c` at either end goes. */
  function TrimMatches(s: string, c: char): (r: string)
    ensures |r| <= |s|
    ensures r == s <==> s == "" || (s[0] != c && s[|s| - 1] != c)
  {
    if s != "" && s[0] == c then TrimMatches(s[1..], c)
    else if s != "" && s[|s| - 1] == c then TrimMatches(s[..|s| - 1], c)
    else s
  }

  /** The text before the first `c`: all of it when there is none. */
  function Before(s: string, c: char): (r: string)
    ensures |r| <= |s| && r == s[..|r|]
    ensures c !in r
    ensures |r| < |s| ==> s[|r|] == c
    ensures c in s <==> |r| < |s|
  {
    if s == "" || s[0] == c then "" else [s[0]] + Before(s[1..], c)
  }

  lemma {:induction false} BeforeOf(head: string, c: char, rest: string)
    requires c !in head
    ensures Before(head, c) == head
    ensures Before(head + [c] + rest, c) == head
  {
    if head == "" {
    } else {
      assert forall x | x in head[1..] :: x in head;
      BeforeOf(head[1..], c, rest);
      assert (head + [c] + rest)[1..] == head[1..] + [c] + rest;
      assert head == [head[0]] + head[1..];
    }
  }

  /** `s.split(c)`. */
  function Split(s: string, c: char): (parts: seq<string>)
    ensures parts != []
    ensures forall part | part in parts :: c !in part
    decreases |s|
  {
    var head := Before(s, c);
    if |head| == |s| then [s] else [head] + Split(s[|head| + 1..], c)
  }

  /** `s.lines()`: a line ends at a line feed, which takes one carriage return
      in front of it along; the last line may lack it. */
  function Lines(s: string): seq<string>
    decreases |s|
  {
    if s == "" then []
    else
      var line := Before(s, '\n');
      if |line| == |s| then [s]
      else
        [if line != "" && line[|line| - 1] == '\r' then line[..|line| - 1] else line]
        + Lines(s[|line| + 1..])
  }
}
