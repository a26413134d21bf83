/** What patching does to the environment, as a whole. */
module EnvLaws {
  import opened Common
  import opened Strings
  import opened Env
  import opened StringsLaws
  import Decimal

  function Get(vars: Vars, key: string): Option<string> {
    if key in vars then Some(vars[key]) else None
  }

  /** The value of the last entry for a key. */
  function Last(entries: seq<Entry>, key: string): Option<string> {
    if entries == [] then None
    else
      var later := Last(entries[1..], key);
      if later.None? && entries[0].key == key then Some(entries[0].value) else later
  }

  /** The entries in front of the first one that makes `set_var` panic. */
  function SettablePrefix(entries: seq<Entry>): (r: seq<Entry>)
    ensures |r| <= |entries| && r == entries[..|r|]
    ensures forall i | 0 <= i < |r| :: r[i].Settable()
    ensures |r| < |entries| ==> !entries[|r|].Settable()
  {
    if entries == [] || !entries[0].Settable() then []
    else [entries[0]] + SettablePrefix(entries[1..])
  }

  /** Whether patching panics, and the value of every variable afterwards. */
  lemma {:induction false} SetAllExactly(vars: Vars, entries: seq<Entry>, key: string)
    ensures SetAll(vars, entries).1 <==> SettablePrefix(entries) == entries
    ensures Get(SetAll(vars, entries).0, key) ==
            var last := Last(SettablePrefix(entries), key);
            if last.Some? then last else Get(vars, key)
    decreases |entries|
  {
    if entries == [] || !entries[0].Settable() {
    } else {
      var e := entries[0];
      SetAllExactly(vars[e.key := e.value], entries[1..], key);
      var prefix := SettablePrefix(entries);
      assert prefix[1..] == SettablePrefix(entries[1..]);
      assert [e] + entries[1..] == entries;
    }
  }

  /** Patching succeeds exactly when no name and no value has a NUL. */
  lemma PatchingSucceeds(vars: Vars, entries: seq<Entry>)
    ensures SetAll(vars, entries).1 <==> forall e | e in entries :: '\0' !in e.key && '\0' !in e.value
  {
    SetAllExactly(vars, entries, "");
    var prefix := SettablePrefix(entries);
    if prefix == entries {
      assert forall e | e in entries :: e.Settable();
    } else {
      assert !entries[|prefix|].Settable() && entries[|prefix|] in entries;
    }
  }

  predicate DigitLed(e: Entry) {
    e.key != "" && Decimal.IsDigit(e.key[0])
  }

  lemma EntryIsDigitLed(line: string)
    requires EntryOf(line).Some?
    ensures DigitLed(EntryOf(line).value)
  {
  }

  lemma {:induction false} EntriesAreDigitLed(lines: seq<string>)
    ensures forall e | e in Entries(lines) :: DigitLed(e)
  {
    if lines != [] {
      EntriesAreDigitLed(lines[1..]);
      if EntryOf(lines[0]).Some? {
        EntryIsDigitLed(lines[0]);
      }
    }
  }

  lemma {:induction false} LastIsAnEntry(entries: seq<Entry>, key: string)
    ensures Last(entries, key).Some? ==> Entry(key, Last(entries, key).value) in entries
  {
    if entries != [] {
      LastIsAnEntry(entries[1..], key);
    }
  }

  /** Only names that start with a digit are touched. */
  lemma OthersUnchanged(vars: Vars, contents: string, key: string)
    requires key == "" || !Decimal.IsDigit(key[0])
    ensures Get(Patched(vars, contents).0, key) == Get(vars, key)
  {
    var entries := Entries(Lines(contents));
    var prefix := SettablePrefix(entries);
    SetAllExactly(vars, entries, key);
    EntriesAreDigitLed(Lines(contents));
    LastIsAnEntry(prefix, key);
    assert forall e | e in prefix :: DigitLed(e);
  }

  /** Patching twice with one file is patching once. */
  lemma PatchedTwice(vars: Vars, contents: string)
    ensures Patched(Patched(vars, contents).0, contents) == Patched(vars, contents)
  {
    var entries := Entries(Lines(contents));
    var once := SetAll(vars, entries);
    var twice := SetAll(once.0, entries);
    SetAllExactly(vars, entries, "");
    SetAllExactly(once.0, entries, "");
    forall key: string
      ensures Get(once.0, key) == Get(twice.0, key)
    {
      SetAllExactly(vars, entries, key);
      SetAllExactly(once.0, entries, key);
    }
    SameVars(once.0, twice.0);
  }

  lemma SameVars(a: Vars, b: Vars)
    requires forall key: string :: Get(a, key) == Get(b, key)
    ensures a == b
  {
    assert forall key | key in a :: Get(b, key) == Get(a, key);
    assert forall key | key in b :: Get(a, key) == Get(b, key);
  }

  // ------------------------------------------------------------ written files

  datatype Quotes = Bare | Single | Double

  /** How someone may write an entry: the white space around it and around the
      equals sign, with or without `export`, in which quotes if any. */
  datatype Style = Style(
    lead: string, exported: bool, beforeEquals: string, afterEquals: string, quotes: Quotes, trail: string)

  datatype Written = Written(entry: Entry, style: Style)

  function ValueText(w: Written): string {
    match w.style.quotes
    case Bare => w.entry.value
    case Single => "'" + w.entry.value + "'"
    case Double => "\"" + w.entry.value + "\""
  }

  /** The name with what follows it, and the value with what precedes it. */
  function Assignment(w: Written): string {
    (w.entry.key + w.style.beforeEquals) + ['='] + (w.style.afterEquals + ValueText(w))
  }

  function Body(w: Written): string {
    (if w.style.exported then "export " else "") + Assignment(w)
  }

  function Line(w: Written): string {
    w.style.lead + Body(w) + w.style.trail
  }

  /** White space that stays on its line, a carriage return at its end included. */
  predicate IsSpacing(s: string) {
    AllWhite(s) && '\n' !in s
  }

  /** A name that a line can carry. */
  predicate IsName(key: string) {
    key != "" && Decimal.IsDigit(key[0]) && Trimmed(key) && '=' !in key
  }

  /** An entry written so that a line can carry it; a value that is empty or has
      white space at an end needs its quotes. */
  predicate Writable(w: Written) {
    && IsName(w.entry.key)
    && IsSpacing(w.style.lead) && IsSpacing(w.style.trail)
    && IsSpacing(w.style.beforeEquals) && IsSpacing(w.style.afterEquals)
    && (w.style.quotes != Bare || (w.entry.value != "" && Trimmed(w.entry.value)))
  }

  predicate HasAtEnd(value: string, c: char) {
    value != "" && (value[0] == c || value[|value| - 1] == c)
  }

  /** A value that is taken literally: it has no single quote at either end and,
      unless it stands in single quotes itself, no double quote either. */
  predicate Unmistakable(w: Written) {
    && !HasAtEnd(w.entry.value, '\'')
    && (w.style.quotes != Single ==> !HasAtEnd(w.entry.value, '"'))
  }

  // ----------------------------------------------------------------- trimming

  lemma TrimPadded(a: string, s: string, b: string)
    requires IsSpacing(a) && IsSpacing(b) && s != "" && Trimmed(s)
    ensures Trim(a + s + b) == s
  {
    assert a + s + b == a + (s + b);
    TrimExactly(a + s + b, s);
  }

  lemma TrimMatchesAround(s: string, c: char)
    ensures TrimMatches([c] + s + [c], c) == TrimMatches(s, c)
  {
    assert ([c] + s + [c])[1..] == s + [c];
    TrimMatchesLast(s, c);
  }

  lemma TrimQuotes(value: string)
    ensures TrimMatches(TrimMatches(value, '"'), '\'') == value <==>
            !HasAtEnd(value, '"') && !HasAtEnd(value, '\'')
  {
    var inner := TrimMatches(value, '"');
    if inner != value {
      TrimMatchesShortens(value, '"');
    }
  }

  lemma {:induction false} TrimMatchesShortens(s: string, c: char)
    requires TrimMatches(s, c) != s
    ensures |TrimMatches(s, c)| < |s|
    decreases |s|
  {
  }

  /** Quotes are stripped, double ones first, and so are those at the ends of
      what they enclose: when exactly a written value is recovered. */
  lemma UnquotedText(w: Written)
    requires Writable(w)
    ensures Unquoted(w.style.afterEquals + ValueText(w)) == w.entry.value <==> Unmistakable(w)
  {
    var value, text := w.entry.value, ValueText(w);
    assert w.style.afterEquals + text + "" == w.style.afterEquals + text;
    TrimPadded(w.style.afterEquals, text, "");
    TrimQuotes(value);
    if w.style.quotes == Double {
      assert text == ['"'] + value + ['"'];
      TrimMatchesAround(value, '"');
    } else if w.style.quotes == Single {
      assert text == ['\''] + value + ['\''];
      TrimMatchesAround(value, '\'');
    }
  }

  // -------------------------------------------------------------------- lines

  lemma AssignmentIsRead(w: Written)
    requires Writable(w)
    ensures AssignmentOf(Assignment(w)) ==
            Some(Entry(w.entry.key, Unquoted(w.style.afterEquals + ValueText(w))))
  {
    var name := w.entry.key + w.style.beforeEquals;
    assert "" + w.entry.key + w.style.beforeEquals == name;
    TrimPadded("", w.entry.key, w.style.beforeEquals);
    AssignmentParts(name, w.style.afterEquals + ValueText(w));
  }

  lemma AssignmentParts(name: string, rest: string)
    requires '=' !in name && Trim(name) != "" && Decimal.IsDigit(Trim(name)[0])
    ensures AssignmentOf(name + ['='] + rest) == Some(Entry(Trim(name), Unquoted(rest)))
  {
    var line := name + ['='] + rest;
    assert line[|name|] == '=';
    BeforeOf(name, '=', rest);
    assert line[|name| + 1..] == rest;
  }

  lemma NotExported(line: string)
    requires line != "" && line[0] != 'e'
    ensures !StartsWith(line, "export ")
  {
    if |line| >= 7 {
      assert line[..7][0] == line[0];
    }
  }

  lemma AssignmentIsTrimmed(w: Written)
    requires Writable(w)
    ensures Assignment(w) != "" && Trimmed(Assignment(w)) && Assignment(w)[0] == w.entry.key[0]
  {
    var assignment, text := Assignment(w), ValueText(w);
    assert text != "" && !IsWhitespace(text[|text| - 1]);
    assert assignment[0] == w.entry.key[0];
    assert assignment[|assignment| - 1] == text[|text| - 1];
  }

  lemma BodyIsTrimmed(w: Written)
    requires Writable(w)
    ensures Body(w) != "" && Trimmed(Body(w)) && Body(w)[0] != '#'
    ensures WithoutExport(Body(w)) == Assignment(w)
  {
    AssignmentIsTrimmed(w);
    if w.style.exported {
      ExportedIsTrimmed(Assignment(w));
    } else {
      assert Body(w) == Assignment(w);
      NotExported(Assignment(w));
    }
  }

  lemma ExportedIsTrimmed(assignment: string)
    requires assignment != "" && Trimmed(assignment)
    ensures Trimmed("export " + assignment) && ("export " + assignment)[0] == 'e'
    ensures WithoutExport("export " + assignment) == assignment
  {
    var body := "export " + assignment;
    StripPrefixed("export ", assignment);
    assert body[7..] == assignment && body[|body| - 1] == assignment[|assignment| - 1];
    assert TrimStart(assignment) == assignment;
  }

  /** A line, however it is spaced and quoted, is read back exactly when its
      value is taken literally. */
  lemma EntryOfLine(w: Written)
    requires Writable(w)
    ensures EntryOf(Line(w)) == Some(w.entry) <==> Unmistakable(w)
  {
    BodyIsTrimmed(w);
    TrimPadded(w.style.lead, Body(w), w.style.trail);
    AssignmentIsRead(w);
    UnquotedText(w);
  }

  lemma PlainLine(text: string)
    requires text != "" && Trimmed(text)
    ensures EntryOf("0K=" + text) == Some(Entry("0K", Unquoted(text)))
  {
    var line := "0K=" + text;
    assert line == "0K" + ['='] + text;
    assert line[0] == '0' && line[|line| - 1] == text[|text| - 1];
    NotExported(line);
    assert Trim("0K") == "0K";
    AssignmentParts("0K", text);
  }

  lemma UnquotedTwice()
    ensures Unquoted("\"'a'\"") == "a" && Unquoted("'\"a\"'") == "\"a\""
  {
    assert ['"'] + "'a'" + ['"'] == "\"'a'\"" && ['\''] + "a" + ['\''] == "'a'";
    assert ['\''] + "\"a\"" + ['\''] == "'\"a\"'";
    TrimMatchesAround("'a'", '"');
    TrimMatchesAround("a", '\'');
    TrimMatchesAround("\"a\"", '\'');
  }

  /** A value that is not recovered from double quotes, and one that is from
      single quotes though it has double quotes of its own. */
  lemma QuotesAreLost()
    ensures EntryOf("0K=" + "\"'a'\"") == Some(Entry("0K", "a"))
    ensures EntryOf("0K=" + "'\"a\"'") == Some(Entry("0K", "\"a\""))
  {
    PlainLine("\"'a'\"");
    PlainLine("'\"a\"'");
    UnquotedTwice();
  }

  // ------------------------------------------------- exactly what a line says

  lemma TrimOver(a: string, s: string)
    requires AllWhite(a)
    ensures Trim(a + s) == Trim(s)
  {
    TrimStartOver(a, s);
  }

  lemma {:induction false} TrimStartOf(s: string, rest: string)
    requires TrimStart(s) != ""
    ensures TrimStart(s + rest) == TrimStart(s) + rest
  {
    if IsWhitespace(s[0]) {
      assert (s + rest)[1..] == s[1..] + rest;
      TrimStartOf(s[1..], rest);
    }
  }

  lemma FirstStays(name: string)
    requires name != "" && !IsWhitespace(name[0])
    ensures Trim(name) != "" && Trim(name)[0] == name[0]
  {
    TrimExactly(name, Trim(name));
    var a, b :| AllWhite(a) && AllWhite(b) && name == a + (Trim(name) + b);
    assert name[0] == (a + (Trim(name) + b))[0];
  }

  lemma BlankStart(name: string)
    ensures TrimStart(name) == "" ==> Trim(name) == ""
    ensures Trim(TrimStart(name)) == Trim(name)
  {
    var space := LeadingWhite(name);
    TrimOver(space, TrimStart(name));
  }

  /** Where a trimmed line has its name and its value. */
  ghost predicate IsAssignment(line: string, name: string, value: string) {
    '=' !in name && (line == name + "=" + value || line == "export " + (name + "=" + value))
  }

  /** A line assigns something exactly when, trimmed and apart from a leading
      `export`, it is a name that starts with a digit, an equals sign, and a
      value; comments and everything else assign nothing. */
  lemma EntryExactly(line: string, e: Entry)
    ensures EntryOf(line) == Some(e) <==>
            DigitLed(e) &&
            exists name, value ::
              IsAssignment(Trim(line), name, value) && Trim(name) == e.key && Unquoted(value) == e.value
  {
    if EntryOf(line) == Some(e) {
      var name, value := EntryParts(line);
    }
    if DigitLed(e) {
      if name, value :|
        IsAssignment(Trim(line), name, value) && Trim(name) == e.key && Unquoted(value) == e.value
      {
        PartsAreEntry(line, e, name, value);
      }
    }
  }

  lemma EntryParts(line: string) returns (name: string, value: string)
    requires EntryOf(line).Some?
    ensures IsAssignment(Trim(line), name, value)
    ensures EntryOf(line).value == Entry(Trim(name), Unquoted(value)) && DigitLed(EntryOf(line).value)
  {
    var key;
    key, value := SplitAssignment(WithoutExport(Trim(line)));
    name := NameBeforeExport(Trim(line), key, value);
  }

  lemma SplitAssignment(line: string) returns (key: string, value: string)
    requires AssignmentOf(line).Some?
    ensures '=' !in key && line == key + "=" + value
    ensures AssignmentOf(line).value == Entry(Trim(key), Unquoted(value)) && DigitLed(AssignmentOf(line).value)
  {
    key := Before(line, '=');
    value := line[|key| + 1..];
  }

  lemma NameBeforeExport(t: string, key: string, value: string) returns (name: string)
    requires WithoutExport(t) == key + "=" + value && '=' !in key
    ensures IsAssignment(t, name, value) && Trim(name) == Trim(key)
  {
    if StartsWith(t, "export ") {
      var space := LeadingSpace(t[7..]);
      name := space + key;
      TrimOver(space, key);
      assert space + (key + "=" + value) == name + "=" + value;
      assert t == "export " + t[7..];
    } else {
      name := key;
    }
  }

  lemma LeadingSpace(line: string) returns (space: string)
    ensures AllWhite(space) && '=' !in space && line == space + TrimStart(line)
  {
    space := LeadingWhite(line);
    assert !IsWhitespace('=');
  }

  lemma PartsAreEntry(line: string, e: Entry, name: string, value: string)
    requires IsAssignment(Trim(line), name, value) && Trim(name) == e.key && Unquoted(value) == e.value
    requires DigitLed(e)
    ensures EntryOf(line) == Some(e)
  {
    if Trim(line) == name + "=" + value {
      PlainPartsAreRead(Trim(line), name, value);
    } else {
      ExportPartsAreRead(Trim(line), name, value);
    }
  }

  lemma PlainPartsAreRead(t: string, name: string, value: string)
    requires '=' !in name && Trim(name) != "" && Decimal.IsDigit(Trim(name)[0])
    requires t == name + "=" + value && Trimmed(t)
    ensures t[0] != '#' && AssignmentOf(WithoutExport(t)) == Some(Entry(Trim(name), Unquoted(value)))
  {
    assert name != "" && t[0] == name[0];
    FirstStays(name);
    NotExported(t);
    assert t == name + ['='] + value;
    AssignmentParts(name, value);
  }

  lemma ExportPartsAreRead(t: string, name: string, value: string)
    requires '=' !in name && Trim(name) != "" && Decimal.IsDigit(Trim(name)[0])
    requires t == "export " + (name + "=" + value)
    ensures t[0] != '#' && AssignmentOf(WithoutExport(t)) == Some(Entry(Trim(name), Unquoted(value)))
  {
    var rest := TrimStart(name);
    StripPrefixed("export ", name + "=" + value);
    BlankStart(name);
    assert name + "=" + value == name + ("=" + value);
    TrimStartOf(name, "=" + value);
    var space := LeadingWhite(name);
    assert forall c | c in rest :: c in space + rest;
    assert WithoutExport(t) == rest + ("=" + value) == rest + ['='] + value;
    AssignmentParts(rest, value);
  }

  // -------------------------------------------------------------------- files

  function AsList(e: Option<Entry>): seq<Entry> {
    if e.Some? then [e.value] else []
  }

  lemma ReturnIsTrimmed(line: string)
    ensures EntryOf(WithoutReturn(line)) == EntryOf(line)
  {
    if line != "" && line[|line| - 1] == '\r' {
      TrimReturn(line[..|line| - 1]);
      assert line == line[..|line| - 1] + "\r";
    }
  }

  lemma TrimReturn(t: string)
    ensures Trim(t + "\r") == Trim(t)
  {
    TrimSplits(t);
    var a, b :| AllWhite(a) && AllWhite(b) && t == a + (Trim(t) + b);
    TrimSurrounded(a, Trim(t), b + "\r");
    assert t + "\r" == a + (Trim(t) + (b + "\r"));
  }

  /** A file assigns what its lines assign, in order: each line up to a line
      feed, and the last one whether or not it has any. */
  lemma EntriesOfText(line: string, rest: string)
    requires '\n' !in line
    ensures Entries(Lines(line)) == AsList(EntryOf(line))
    ensures Entries(Lines(line + ['\n'] + rest)) == AsList(EntryOf(line)) + Entries(Lines(rest))
  {
    var last, all := [line], [WithoutReturn(line)] + Lines(rest);
    LinesExactly(line, rest);
    ReturnIsTrimmed(line);
    assert last[1..] == [] && all[1..] == Lines(rest);
    assert Entries(last[1..]) == [];
  }

  /** What a file holds: assignments, and lines that assign nothing. */
  datatype Row = Assigns(written: Written) | Other(text: string)

  function RowText(row: Row): string {
    match row
    case Assigns(w) => Line(w)
    case Other(text) => text
  }

  /** The text of a file; the last line may lack its line feed. */
  function File(rows: seq<Row>, closed: bool): string {
    if rows == [] then ""
    else if |rows| == 1 && !closed then RowText(rows[0])
    else RowText(rows[0]) + ['\n'] + File(rows[1..], closed)
  }

  predicate WellFormed(row: Row) {
    match row
    case Assigns(w) => Writable(w) && Unmistakable(w) && '\n' !in w.entry.key && '\n' !in w.entry.value
    case Other(text) => '\n' !in text && EntryOf(text) == None
  }

  function RowEntry(row: Row): Option<Entry> {
    match row
    case Assigns(w) => Some(w.entry)
    case Other(_) => None
  }

  function EntriesIn(rows: seq<Row>): seq<Entry> {
    if rows == [] then [] else AsList(RowEntry(rows[0])) + EntriesIn(rows[1..])
  }

  lemma LineIsOneLine(w: Written)
    requires WellFormed(Assigns(w))
    ensures '\n' !in Line(w)
  {
    assert '\n' !in ValueText(w);
    assert '\n' !in Assignment(w);
    assert '\n' !in Body(w);
  }

  lemma RowIsRead(row: Row)
    requires WellFormed(row)
    ensures '\n' !in RowText(row) && EntryOf(RowText(row)) == RowEntry(row)
  {
    if row.Assigns? {
      EntryOfLine(row.written);
      LineIsOneLine(row.written);
    }
  }

  /** A file of such rows assigns exactly their entries, in order. */
  lemma {:induction false} EntriesOfFile(rows: seq<Row>, closed: bool)
    requires forall i | 0 <= i < |rows| :: WellFormed(rows[i])
    ensures Entries(Lines(File(rows, closed))) == EntriesIn(rows)
  {
    if rows != [] {
      RowIsRead(rows[0]);
      EntriesOfText(RowText(rows[0]), File(rows[1..], closed));
      EntriesOfFile(rows[1..], closed);
      if |rows| == 1 {
        assert EntriesIn(rows[1..]) == [];
      }
    }
  }

  lemma {:induction false} EntriesInSettable(rows: seq<Row>)
    requires forall i | 0 <= i < |rows| :: RowEntry(rows[i]).Some? ==> RowEntry(rows[i]).value.Settable()
    ensures forall e | e in EntriesIn(rows) :: e.Settable()
  {
    if rows != [] {
      EntriesInSettable(rows[1..]);
    }
  }

  /** Written to a file and patched in, well-formed entries all take effect; of
      several for one name the last does. */
  lemma FileRestores(vars: Vars, rows: seq<Row>, closed: bool, key: string)
    requires forall i | 0 <= i < |rows| :: WellFormed(rows[i])
    requires forall i | 0 <= i < |rows| :: RowEntry(rows[i]).Some? ==> RowEntry(rows[i]).value.Settable()
    ensures Patched(vars, File(rows, closed)).1
    ensures Get(Patched(vars, File(rows, closed)).0, key) ==
            var last := Last(EntriesIn(rows), key);
            if last.Some? then last else Get(vars, key)
  {
    var entries := EntriesIn(rows);
    EntriesOfFile(rows, closed);
    EntriesInSettable(rows);
    SetAllExactly(vars, entries, key);
    PatchingSucceeds(vars, entries);
  }
}
