/** Entries of `.env` whose names start with a digit, merged into the process
    environment. */
module Env {
  import opened Common
  import opened Strings
  import Decimal

  type Vars = map<string, string>

  /** One assignment of the file. */
  datatype Entry = Entry(key: string, value: string) {
    /** `set_var` panics on a NUL. */
    predicate Settable() {
      '\0' !in key && '\0' !in value
    }
  }

  // ---------------------------------------------------------- reference parser

  /** What one line assigns, if anything. */
  function EntryOf(rawLine: string): Option<Entry> {
    var line := Trim(rawLine);
    if line == "" || line[0] == '#' then None else AssignmentOf(WithoutExport(line))
  }

  function WithoutExport(line: string): string {
    if StartsWith(line, "export ") then TrimStart(line[7..]) else line
  }

  function AssignmentOf(line: string): (r: Option<Entry>)
    ensures r.Some? ==> r.value.key != "" && Decimal.IsDigit(r.value.key[0])
  {
    if '=' !in line then None
    else
      var name := Before(line, '=');
      var key := Trim(name);
      if key == "" || !Decimal.IsDigit(key[0]) then None
      else Some(Entry(key, Unquoted(line[|name| + 1..])))
  }

  function Unquoted(value: string): string {
    TrimMatches(TrimMatches(Trim(value), '"'), '\'')
  }

  function Entries(lines: seq<string>): seq<Entry> {
    if lines == [] then []
    else
      var later := Entries(lines[1..]);
      match EntryOf(lines[0])
      case None => later
      case Some(e) => [e] + later
  }

  /** Sets the entries in order; false when one of them makes `set_var` panic. */
  function SetAll(vars: Vars, entries: seq<Entry>): (Vars, bool)
    decreases |entries|
  {
    if entries == [] then (vars, true)
    else if !entries[0].Settable() then (vars, false)
    else SetAll(vars[entries[0].key := entries[0].value], entries[1..])
  }

  function Patched(vars: Vars, contents: string): (Vars, bool) {
    SetAll(vars, Entries(Lines(contents)))
  }

  // ----------------------------------------------------------------- the loop

  /** The environment of the process. */
  class Process {
    var vars: Vars

    constructor (vars: Vars)
      ensures this.vars == vars
    {
      this.vars := vars;
    }

    method SetVar(key: string, value: string) returns (ok: bool)
      modifies this
      ensures ok == Entry(key, value).Settable()
      ensures vars == if ok then old(vars)[key := value] else old(vars)
    {
      ok := '\0' !in key && '\0' !in value;
      if ok {
        vars := vars[key := value];
      }
    }
  }

  /** What one turn of the loop leaves to be done. */
  lemma NextLine(vars: Vars, lines: seq<string>, i: nat)
    requires i < |lines|
    ensures
      SetAll(vars, Entries(lines[i..])) ==
      match EntryOf(lines[i])
      case None => SetAll(vars, Entries(lines[i + 1..]))
      case Some(e) =>
        if e.Settable() then SetAll(vars[e.key := e.value], Entries(lines[i + 1..])) else (vars, false)
  {
    assert lines[i..][0] == lines[i] && lines[i..][1..] == lines[i + 1..];
    if EntryOf(lines[i]).Some? {
      var entries := Entries(lines[i + 1..]);
      assert ([EntryOf(lines[i]).value] + entries)[1..] == entries;
    }
  }

  /** The body of the loop up to `set_var`; `None` is a `continue`. */
  method ReadEntry(rawLine: string) returns (entry: Option<Entry>)
    ensures entry == EntryOf(rawLine)
  {
    var line := Trim(rawLine);
    if line == "" || line[0] == '#' {
      return None;
    }
    line := WithoutExport(line);
    if '=' !in line {
      return None;
    }
    var name := Before(line, '=');
    var value := line[|name| + 1..];
    var key := Trim(name);
    if key == "" {
      return None;
    }
    if !Decimal.IsDigit(key[0]) {
      return None;
    }
    return Some(Entry(key, Unquoted(value)));
  }

  /** `patch_env_from_dotfile`; `file` is the text of `.env` when there is one. */
  method PatchEnvFromDotfile(process: Process, file: Option<string>) returns (ok: bool)
    modifies process
    ensures (process.vars, ok) ==
            if file.Some? then Patched(old(process.vars), file.value) else (old(process.vars), true)
  {
    if file.None? {
      return true;
    }
    var lines := Lines(file.value);
    assert lines[0..] == lines;
    var i := 0;
    while i < |lines|
      invariant 0 <= i <= |lines|
      invariant SetAll(process.vars, Entries(lines[i..])) == SetAll(old(process.vars), Entries(lines))
    {
      NextLine(process.vars, lines, i);
      var entry := ReadEntry(lines[i]);
      if entry.Some? {
        var done := process.SetVar(entry.value.key, entry.value.value);
        if !done {
          return false;
        }
      }
      i := i + 1;
    }
    return true;
  }
}
