/** The `.env` loader (env_loader.php): reads `key=value` lines into the
    environment map, skipping comments and lines without '='. The lines are
    given as `file()` returns them with FILE_IGNORE_NEW_LINES and
    FILE_SKIP_EMPTY_LINES. */
module EnvLoader {
  import opened Wrappers
  import opened PhpStrings

  datatype Entry = Entry(key: string, value: string)

  /** The quote characters `trim($value, '"\'')` strips. */
  const Quotes: set<char> := {'"', '\''}

  /** `strpos($s, $c)`: the first index of `c`, or |s| when absent. */
  function IndexOf(s: string, c: char): (i: nat)
    ensures i <= |s|
    ensures i < |s| ==> s[i] == c
    ensures forall k :: 0 <= k < i ==> s[k] != c
  {
    if s == [] then 0 else if s[0] == c then 0 else 1 + IndexOf(s[1..], c)
  }

  /** env_loader.php:15: the trimmed line starts with '#'. */
  predicate IsComment(line: string) {
    StartsWith(Trim(line, TrimWhitespace), "#")
  }

  /** env_loader.php:15-26: a comment or a line without '=' gives nothing;
      otherwise the line splits at its first '=', both halves are trimmed,
      and the value loses every leading and trailing quote. */
  function ParseLine(line: string): (e: Option<Entry>)
    ensures e.None? <==> IsComment(line) || '=' !in line
    ensures e.Some? ==> '=' !in e.value.key
    ensures e.Some? ==> e.value.key == [] || (e.value.key[0] !in TrimWhitespace && e.value.key[|e.value.key| - 1] !in TrimWhitespace)
    ensures e.Some? ==> e.value.value == [] || (e.value.value[0] !in Quotes && e.value.value[|e.value.value| - 1] !in Quotes)
  {
    if IsComment(line) then None
    else
      var i := IndexOf(line, '=');
      if i == |line| then None
      else
        var key := Trim(line[..i], TrimWhitespace);
        Some(Entry(key, Trim(Trim(line[i + 1..], TrimWhitespace), Quotes)))
  }

  /** Only the first '=' splits: the rest, '=' included, is the value. */
  lemma SplitAtFirstEquals(key: string, value: string)
    requires '=' !in key && !IsComment(key + "=" + value)
    ensures ParseLine(key + "=" + value) == Some(Entry(Trim(key, TrimWhitespace), Trim(Trim(value, TrimWhitespace), Quotes)))
  {
    var line := key + "=" + value;
    IndexOfFirst(key, '=', value);
    assert line[..|key|] == key && line[|key| + 1..] == value;
  }

  /** The first occurrence of `c` in `a + [c] + b`, when `a` has none, is right after `a`. */
  lemma IndexOfFirst(a: string, c: char, b: string)
    requires c !in a
    ensures IndexOf(a + [c] + b, c) == |a|
  {
    var s := a + [c] + b;
    assert s[|a|] == c;
    assert forall k :: 0 <= k < |a| ==> s[k] == a[k];
  }

  /** A value between a pair of quotes comes out without them. */
  lemma QuotedValueUnwrapped(key: string, q: char, value: string)
    requires q in Quotes && '=' !in key && !IsComment(key + "=" + ([q] + value + [q]))
    requires value == [] || (value[0] !in Quotes && value[|value| - 1] !in Quotes)
    ensures ParseLine(key + "=" + ([q] + value + [q])) == Some(Entry(Trim(key, TrimWhitespace), value))
  {
    SplitAtFirstEquals(key, [q] + value + [q]);
    QuotedTrimmed(q, value);
  }

  /** Whitespace trimming keeps the quotes; quote trimming then removes them. */
  lemma QuotedTrimmed(q: char, value: string)
    requires q in Quotes
    requires value == [] || (value[0] !in Quotes && value[|value| - 1] !in Quotes)
    ensures Trim(Trim([q] + value + [q], TrimWhitespace), Quotes) == value
  {
    var quoted := [q] + value + [q];
    assert quoted[0] == q && quoted[|quoted| - 1] == q;
    QuotesAreNotWhitespace(q);
    assert Trim(quoted, TrimWhitespace) == quoted;
    UnquoteWrapped(value, q);
  }

  lemma QuotesAreNotWhitespace(q: char)
    requires q in Quotes
    ensures q !in TrimWhitespace
  {
  }

  lemma UnquoteWrapped(value: string, q: char)
    requires q in Quotes
    requires value == [] || (value[0] !in Quotes && value[|value| - 1] !in Quotes)
    ensures Trim([q] + value + [q], Quotes) == value
  {
    var s := [q] + value + [q];
    var left := value + [q];
    assert s[1..] == left;
    assert TrimLeft(s, Quotes) == TrimLeft(left, Quotes);
    if value == [] {
      assert left[1..] == [];
      assert TrimLeft(left, Quotes) == [];
    } else {
      assert TrimLeft(left, Quotes) == left;
      assert left[..|left| - 1] == value;
      assert TrimRight(left, Quotes) == TrimRight(value, Quotes) == value;
    }
  }

  // ------------------------------------------------------------ applying lines

  /** Where loading stands: the variables so far, and whether it went on
      to the end. It stops at an entry with an empty key: that entry is
      stored, then `putenv("=value")` throws. */
  datatype Loaded = Loaded(vars: map<string, string>, completed: bool)

  /** One pass of the loop body: loading stops exactly at an entry with an
      empty key, and no variable is ever unset. */
  function Step(vars: map<string, string>, line: string): (next: Loaded)
    ensures !next.completed <==> ParseLine(line).Some? && ParseLine(line).value.key == ""
    ensures vars.Keys <= next.vars.Keys
  {
    match ParseLine(line)
    case None => Loaded(vars, true)
    case Some(e) => Loaded(vars[e.key := e.value], e.key != "")
  }

  /** The loop over the lines, as a function of the variables before it.
      Loading never unsets a variable, and when it stops early the empty
      name has been stored. */
  function ApplyLines(vars: map<string, string>, lines: seq<string>): (loaded: Loaded)
    ensures vars.Keys <= loaded.vars.Keys
    ensures !loaded.completed ==> "" in loaded.vars
    decreases |lines|
  {
    if lines == [] then Loaded(vars, true)
    else
      var next := Step(vars, lines[0]);
      if next.completed then ApplyLines(next.vars, lines[1..]) else next
  }

  /** Why loading failed. */
  datatype EnvError = FileNotFound | InvalidName

  class Environment {
    /** `$_ENV`. */
    var vars: map<string, string>

    constructor (vars: map<string, string>)
      ensures this.vars == vars
    {
      this.vars := vars;
    }

    /** env_loader.php:6-33. A missing file fails before anything is set;
        otherwise every line is applied in order. */
    method LoadEnv(fileExists: bool, lines: seq<string>) returns (outcome: Outcome<EnvError>)
      modifies this
      ensures !fileExists ==> outcome == Fail(FileNotFound) && vars == old(vars)
      ensures fileExists ==> vars == ApplyLines(old(vars), lines).vars
      ensures fileExists ==> (outcome == Pass <==> ApplyLines(old(vars), lines).completed)
      ensures outcome == Pass || outcome == Fail(FileNotFound) || outcome == Fail(InvalidName)
      ensures fileExists && !ApplyLines(old(vars), lines).completed ==> outcome == Fail(InvalidName)
    {
      if !fileExists {
        return Fail(FileNotFound);
      }
      var i := 0;
      while i < |lines|
        invariant 0 <= i <= |lines|
        invariant ApplyLines(old(vars), lines) == ApplyLines(vars, lines[i..])
      {
        assert lines[i..][1..] == lines[i + 1..];
        var entry := ParseLine(lines[i]);
        if entry.Some? {
          vars := vars[entry.value.key := entry.value.value];
          if entry.value.key == "" {
            return Fail(InvalidName);
          }
        }
        i := i + 1;
      }
      return Pass;
    }
  }

  // ------------------------------------------------------------ last wins

  /** The value the last line naming `key` gives it, if any line does. */
  function LastValue(lines: seq<string>, key: string): Option<string>
    decreases |lines|
  {
    if lines == [] then None
    else
      var e := ParseLine(lines[|lines| - 1]);
      if e.Some? && e.value.key == key then Some(e.value.value)
      else LastValue(lines[..|lines| - 1], key)
  }

  /** No line names the empty key, so loading runs to the end. */
  predicate NoEmptyKey(lines: seq<string>) {
    forall i :: 0 <= i < |lines| ==> ParseLine(lines[i]).None? || ParseLine(lines[i]).value.key != ""
  }

  lemma {:induction false} ApplyLinesSnoc(vars: map<string, string>, lines: seq<string>, line: string)
    requires ApplyLines(vars, lines).completed
    ensures ApplyLines(vars, lines + [line]) == Step(ApplyLines(vars, lines).vars, line)
    decreases |lines|
  {
    if lines == [] {
      assert [line][1..] == [];
    } else {
      assert (lines + [line])[0] == lines[0] && (lines + [line])[1..] == lines[1..] + [line];
      ApplyLinesSnoc(Step(vars, lines[0]).vars, lines[1..], line);
    }
  }

  /** env_loader.php:29: later lines overwrite earlier ones, keys the file
      does not name keep their value, and a file without an empty key loads
      completely. */
  lemma {:induction false} LastLineWins(vars: map<string, string>, lines: seq<string>, key: string)
    requires NoEmptyKey(lines)
    ensures ApplyLines(vars, lines).completed
    ensures Reflects(vars, ApplyLines(vars, lines).vars, LastValue(lines, key), key)
    decreases |lines|
  {
    if lines != [] {
      var init, last := lines[..|lines| - 1], lines[|lines| - 1];
      assert init + [last] == lines;
      NoEmptyKeyPrefix(lines, init);
      LastLineWins(vars, init, key);
      ApplyLinesSnoc(vars, init, last);
      var before := ApplyLines(vars, init).vars;
      assert ApplyLines(vars, lines) == Step(before, last);
      StepReflects(vars, before, last, key, LastValue(init, key));
      LastValueSnoc(init, last, key);
    }
  }

  /** `result` holds the value `latest` gives `key`, or the value `vars` gave it when no line named it. */
  predicate Reflects(vars: map<string, string>, result: map<string, string>, latest: Option<string>, key: string) {
    && (latest.Some? ==> key in result && result[key] == latest.value)
    && (latest.None? ==> (key in result <==> key in vars) && (key in vars ==> result[key] == vars[key]))
  }

  /** One more line with a non-empty key or none keeps `Reflects`, with the line's value as the latest when it names `key`. */
  lemma StepReflects(vars: map<string, string>, before: map<string, string>, line: string, key: string, prior: Option<string>)
    requires ParseLine(line).None? || ParseLine(line).value.key != ""
    requires Reflects(vars, before, prior, key)
    ensures Step(before, line).completed
    ensures var e := ParseLine(line);
      Reflects(vars, Step(before, line).vars, if e.Some? && e.value.key == key then Some(e.value.value) else prior, key)
  {
    StepEffect(before, line, key);
  }

  lemma NoEmptyKeyPrefix(lines: seq<string>, init: seq<string>)
    requires lines != [] && NoEmptyKey(lines) && init == lines[..|lines| - 1]
    ensures NoEmptyKey(init)
    ensures ParseLine(lines[|lines| - 1]).None? || ParseLine(lines[|lines| - 1]).value.key != ""
  {
    forall i | 0 <= i < |init| ensures ParseLine(init[i]).None? || ParseLine(init[i]).value.key != "" {
      assert init[i] == lines[i];
    }
  }

  lemma LastValueSnoc(init: seq<string>, last: string, key: string)
    ensures var e := ParseLine(last);
      LastValue(init + [last], key) == if e.Some? && e.value.key == key then Some(e.value.value) else LastValue(init, key)
  {
    assert (init + [last])[..|init|] == init;
  }

  /** One line with a non-empty key or none: loading goes on, the key it
      names takes its value, and every other key is left alone. */
  lemma StepEffect(before: map<string, string>, line: string, key: string)
    requires ParseLine(line).None? || ParseLine(line).value.key != ""
    ensures Step(before, line).completed
    ensures var e := ParseLine(line); var after := Step(before, line).vars;
      if e.Some? && e.value.key == key then key in after && after[key] == e.value.value
      else (key in after <==> key in before) && (key in before ==> after[key] == before[key])
  {
  }

  /** An entry with an empty key is the last one applied: it is stored and nothing after it is. */
  lemma EmptyKeyStops(vars: map<string, string>, line: string, rest: seq<string>)
    requires ParseLine(line).Some? && ParseLine(line).value.key == ""
    ensures ApplyLines(vars, [line] + rest) == Loaded(vars["" := ParseLine(line).value.value], false)
  {
    assert ([line] + rest)[0] == line;
  }

  /** Comment lines and lines without '=' change nothing. */
  lemma IgnoredLinesChangeNothing(vars: map<string, string>, line: string, rest: seq<string>)
    requires IsComment(line) || '=' !in line
    ensures ApplyLines(vars, [line] + rest) == ApplyLines(vars, rest)
  {
    assert ([line] + rest)[0] == line && ([line] + rest)[1..] == rest;
  }
}
