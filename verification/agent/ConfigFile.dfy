/** The `KEY=VALUE` config file, read line by line; a later line for a key replaces an earlier one. */
module ConfigFile {
  import opened Options
  import opened Text
  import opened Splitting

  datatype Entry = Entry(key: string, value: string)

  /** Between a pair of the same quotes. */
  predicate Quoted(s: string) {
    |s| >= 2 && s[0] == s[|s| - 1] && (s[0] == '"' || s[0] == '\'')
  }

  function Unquoted(s: string): string {
    if Quoted(s) then s[1..|s| - 1] else s
  }

  /** What a line says; nothing for a blank line, a comment, a line without `=` or one without a key. */
  function ParseLine(raw: string): Option<Entry> {
    ParseTrimmed(Trim(raw))
  }

  function ParseTrimmed(line: string): Option<Entry> {
    if line == "" || line[0] == '#' then None
    else
      var eq := IndexOf(line, '=');
      if eq == |line| then None
      else
        var key := Trim(line[..eq]);
        if key == "" then None else Some(Entry(key, Unquoted(Trim(line[eq + 1..]))))
  }

  /** What the last line for `key` says. */
  function LastFor(lines: seq<string>, key: string): Option<string>
    decreases |lines|
  {
    if lines == [] then None
    else
      var entry := ParseLine(lines[|lines| - 1]);
      if entry.Some? && entry.value.key == key then Some(entry.value.value) else LastFor(lines[..|lines| - 1], key)
  }

  ghost predicate Agrees(out: map<string, string>, lines: seq<string>) {
    forall key :: LastFor(lines, key) == if key in out then Some(out[key]) else None
  }

  lemma AgreesWithOneMore(out: map<string, string>, lines: seq<string>, i: nat)
    requires i < |lines| && Agrees(out, lines[..i])
    ensures var entry := ParseLine(lines[i]);
            Agrees(if entry.Some? then out[entry.value.key := entry.value.value] else out, lines[..i + 1])
  {
    assert lines[..i + 1][..i] == lines[..i];
    assert lines[..i + 1][i] == lines[i];
  }

  /** `None` stands for a file that is not there, which reads as an empty one. */
  method ReadConfigFile(file: Option<string>) returns (out: map<string, string>)
    ensures file.None? ==> out == map[]
    ensures file.Some? ==> Agrees(out, Split(file.value, '\n'))
  {
    out := map[];
    if file.None? {
      return;
    }
    var lines := Split(file.value, '\n');
    for i := 0 to |lines|
      invariant Agrees(out, lines[..i])
    {
      AgreesWithOneMore(out, lines, i);
      var entry := ParseLine(lines[i]);
      if entry.Some? {
        out := out[entry.value.key := entry.value.value];
      }
    }
    assert lines[..|lines|] == lines;
  }

  // ----- writing a line that reads back -----

  /** A name that a line can start with: no white space at its ends, no `=`, and not a comment sign first. */
  ghost predicate IsName(key: string) {
    key != "" && Trimmed(key) && key[0] != '#' && forall k :: 0 <= k < |key| ==> key[k] != '='
  }

  lemma EqualsIsNoSpace()
    ensures !IsSpace('=') && !IsSpace('"') && !IsSpace('\'')
  {
  }

  lemma LineReads(key: string, text: string)
    requires IsName(key) && (text != "" ==> !IsSpace(text[|text| - 1]))
    ensures ParseLine(key + "=" + text) == Some(Entry(key, Unquoted(Trim(text))))
  {
    var line := key + "=" + text;
    EqualsIsNoSpace();
    assert line[0] == key[0];
    assert line[|line| - 1] == if text == "" then '=' else text[|text| - 1];
    TrimKeepsTrimmed(line);
    IndexOfIs(line, '=', |key|);
    assert line[..|key|] == key && line[|key| + 1..] == text;
    TrimKeepsTrimmed(key);
  }

  /** Whatever the value, the line is one for the key. */
  lemma LineIsRead(key: string, value: string)
    requires IsName(key)
    ensures ParseLine(key + "=" + value).Some? && ParseLine(key + "=" + value).value.key == key
  {
    var rest := TrimEnd(value);
    EqualsIsNoSpace();
    TrimsToo(key + "=", value);
    LineReads(key, rest);
  }

  /** White space behind a line is not read. */
  lemma TrimsToo(front: string, value: string)
    requires front != "" && !IsSpace(front[0]) && !IsSpace(front[|front| - 1])
    ensures ParseLine(front + value) == ParseLine(front + TrimEnd(value))
  {
    TrimOf(front, value);
    TrimOf(front, TrimEnd(value));
    TrimEndAgain(value);
  }

  lemma TrimOf(front: string, value: string)
    requires front != "" && !IsSpace(front[0]) && !IsSpace(front[|front| - 1])
    ensures Trim(front + value) == front + TrimEnd(value)
  {
    var s := front + value;
    TrimEndBehind(front, value);
    assert s[0] == front[0];
    assert TrimStart(s) == s;
  }

  lemma {:induction false} TrimEndBehind(front: string, value: string)
    requires front != "" && !IsSpace(front[|front| - 1])
    ensures TrimEnd(front + value) == front + TrimEnd(value)
  {
    var s := front + value;
    if value == "" {
      assert s == front;
    } else if IsSpace(value[|value| - 1]) {
      TrimEndBehind(front, value[..|value| - 1]);
      assert s[..|s| - 1] == front + value[..|value| - 1];
    }
  }

  lemma TrimEndAgain(value: string)
    ensures TrimEnd(TrimEnd(value)) == TrimEnd(value)
  {
  }

  /** A line that gives `key` a value, at the end of a text, is what is read for it. */
  lemma LastLineIsRead(text: string, line: string, key: string)
    requires '\n' !in line && ParseLine(line).Some? && ParseLine(line).value.key == key
    ensures LastFor(Split(text + "\n" + line, '\n'), key) == Some(ParseLine(line).value.value)
  {
    SplitAround(text, line, '\n');
    SplitWhole(line, '\n');
    var lines := Split(text + "\n" + line, '\n');
    assert text + ['\n'] + line == text + "\n" + line;
    assert lines == Split(text, '\n') + [line];
    assert lines[|lines| - 1] == line;
  }

  lemma OneLine(key: string, value: string)
    requires '\n' !in key && '\n' !in value
    ensures '\n' !in key + "=" + value
  {
  }

  lemma QuotedLine(key: string, quote: char, value: string)
    requires IsName(key) && (quote == '"' || quote == '\'')
    ensures ParseLine(key + "=" + ([quote] + value + [quote])) == Some(Entry(key, value))
  {
    var quoted := [quote] + value + [quote];
    EqualsIsNoSpace();
    LineReads(key, quoted);
    TrimKeepsTrimmed(quoted);
    assert quoted[1..|quoted| - 1] == value;
  }

  lemma BareLineIff(key: string, value: string)
    requires IsName(key)
    ensures ParseLine(key + "=" + value) == Some(Entry(key, value)) <==> Trimmed(value) && !Quoted(value)
  {
    if Trimmed(value) {
      LineReads(key, value);
      TrimKeepsTrimmed(value);
    } else {
      UntrimmedIsLost(key, value);
    }
  }

  lemma NoBreakBetween(quote: char, value: string)
    requires quote != '\n' && '\n' !in value
    ensures '\n' !in [quote] + value + [quote]
  {
  }

  /** A value between quotes of either kind, at the end of a file, reads back as it is, whatever is in the line. */
  lemma QuotedReadsBack(text: string, key: string, quote: char, value: string)
    requires IsName(key) && (quote == '"' || quote == '\'') && '\n' !in key && '\n' !in value
    ensures LastFor(Split(text + "\n" + (key + "=" + ([quote] + value + [quote])), '\n'), key) == Some(value)
  {
    QuotedLine(key, quote, value);
    NoBreakBetween(quote, value);
    OneLine(key, [quote] + value + [quote]);
    LastLineIsRead(text, key + "=" + ([quote] + value + [quote]), key);
  }

  /** A line that is a comment, has no `=`, or has nothing before it, says nothing, whatever came before. */
  lemma OtherLinesSayNothing(text: string, line: string, key: string)
    requires '\n' !in line
    requires var t := Trim(line); t == "" || t[0] == '#' || '=' !in t || t[0] == '='
    ensures LastFor(Split(text + "\n" + line, '\n'), key) == LastFor(Split(text, '\n'), key)
  {
    SplitAround(text, line, '\n');
    SplitWhole(line, '\n');
    var lines := Split(text + "\n" + line, '\n');
    assert text + ['\n'] + line == text + "\n" + line;
    assert lines == Split(text, '\n') + [line];
    assert lines[..|lines| - 1] == Split(text, '\n');
    NothingSaid(Trim(line));
  }

  lemma NothingSaid(t: string)
    requires t == "" || t[0] == '#' || '=' !in t || t[0] == '='
    ensures ParseTrimmed(t) == None
  {
    if t != "" && t[0] == '=' {
      IndexOfIs(t, '=', 0);
      assert t[..0] == "";
    }
  }

  /**
   A bare value at the end of a file reads back as it is, if and only if nothing of it would be trimmed and it is
   not itself quoted.
   */
  lemma BareReadsBackIff(text: string, key: string, value: string)
    requires IsName(key) && '\n' !in key && '\n' !in value
    ensures LastFor(Split(text + "\n" + (key + "=" + value), '\n'), key) == Some(value)
      <==> Trimmed(value) && !Quoted(value)
  {
    LineIsRead(key, value);
    OneLine(key, value);
    LastLineIsRead(text, key + "=" + value, key);
    BareLineIff(key, value);
  }

  lemma UntrimmedIsLost(key: string, value: string)
    requires IsName(key) && !Trimmed(value)
    ensures ParseLine(key + "=" + value) != Some(Entry(key, value))
  {
    var entry := ParseLine(key + "=" + value);
    if entry == Some(Entry(key, value)) {
      var line := Trim(key + "=" + value);
      var eq := IndexOf(line, '=');
      var text := Trim(line[eq + 1..]);
      TrimTrims(line[eq + 1..]);
    }
  }
}
