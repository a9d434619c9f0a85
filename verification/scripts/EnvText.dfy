/** The edits as the script makes them, on whole texts: cut into lines, edited, joined again. */
module EnvText {
  import opened Text
  import opened Splitting
  import opened Filtering
  import opened EnvLines
  import opened LocalWiring
  import opened WiringMeaning
  import opened DevEnv

  /** No line holds a line break. */
  ghost predicate OneLineEach(lines: seq<string>) {
    forall k :: 0 <= k < |lines| ==> '\n' !in lines[k]
  }

  function Lines(text: string): (lines: seq<string>)
    ensures lines != []
  {
    Split(text, '\n')
  }

  lemma LinesAreLines(text: string)
    ensures OneLineEach(Lines(text)) && Join(Lines(text), '\n') == text
  {
    SplitHasNoSeparator(text, '\n');
    JoinSplit(text, '\n');
  }

  lemma LinesOfJoined(lines: seq<string>)
    requires lines != [] && OneLineEach(lines)
    ensures Lines(Join(lines, '\n')) == lines
  {
    SplitJoin(lines, '\n');
  }

  lemma SetStaysLines(lines: seq<string>, key: string, value: string)
    requires lines != [] && OneLineEach(lines) && '\n' !in key && '\n' !in value
    ensures OneLineEach(SetKey(lines, key, value))
  {
  }

  lemma CommentStaysLines(lines: seq<string>, key: string)
    requires OneLineEach(lines)
    ensures OneLineEach(CommentOut(lines, key))
  {
    CommentedEach(lines, key);
    forall k | 0 <= k < |lines|
      ensures '\n' !in CommentLine(lines[k], key)
    {
      CommentStaysLine(lines[k], key);
    }
  }

  lemma CommentStaysLine(line: string, key: string)
    requires '\n' !in line
    ensures '\n' !in CommentLine(line, key)
  {
    var rest, sign := TrimStart(line), "# ";
    assert forall j :: 0 <= j < |rest| ==> rest[j] == line[LeadingSpace(line) + j];
    assert '\n' !in rest && '\n' !in sign;
  }

  /** The text ends in a line break, or is empty, when its last line is. */
  lemma {:induction false} LastLineBlankIff(text: string)
    ensures Lines(text)[|Lines(text)| - 1] == "" <==> text == "" || text[|text| - 1] == '\n'
    decreases |text|
  {
    var i := IndexOf(text, '\n');
    if i < |text| {
      LastLineBlankIff(text[i + 1..]);
      assert Lines(text)[|Lines(text)| - 1] == Lines(text[i + 1..])[|Lines(text[i + 1..])| - 1];
    }
  }

  method SetEnvKey(text: string, key: string, value: string) returns (out: string)
    ensures out == Join(SetKey(Lines(text), key, value), '\n')
  {
    var lines := Lines(text);
    var idx := 0;
    while idx < |lines| && !Settable(lines[idx], key)
      invariant idx <= |lines|
      invariant forall k :: 0 <= k < idx ==> !SetsKey(key)(lines[k])
    {
      idx := idx + 1;
    }
    FirstIndexIs(lines, SetsKey(key), idx);
    var newLine := Assignment(key, value);
    if idx < |lines| {
      return Join(lines[idx := newLine], '\n');
    }
    LastLineBlankIff(text);
    ghost var gap := Gap(lines);
    if |text| > 0 && text[|text| - 1] != '\n' {
      lines := lines + [""];
    }
    assert lines == Lines(text) + gap;
    out := Join(lines + [newLine], '\n');
  }

  lemma CommentedIsAnother(line: string)
    ensures "# " + TrimStart(line) != line
  {
    SignAndSpace();
  }

  /** Commenting out changes a file exactly when some line sets the key. */
  lemma CommentChangesIff(lines: seq<string>, key: string)
    ensures CommentOut(lines, key) == lines <==> NoneActive(lines, key)
  {
    CommentedEach(lines, key);
    if k :| 0 <= k < |lines| && Active(lines[k], key) {
      CommentedIsAnother(lines[k]);
      assert CommentOut(lines, key)[k] != lines[k];
    }
  }

  function Overwritten(line: string, test: string -> bool, rewrite: string -> string): string {
    if test(line) then rewrite(line) else line
  }

  /** The loop over the lines: those that pass the test are overwritten where they stand. */
  method OverwriteWhere(lines: array<string>, test: string -> bool, rewrite: string -> string) returns (changed: bool)
    modifies lines
    ensures forall k :: 0 <= k < lines.Length ==> lines[k] == Overwritten(old(lines[k]), test, rewrite)
    ensures changed <==> exists k :: 0 <= k < lines.Length && test(old(lines[k]))
  {
    changed := false;
    var i := 0;
    while i < lines.Length
      invariant i <= lines.Length
      invariant forall k :: 0 <= k < i ==> lines[k] == Overwritten(old(lines[k]), test, rewrite)
      invariant forall k :: i <= k < lines.Length ==> lines[k] == old(lines[k])
      invariant changed <==> exists k :: 0 <= k < i && test(old(lines[k]))
    {
      if test(lines[i]) {
        lines[i] := rewrite(lines[i]);
        changed := true;
      }
      i := i + 1;
    }
  }

  /** `changed` says whether any line was overwritten. */
  method CommentOutLines(lines: array<string>, key: string) returns (changed: bool)
    modifies lines
    ensures lines[..] == CommentOut(old(lines[..]), key)
    ensures changed <==> lines[..] != old(lines[..])
  {
    ghost var was := lines[..];
    changed := OverwriteWhere(lines, ActiveKey(key), line => "# " + TrimStart(line));
    CommentedEach(was, key);
    assert lines[..] == CommentOut(was, key);
    CommentChangesIff(was, key);
  }

  method CommentOutEnvKey(text: string, key: string) returns (out: string)
    ensures out == Join(CommentOut(Lines(text), key), '\n')
  {
    var was := Lines(text);
    var lines := new string[|was|](k requires 0 <= k < |was| => was[k]);
    assert lines[..] == was;
    var changed := CommentOutLines(lines, key);
    LinesAreLines(text);
    out := if changed then Join(lines[..], '\n') else text;
  }

  // ----- the wiring of whole files -----

  lemma NamesAreOneLine(k: EnvKey)
    ensures '\n' !in KeyName(k)
  {
    NamesAreKeys(k);
    var name := KeyName(k);
    assert forall i :: 0 <= i < |name| ==> !IsSpace(name[i]);
  }

  lemma {:induction false} ExistingIsOneLine(lines: seq<string>, key: string)
    requires OneLineEach(lines)
    ensures Existing(lines, key).Some? ==> '\n' !in Existing(lines, key).value
  {
    if lines != [] {
      ExistingIsOneLine(lines[1..], key);
      if Active(lines[0], key) {
        var rest := Remainder(lines[0], key);
        assert forall k :: 0 <= k < |rest| ==> rest[k] in lines[0];
        TrimIsPart(rest);
      }
    }
  }

  lemma TrimIsPart(s: string)
    ensures forall k :: 0 <= k < |Trim(s)| ==> Trim(s)[k] in s
  {
    var front := TrimStart(s);
    assert forall k :: 0 <= k < |front| ==> front[k] in s;
    assert forall k :: 0 <= k < |Trim(s)| ==> Trim(s)[k] == front[k];
  }

  /** After an edit of a text its lines are the edited lines. */
  lemma LinesOfSet(lines: seq<string>, key: string, value: string)
    requires lines != [] && OneLineEach(lines) && '\n' !in key && '\n' !in value
    ensures Lines(Join(SetKey(lines, key, value), '\n')) == SetKey(lines, key, value)
  {
    SetStaysLines(lines, key, value);
    LinesOfJoined(SetKey(lines, key, value));
  }

  lemma LinesOfComment(lines: seq<string>, key: string)
    requires lines != [] && OneLineEach(lines)
    ensures Lines(Join(CommentOut(lines, key), '\n')) == CommentOut(lines, key)
  {
    CommentStaysLines(lines, key);
    LinesOfJoined(CommentOut(lines, key));
  }

  method WireApiText(apiText: string, minted: string) returns (out: string)
    requires '\n' !in minted
    ensures Lines(out) == WireApi(Lines(apiText), minted)
  {
    LinesAreLines(apiText);
    NamesAreOneLine(AuthMode);
    out := SetEnvKey(apiText, KeyName(AuthMode), "local");
    LinesOfSet(Lines(apiText), KeyName(AuthMode), "local");
    LinesAreLines(out);
    NamesAreOneLine(SessionSigningSecret);
    ExistingIsOneLine(Lines(out), KeyName(SessionSigningSecret));
    var secret := Resolve(Lines(out), KeyName(SessionSigningSecret), minted);
    LinesOfSet(Lines(out), KeyName(SessionSigningSecret), secret);
    out := SetEnvKey(out, KeyName(SessionSigningSecret), secret);
    LinesAreLines(out);
    LinesOfComment(Lines(out), KeyName(OidcIssuer));
    out := CommentOutEnvKey(out, KeyName(OidcIssuer));
    LinesAreLines(out);
    LinesOfComment(Lines(out), KeyName(OidcJwksUri));
    out := CommentOutEnvKey(out, KeyName(OidcJwksUri));
  }

  function CommentOutAll(lines: seq<string>, keys: seq<EnvKey>): seq<string>
    decreases |keys|
  {
    if keys == [] then lines else CommentOutAll(CommentOut(lines, KeyName(keys[0])), keys[1..])
  }

  lemma CommentKeepsActive(lines: seq<string>, j: EnvKey, k: EnvKey)
    requires j != k
    ensures NoneActive(CommentOut(lines, KeyName(j)), KeyName(k)) <==> NoneActive(lines, KeyName(k))
  {
    NamesAreKeys(k);
    NamesDiffer(j, k);
    CommentOther(lines, j, KeyName(k));
    NoneActiveAbout(lines, KeyName(k));
    NoneActiveAbout(CommentOut(lines, KeyName(j)), KeyName(k));
  }

  /** One turn of the loop: the text after it, and whether it differs from the text before. */
  method CommentOutNext(text: string, key: EnvKey) returns (next: string)
    ensures Lines(next) == CommentOut(Lines(text), KeyName(key))
    ensures next == text <==> NoneActive(Lines(text), KeyName(key))
  {
    LinesAreLines(text);
    LinesOfComment(Lines(text), KeyName(key));
    CommentChangesIff(Lines(text), KeyName(key));
    next := CommentOutEnvKey(text, KeyName(key));
  }

  const ISSUER_KEYS := [AuthIssuer, AuthClientId, AuthClientSecret]

  /** The keys among `keys` that some line sets. */
  function SetIn(lines: seq<string>, keys: seq<EnvKey>): (named: seq<EnvKey>)
    ensures forall k :: k in named <==> k in keys && !NoneActive(lines, KeyName(k))
  {
    if keys == [] then []
    else (if NoneActive(lines, KeyName(keys[0])) then [] else [keys[0]]) + SetIn(lines, keys[1..])
  }

  /** Commenting the first of several different keys out does not change which of the others are set. */
  lemma {:induction false} SetInRest(lines: seq<string>, j: EnvKey, keys: seq<EnvKey>)
    requires j !in keys
    ensures SetIn(CommentOut(lines, KeyName(j)), keys) == SetIn(lines, keys)
  {
    if keys != [] {
      CommentKeepsActive(lines, j, keys[0]);
      SetInRest(lines, j, keys[1..]);
    }
  }

  lemma CommentOutThree(lines: seq<string>)
    requires PointsAtRemoved(lines)
    ensures CommentOutAll(lines, ISSUER_KEYS) == DisableRemoved(lines)
  {
    assert ISSUER_KEYS[1..] == [AuthClientId, AuthClientSecret];
    assert ISSUER_KEYS[1..][1..] == [AuthClientSecret];
    assert ISSUER_KEYS[1..][1..][1..] == [];
  }

  predicate NoKeyTwice(keys: seq<EnvKey>) {
    keys == [] || (keys[0] !in keys[1..] && NoKeyTwice(keys[1..]))
  }

  lemma MoveOne<T>(done: seq<T>, x: T, rest: seq<T>)
    ensures done + ([x] + rest) == done + [x] + rest
    ensures done + ([] + rest) == done + rest
  {
  }

  /** Between two turns of the loop: what is done so far and what the remaining keys will still do. */
  ghost predicate HalfDisabled(
      was: seq<string>, lines: seq<string>, all: seq<EnvKey>, disabled: seq<EnvKey>, keys: seq<EnvKey>)
  {
    && CommentOutAll(lines, keys) == CommentOutAll(was, all)
    && disabled + SetIn(lines, keys) == SetIn(was, all)
    && NoKeyTwice(keys)
  }

  lemma DisableNext(was: seq<string>, lines: seq<string>, all: seq<EnvKey>, disabled: seq<EnvKey>, keys: seq<EnvKey>)
    requires HalfDisabled(was, lines, all, disabled, keys) && keys != []
    ensures var more := if NoneActive(lines, KeyName(keys[0])) then disabled else disabled + [keys[0]];
            HalfDisabled(was, CommentOut(lines, KeyName(keys[0])), all, more, keys[1..])
  {
    SetInRest(lines, keys[0], keys[1..]);
    MoveOne(disabled, keys[0], SetIn(lines, keys[1..]));
  }

  /** `disabled` names, in order, the keys that some line did set. */
  method DisableRemovedDevIdp(text: string) returns (out: string, disabled: seq<EnvKey>)
    ensures Lines(out) == DisableRemoved(Lines(text))
    ensures !PointsAtRemoved(Lines(text)) ==> out == text && disabled == []
    ensures PointsAtRemoved(Lines(text)) ==> disabled == SetIn(Lines(text), ISSUER_KEYS)
  {
    out, disabled := text, [];
    ghost var was := Lines(text);
    if !PointsAtRemoved(Lines(text)) {
      return;
    }
    CommentOutThree(was);
    var keys := ISSUER_KEYS;
    assert [] + SetIn(was, keys) == SetIn(was, keys);
    assert keys[1..] == [AuthClientId, AuthClientSecret] && keys[1..][1..] == [AuthClientSecret];
    while keys != []
      invariant HalfDisabled(was, Lines(out), ISSUER_KEYS, disabled, keys)
      decreases |keys|
    {
      DisableNext(was, Lines(out), ISSUER_KEYS, disabled, keys);
      var next := CommentOutNext(out, keys[0]);
      if next != out {
        disabled := disabled + [keys[0]];
      }
      out := next;
      keys := keys[1..];
    }
  }

  lemma {:induction false} SetInAfterLocalAuth(lines: seq<string>, keys: seq<EnvKey>)
    requires lines != [] && AuthMode !in keys
    ensures SetIn(WithLocalAuth(lines), keys) == SetIn(lines, keys)
  {
    if keys != [] {
      SetInAfterLocalAuth(lines, keys[1..]);
      NamesAreKeys(AuthMode);
      NamesAreKeys(keys[0]);
      NamesDiffer(AuthMode, keys[0]);
      SetKeepsOthers(lines, KeyName(AuthMode), "local", KeyName(keys[0]));
      NoneActiveAbout(lines, KeyName(keys[0]));
      NoneActiveAbout(WithLocalAuth(lines), KeyName(keys[0]));
    }
  }

  /** `disabled` names what the text had, and what is off now. */
  method WireWebText(webText: string) returns (out: string, disabled: seq<EnvKey>)
    ensures Lines(out) == WireWeb(Lines(webText))
    ensures disabled == if PointsAtRemoved(Lines(webText)) then SetIn(Lines(webText), ISSUER_KEYS) else []
  {
    SamePointer(Lines(webText), WithLocalAuth(Lines(webText)));
    SetInAfterLocalAuth(Lines(webText), ISSUER_KEYS);
    LinesAreLines(webText);
    NamesAreOneLine(AuthMode);
    LinesOfSet(Lines(webText), KeyName(AuthMode), "local");
    out := SetEnvKey(webText, KeyName(AuthMode), "local");
    out, disabled := DisableRemovedDevIdp(out);
  }
}
