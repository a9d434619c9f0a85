/**
 What the wiring leaves in a file, said without its edits: the settings it makes, the values it keeps behind a
 comment sign, and the lines it has nothing to do with.
 */
module WiringMeaning {
  import opened Options
  import opened Text
  import opened Splitting
  import opened Filtering
  import opened EnvLines
  import opened DevEnv
  import opened LocalWiring

  // ----- which lines an edit is about -----

  predicate AllSpace(s: string) {
    forall k :: 0 <= k < |s| ==> IsSpace(s[k])
  }

  /** The key, perhaps white space, the sign and whatever comes after it, behind `front`. */
  function KeyLine(front: string, key: string, spaces: string, value: string): string {
    front + key + spaces + "=" + value
  }

  lemma KeyIsAt(front: string, key: string, spaces: string, value: string)
    requires AllSpace(spaces)
    ensures KeyAt(KeyLine(front, key, spaces, value), key, |front|)
  {
    var line := KeyLine(front, key, spaces, value);
    KeyLineParts(front, key, spaces, value);
    SpacesThenSign(spaces, value);
    assert line[|front| + |key|..] == spaces + ("=" + value);
  }

  lemma KeyLineParts(front: string, key: string, spaces: string, value: string)
    ensures var line := KeyLine(front, key, spaces, value);
            && HasAt(line, key, |front|) && line[..|front|] == front
            && line[|front| + |key|..] == spaces + ("=" + value)
            && line[|front| + |key| + |spaces|] == '='
  {
    var line := KeyLine(front, key, spaces, value);
    ConcatAssoc(front + key, spaces, "=");
    ConcatAssoc(front + key, spaces + "=", value);
    ConcatAssoc(spaces, "=", value);
    PiecesOf(front + key, spaces + ("=" + value));
    assert line == (front + key) + (spaces + ("=" + value));
    assert (spaces + ("=" + value))[|spaces|] == '=';
  }

  lemma SpacesThenSign(spaces: string, value: string)
    requires AllSpace(spaces)
    ensures LeadingSpace(spaces + ("=" + value)) == |spaces|
  {
    assert (spaces + ("=" + value))[|spaces|] == '=';
    LeadingIs(spaces + ("=" + value), |spaces|);
  }

  lemma KeyParts(line: string, key: string, i: nat) returns (spaces: string, value: string)
    requires i <= |line| && KeyAt(line, key, i)
    ensures AllSpace(spaces) && line == KeyLine(line[..i], key, spaces, value)
  {
    var behind := line[i + |key|..];
    var n := LeadingSpace(behind);
    spaces, value := behind[..n], behind[n + 1..];
    assert behind == spaces + "=" + value;
    assert line == line[..i] + key + behind;
    ConcatAssoc(line[..i] + key, spaces + "=", value);
    ConcatAssoc(line[..i] + key, spaces, "=");
  }

  lemma FirstOfKey(line: string, key: string, i: nat)
    requires IsKey(key) && KeyAt(line, key, i)
    ensures i < |line| && !IsSpace(line[i])
  {
    assert line[i..i + |key|][0] == line[i];
  }

  lemma LeadsTo(indent: string, key: string, spaces: string, value: string)
    requires IsKey(key) && AllSpace(indent) && AllSpace(spaces)
    ensures LeadingSpace(KeyLine(indent, key, spaces, value)) == |indent|
  {
    var line := KeyLine(indent, key, spaces, value);
    KeyIsAt(indent, key, spaces, value);
    KeyLineParts(indent, key, spaces, value);
    FirstOfKey(line, key, |indent|);
    forall k | 0 <= k < |indent| ensures IsSpace(line[k]) {
      assert line[..|indent|][k] == indent[k];
    }
    LeadingIs(line, |indent|);
  }

  /** A line sets a key exactly when it is the key and the sign, with white space in front of either, and a value. */
  lemma ActiveLines(indent: string, key: string, spaces: string, value: string)
    requires IsKey(key) && AllSpace(indent) && AllSpace(spaces)
    ensures Active(KeyLine(indent, key, spaces, value), key)
  {
    KeyIsAt(indent, key, spaces, value);
    LeadsTo(indent, key, spaces, value);
  }

  lemma EveryActiveLine(line: string, key: string) returns (indent: string, spaces: string, value: string)
    requires Active(line, key)
    ensures AllSpace(indent) && AllSpace(spaces) && line == KeyLine(indent, key, spaces, value)
  {
    indent := line[..LeadingSpace(line)];
    spaces, value := KeyParts(line, key, LeadingSpace(line));
  }

  /** A line can be set when it is that without the indent, or behind a comment sign with white space around it. */
  lemma SettableLines(indent: string, gap: string, key: string, spaces: string, value: string)
    requires IsKey(key) && AllSpace(indent) && AllSpace(gap) && AllSpace(spaces)
    ensures Settable(KeyLine("", key, spaces, value), key)
    ensures Settable(KeyLine(indent + "#" + gap, key, spaces, value), key)
  {
    var line := KeyLine(indent + "#" + gap, key, spaces, value);
    KeyIsAt("", key, spaces, value);
    KeyIsAt(indent + "#" + gap, key, spaces, value);
    KeyLineParts(indent + "#" + gap, key, spaces, value);
    FirstOfKey(line, key, |indent + "#" + gap|);
    SignBehind(line, indent, gap);
  }

  lemma SignBehind(line: string, indent: string, gap: string)
    requires AllSpace(indent) && AllSpace(gap) && |indent + "#" + gap| < |line|
    requires line[..|indent + "#" + gap|] == indent + "#" + gap && !IsSpace(line[|indent + "#" + gap|])
    ensures Commented(line) == Some(|indent + "#" + gap|)
  {
    var front, hash := indent + "#" + gap, |indent|;
    SignAndSpace();
    forall k | 0 <= k < |front| ensures line[k] == front[k] {
      assert line[..|front|][k] == line[k];
    }
    LeadingIs(line, hash);
    var rest := line[hash + 1..];
    forall k | 0 <= k < |gap| ensures IsSpace(rest[k]) {
      assert rest[k] == front[hash + 1 + k] == gap[k];
    }
    LeadingIs(rest, |gap|);
  }

  lemma FrontOfComment(line: string) returns (indent: string, gap: string)
    requires Commented(line).Some?
    ensures Commented(line).value <= |line| && line[..Commented(line).value] == indent + "#" + gap
    ensures AllSpace(indent) && AllSpace(gap)
  {
    var hash, rest := LeadingSpace(line), line[LeadingSpace(line) + 1..];
    indent, gap := line[..hash], rest[..LeadingSpace(rest)];
    assert line == (indent + "#") + rest;
    TakeInto(indent + "#", rest, |gap|);
  }

  lemma EverySettableLine(line: string, key: string)
      returns (commented: bool, indent: string, gap: string, spaces: string, value: string)
    requires Settable(line, key)
    ensures AllSpace(indent) && AllSpace(gap) && AllSpace(spaces)
    ensures line == KeyLine(if commented then indent + "#" + gap else "", key, spaces, value)
  {
    commented, indent, gap := !KeyAt(line, key, 0), "", "";
    if commented {
      indent, gap := FrontOfComment(line);
      spaces, value := KeyParts(line, key, Commented(line).value);
    } else {
      spaces, value := KeyParts(line, key, 0);
      assert line[..0] == "";
    }
  }

  // ----- the lines an edit leaves alone -----

  /** The lines that do not concern the key: blank ones, remarks, and those about other keys, in order. */
  function Rest(lines: seq<string>, key: string): seq<string> {
    Filter(lines, ConcernsNotKey(key))
  }

  function ConcernsNotKey(key: string): string -> bool {
    line => !Concerns(line, key)
  }

  /** Setting a key changes nothing else in the file, but for a blank line before a new last one. */
  lemma SetLeavesTheRest(lines: seq<string>, key: string, value: string)
    requires IsKey(key) && lines != []
    ensures var kept := forall k :: 0 <= k < |lines| ==> !Settable(lines[k], key);
            Rest(SetKey(lines, key, value), key)
            == Rest(lines, key) + if kept && lines[|lines| - 1] != "" then [""] else []
  {
    var i, line := FirstSettable(lines, key), Assignment(key, value);
    AssignmentSets(key, value);
    BlankConcernsNothing(key);
    if i < |lines| {
      assert Settable(lines[i], key);
      ReplaceDropped(lines, i, line, ConcernsNotKey(key));
    } else {
      FilterOne("", ConcernsNotKey(key));
      FilterOne(line, ConcernsNotKey(key));
      FilterConcat(lines + Gap(lines), [line], ConcernsNotKey(key));
      FilterConcat(lines, Gap(lines), ConcernsNotKey(key));
    }
  }

  /** Commenting a key out changes nothing else at all. */
  lemma {:induction false} CommentLeavesTheRest(lines: seq<string>, key: string)
    requires IsKey(key)
    ensures Rest(CommentOut(lines, key), key) == Rest(lines, key)
  {
    if lines != [] {
      CommentLeavesTheRest(lines[1..], key);
      if Active(lines[0], key) {
        CommentedLine(lines[0], key);
      }
    }
  }

  /** What a line that sets the key sets it to is what stands behind the sign. */
  lemma ValueOfLine(indent: string, key: string, spaces: string, value: string)
    requires IsKey(key) && AllSpace(indent) && AllSpace(spaces)
    ensures Active(KeyLine(indent, key, spaces, value), key)
    ensures Remainder(KeyLine(indent, key, spaces, value), key) == value
  {
    ActiveLines(indent, key, spaces, value);
    LeadsTo(indent, key, spaces, value);
    KeyLineParts(indent, key, spaces, value);
    SpacesThenSign(spaces, value);
    PiecesOf(indent + key + spaces + "=", value);
  }

  lemma IndentFirst(indent: string, key: string, spaces: string, value: string)
    ensures KeyLine(indent, key, spaces, value) == indent + KeyLine("", key, spaces, value)
  {
    ConcatAssoc(indent, key, spaces);
    ConcatAssoc(indent, key + spaces, "=");
    ConcatAssoc(indent, key + spaces + "=", value);
    assert "" + key == key;
  }

  lemma Unindented(indent: string, key: string, spaces: string, value: string)
    requires IsKey(key) && AllSpace(indent) && AllSpace(spaces)
    ensures TrimStart(KeyLine(indent, key, spaces, value)) == KeyLine("", key, spaces, value)
  {
    LeadsTo(indent, key, spaces, value);
    IndentFirst(indent, key, spaces, value);
    PiecesOf(indent, KeyLine("", key, spaces, value));
  }

  /** A line that is commented out keeps all but its indent behind the sign; one that does not set the key stays. */
  lemma CommentKeepsTheValue(indent: string, key: string, spaces: string, value: string, other: string)
    requires IsKey(key) && AllSpace(indent) && AllSpace(spaces)
    ensures CommentLine(KeyLine(indent, key, spaces, value), key) == "# " + KeyLine("", key, spaces, value)
    ensures !Active(other, key) ==> CommentLine(other, key) == other
  {
    ActiveLines(indent, key, spaces, value);
    Unindented(indent, key, spaces, value);
  }

  // ----- what may sign sessions -----

  predicate IsHex(c: char) {
    '0' <= c <= '9' || 'a' <= c <= 'f'
  }

  /** Thirty-two random bytes in hexadecimal are a secret the bootstrap accepts again. */
  lemma HexSecretsAreMinted(secret: string)
    requires |secret| == 64 && forall i :: 0 <= i < |secret| ==> IsHex(secret[i])
    ensures Minted(secret)
  {
    var lower := ToLower(secret);
    forall i | 0 <= i < |lower| ensures !HasAt(lower, "change_me", i) {
      assert "change_me"[1] == 'h';
      if i + 1 < |lower| {
        HexIsLower(secret[i + 1]);
      }
      OtherCharacter(lower, "change_me", i, 1);
    }
    HexIsNoSpace(secret[0]);
    HexIsNoSpace(secret[63]);
  }

  lemma HexIsNoSpace(c: char)
    requires IsHex(c)
    ensures !IsSpace(c)
  {
  }

  lemma HexIsLower(c: char)
    requires IsHex(c)
    ensures Lower(c) == c && c != 'h'
  {
  }

  lemma OtherCharacter(s: string, piece: string, i: nat, k: nat)
    requires k < |piece| && (i + k < |s| ==> s[i + k] != piece[k])
    ensures !HasAt(s, piece, i)
  {
  }

  lemma PieceIsAt(s: string, piece: string, i: nat, j: nat)
    requires i <= j <= |s| && s[i..j] == piece
    ensures HasAt(s, piece, i)
  {
  }

  ghost predicate HoldsInAnyCase(s: string, piece: string) {
    exists i, j :: Within(ToLower(s), i, j, piece)
  }

  /** `piece` stands between `i` and `j`. */
  predicate Within(s: string, i: int, j: int, piece: string) {
    0 <= i <= j <= |s| && s[i..j] == piece
  }

  /** A secret is refused exactly when it is short or has the placeholder in it, in any case. */
  lemma AcceptableIff(secret: string)
    ensures Acceptable(secret) <==> |secret| >= 32 && !HoldsInAnyCase(secret, "change_me")
  {
    var lower := ToLower(secret);
    if HoldsInAnyCase(secret, "change_me") {
      var i, j :| Within(lower, i, j, "change_me");
      PieceIsAt(lower, "change_me", i, j);
      assert i < |secret|;
    } else if !Acceptable(secret) && |secret| >= 32 {
      var i :| 0 <= i < |secret| && HasAt(lower, "change_me", i);
      assert Within(lower, i, i + |"change_me"|, "change_me");
    }
  }

  // ----- the API's file -----

  /** The first line that sets the key, or would behind its comment sign, reads just this. */
  predicate FirstReads(lines: seq<string>, key: string, text: string) {
    var i := FirstSettable(lines, key); i < |lines| && lines[i] == text
  }

  lemma FirstReadsAbout(lines: seq<string>, key: string, text: string)
    ensures FirstReads(About(lines, key), key, text) <==> FirstReads(lines, key, text)
  {
    FirstInFilter(lines, ConcernsKey(key), SetsKey(key));
  }

  lemma SetReads(lines: seq<string>, key: string, value: string)
    requires IsKey(key) && lines != []
    ensures FirstReads(SetKey(lines, key, value), key, key + "=" + value)
  {
    SetIsSet(lines, key, value);
    FirstReadsAbout(SetKey(lines, key, value), key, key + "=" + value);
  }

  /** Sign-in is local, sessions are signed with an acceptable secret, and no provider is set, in every file. */
  lemma ApiIsWired(lines: seq<string>, minted: string)
    requires lines != [] && Minted(minted)
    ensures var out := WireApi(lines, minted);
            && FirstReads(out, "AUTH_MODE", "AUTH_MODE" + "=" + "local")
            && (exists secret :: Acceptable(secret)
                  && FirstReads(out, "SESSION_SIGNING_SECRET", "SESSION_SIGNING_SECRET" + "=" + secret))
            && NoneActive(out, "OIDC_ISSUER") && NoneActive(out, "OIDC_JWKS_URI")
  {
    var out, a := WireApi(lines, minted), WithLocalAuth(lines);
    NamesAreKeys(AuthMode);
    NamesAreKeys(SessionSigningSecret);
    ApiAbout(lines, minted);
    LocalReads(lines, out);
    SecretReads(a, out, minted);
    NoneActiveAbout(out, "OIDC_ISSUER");
    NoneActiveAbout(out, "OIDC_JWKS_URI");
  }

  lemma LocalReads(lines: seq<string>, out: seq<string>)
    requires lines != [] && About(out, "AUTH_MODE") == About(WithLocalAuth(lines), "AUTH_MODE")
    ensures FirstReads(out, "AUTH_MODE", "AUTH_MODE" + "=" + "local")
  {
    NamesAreKeys(AuthMode);
    SetReads(lines, "AUTH_MODE", "local");
    FirstReadsAbout(out, "AUTH_MODE", "AUTH_MODE" + "=" + "local");
    FirstReadsAbout(WithLocalAuth(lines), "AUTH_MODE", "AUTH_MODE" + "=" + "local");
  }

  lemma SecretReads(lines: seq<string>, out: seq<string>, minted: string)
    requires lines != [] && Minted(minted)
    requires About(out, "SESSION_SIGNING_SECRET") == About(WithSecret(lines, minted), "SESSION_SIGNING_SECRET")
    ensures exists secret :: Acceptable(secret)
              && FirstReads(out, "SESSION_SIGNING_SECRET", "SESSION_SIGNING_SECRET" + "=" + secret)
  {
    var key, secret := "SESSION_SIGNING_SECRET", Resolve(lines, "SESSION_SIGNING_SECRET", minted);
    NamesAreKeys(SessionSigningSecret);
    ResolveIsMinted(lines, key, minted);
    SetReads(lines, key, secret);
    FirstReadsAbout(out, key, key + "=" + secret);
    FirstReadsAbout(WithSecret(lines, minted), key, key + "=" + secret);
  }

  // ----- the web's file -----

  lemma {:induction false} FirstValueIs(front: seq<string>, line: string, back: seq<string>, key: string)
    requires NoneActive(front, key) && Active(line, key)
    ensures FirstValue(front + [line] + back, key) == Some(Unquote(Trim(Remainder(line, key))))
  {
    if front == [] {
      assert front + [line] == [line];
      TailOfConcat([line], back);
    } else {
      FirstValueIs(front[1..], line, back, key);
      TailOfConcat(front + [line], back);
      TailOfConcat(front, [line]);
    }
  }

  /** The first line that sets the issuer decides, by what is between its quotes; without one, nothing is removed. */
  lemma FirstIssuerDecides(front: seq<string>, line: string, back: seq<string>)
    requires NoneActive(front, "AUTH_ISSUER")
    ensures !PointsAtRemoved(front)
    ensures Active(line, "AUTH_ISSUER")
      ==> (PointsAtRemoved(front + [line] + back)
           <==> IsRemovedIssuer(Unquote(Trim(Remainder(line, "AUTH_ISSUER")))))
  {
    NoneActiveNoValue(front, "AUTH_ISSUER");
    if Active(line, "AUTH_ISSUER") {
      FirstValueIs(front, line, back, "AUTH_ISSUER");
    }
  }

  /** Sign-in is local, and the three issuer settings are off where the issuer was the removed one, or as they were. */
  lemma WebIsWired(lines: seq<string>, k: EnvKey)
    requires lines != [] && IsIssuerKey(k)
    ensures FirstReads(WireWeb(lines), "AUTH_MODE", "AUTH_MODE" + "=" + "local")
    ensures if PointsAtRemoved(lines) then NoneActive(WireWeb(lines), KeyName(k))
            else About(WireWeb(lines), KeyName(k)) == About(lines, KeyName(k))
  {
    var a := WithLocalAuth(lines);
    NamesAreKeys(AuthMode);
    NamesAreKeys(k);
    forall j: EnvKey | IsIssuerKey(j) ensures KeyName(AuthMode) != KeyName(j) {
      NamesDiffer(AuthMode, j);
    }
    DisableKeepsOthers(a, KeyName(AuthMode));
    LocalReads(lines, WireWeb(lines));
    SetKeepsOthers(lines, KeyName(AuthMode), "local", KeyName(k));
    SamePointer(lines, a);
    DisabledTogetherIff(a, k);
    NoneActiveAbout(WireWeb(lines), KeyName(k));
  }

  lemma SamePointer(lines: seq<string>, a: seq<string>)
    requires lines != [] && a == WithLocalAuth(lines)
    ensures PointsAtRemoved(a) <==> PointsAtRemoved(lines)
  {
    NamesAreKeys(AuthMode);
    NamesAreKeys(AuthIssuer);
    NamesDiffer(AuthMode, AuthIssuer);
    SetKeepsOthers(lines, KeyName(AuthMode), "local", KeyName(AuthIssuer));
    FirstValueAbout(lines, KeyName(AuthIssuer));
    FirstValueAbout(a, KeyName(AuthIssuer));
  }

  lemma Unquoted(quote: char, s: string)
    requires IsQuote(quote)
    ensures Unquote([quote] + s + [quote]) == s
    ensures s != "" && !IsQuote(s[0]) && !IsQuote(s[|s| - 1]) ==> Unquote(s) == s
  {
    var t := [quote] + s + [quote];
    assert t[1..] == s + [quote];
    assert (s + [quote])[..|s|] == s;
  }

  /** The scheme, the host and the port of the removed provider, and nothing or a path behind them. */
  predicate RemovedParts(scheme: string, host: string, path: string) {
    && (scheme == "http" || scheme == "https") && (host == "localhost" || host == "127.0.0.1")
    && (path == "" || path[0] == '/')
  }

  lemma UnderBase(base: string, path: string)
    requires path == "" || path[0] == '/'
    ensures IsAt(base + path, base)
  {
    if path == "" {
      assert base + path == base;
    } else {
      assert (base + path)[..|base| + 1] == base + "/";
    }
  }

  lemma PathOf(url: string, base: string) returns (path: string)
    requires IsAt(url, base)
    ensures url == base + path && (path == "" || path[0] == '/')
  {
    path := url[|base|..];
    if url != base {
      assert url[..|base| + 1] == base + "/";
      assert url[|base|] == '/' && url[..|base|] == base;
    }
  }

  lemma HttpBases()
    ensures "http" + "://" + "localhost" + ":8080" == "http://localhost:8080"
    ensures "http" + "://" + "127.0.0.1" + ":8080" == "http://127.0.0.1:8080"
  {
  }

  lemma HttpsBases()
    ensures "https" + "://" + "localhost" + ":8080" == "https://localhost:8080"
    ensures "https" + "://" + "127.0.0.1" + ":8080" == "https://127.0.0.1:8080"
  {
  }

  lemma Bases(scheme: string, host: string, url: string)
    requires (scheme == "http" || scheme == "https") && (host == "localhost" || host == "127.0.0.1")
    requires IsAt(url, scheme + "://" + host + ":8080")
    ensures IsRemovedIssuer(url)
  {
    HttpBases();
    HttpsBases();
  }

  lemma RemovedIssuers(scheme: string, host: string, path: string)
    requires RemovedParts(scheme, host, path)
    ensures IsRemovedIssuer(scheme + "://" + host + ":8080" + path)
  {
    UnderBase(scheme + "://" + host + ":8080", path);
    Bases(scheme, host, scheme + "://" + host + ":8080" + path);
  }

  lemma EveryRemovedIssuer(url: string) returns (scheme: string, host: string, path: string)
    requires IsRemovedIssuer(url)
    ensures RemovedParts(scheme, host, path) && url == scheme + "://" + host + ":8080" + path
  {
    HttpBases();
    HttpsBases();
    if IsAt(url, "http://localhost:8080") {
      scheme, host := "http", "localhost";
    } else if IsAt(url, "https://localhost:8080") {
      scheme, host := "https", "localhost";
    } else if IsAt(url, "http://127.0.0.1:8080") {
      scheme, host := "http", "127.0.0.1";
    } else {
      scheme, host := "https", "127.0.0.1";
    }
    path := PathOf(url, scheme + "://" + host + ":8080");
  }
}
