/** How the bootstrap wires the API's and the web's `.env` for local sign-in, run after run. */
module LocalWiring {
  import opened Options
  import opened Text
  import opened Filtering
  import opened EnvLines
  import opened DevEnv

  datatype EnvKey =
    | AuthMode | SessionSigningSecret | OidcIssuer | OidcJwksUri | AuthIssuer | AuthClientId | AuthClientSecret

  function KeyName(k: EnvKey): string {
    match k
    case AuthMode => "AUTH_MODE"
    case SessionSigningSecret => "SESSION_SIGNING_SECRET"
    case OidcIssuer => "OIDC_ISSUER"
    case OidcJwksUri => "OIDC_JWKS_URI"
    case AuthIssuer => "AUTH_ISSUER"
    case AuthClientId => "AUTH_CLIENT_ID"
    case AuthClientSecret => "AUTH_CLIENT_SECRET"
  }

  predicate IsNameChar(c: char) {
    'A' <= c <= 'Z' || c == '_'
  }

  lemma PlainIsKey(key: string)
    requires key != "" && forall i :: 0 <= i < |key| ==> IsNameChar(key[i])
    ensures IsKey(key)
  {
  }

  lemma NamesAreKeys(k: EnvKey)
    ensures IsKey(KeyName(k))
  {
    PlainIsKey(KeyName(k));
  }

  lemma NamesDiffer(j: EnvKey, k: EnvKey)
    requires j != k
    ensures KeyName(j) != KeyName(k)
  {
    assert KeyName(OidcIssuer)[0] != KeyName(AuthIssuer)[0];
  }

  // ----- reading a value -----

  /** What stands behind the `=` of a line that sets `key`. */
  function Remainder(line: string, key: string): string
    requires Active(line, key)
  {
    var end := LeadingSpace(line) + |key|;
    line[end + LeadingSpace(line[end..]) + 1..]
  }

  /** The value on the first line that sets `key` to anything at all. */
  function Existing(lines: seq<string>, key: string): Option<string> {
    if lines == [] then None
    else if Active(lines[0], key) && Remainder(lines[0], key) != "" then Some(Trim(Remainder(lines[0], key)))
    else Existing(lines[1..], key)
  }

  /** Long enough, and not the placeholder of the example file, in any case. */
  predicate Acceptable(secret: string) {
    |secret| >= 32 && forall i :: 0 <= i < |secret| ==> !HasAt(ToLower(secret), "change_me", i)
  }

  /** A secret as the bootstrap mints it. */
  predicate Minted(secret: string) {
    Acceptable(secret) && Trimmed(secret) && secret != ""
  }

  /** What is there, if it is acceptable. */
  function Choose(existing: Option<string>, minted: string): string {
    if existing.Some? && Acceptable(existing.value) then existing.value else minted
  }

  function Resolve(lines: seq<string>, key: string, minted: string): string {
    Choose(Existing(lines, key), minted)
  }

  lemma {:induction false} ExistingAbout(lines: seq<string>, key: string)
    ensures Existing(About(lines, key), key) == Existing(lines, key)
  {
    if lines != [] {
      ExistingAbout(lines[1..], key);
      if Concerns(lines[0], key) {
        assert About(lines, key)[1..] == About(lines[1..], key);
      }
    }
  }

  lemma {:induction false} ExistingConcat(a: seq<string>, b: seq<string>, key: string)
    ensures Existing(a + b, key) == if Existing(a, key).Some? then Existing(a, key) else Existing(b, key)
  {
    if a == [] {
      assert a + b == b;
    } else {
      ExistingConcat(a[1..], b, key);
      TailOfConcat(a, b);
    }
  }

  /** Behind the key of a line stands `=` and then its value. */
  lemma BehindTheKey(front: string, key: string, value: string)
    ensures var line, end := front + Assignment(key, value), |front| + |key|;
            line[end..] == "=" + value && line[end + 1..] == value
  {
    var line, end := front + Assignment(key, value), |front| + |key|;
    assert line == (front + key) + ("=" + value);
    PiecesOf(front + key, "=" + value);
    DropInto(front + key, "=" + value, 1);
    PiecesOf("=", value);
  }

  lemma LeadingEquals(value: string)
    ensures LeadingSpace("=" + value) == 0
  {
    assert ("=" + value)[0] == '=';
    LeadingIs("=" + value, 0);
  }

  lemma RemainderOf(line: string, key: string, value: string)
    requires Active(line, key) && line[LeadingSpace(line) + |key|..] == "=" + value
    requires line[LeadingSpace(line) + |key| + 1..] == value
    ensures Remainder(line, key) == value
  {
    LeadingEquals(value);
  }

  lemma RemainderIs(front: string, key: string, value: string)
    requires Active(front + Assignment(key, value), key) && LeadingSpace(front + Assignment(key, value)) == |front|
    ensures Remainder(front + Assignment(key, value), key) == value
  {
    BehindTheKey(front, key, value);
    RemainderOf(front + Assignment(key, value), key, value);
  }

  lemma LineGives(line: string, key: string, value: string)
    requires Active(line, key) && Remainder(line, key) == value && Trimmed(value) && value != ""
    ensures Existing([line], key) == Some(value)
  {
    TrimKeepsTrimmed(value);
  }

  lemma AssignmentGives(key: string, value: string)
    requires IsKey(key) && Trimmed(value) && value != ""
    ensures Existing([Assignment(key, value)], key) == Some(value)
  {
    var line := Assignment(key, value);
    AssignmentSets(key, value);
    assert "" + line == line;
    RemainderIs("", key, value);
    LineGives(line, key, value);
  }

  lemma {:induction false} ExistingIsTrimmed(lines: seq<string>, key: string)
    ensures Existing(lines, key).Some? ==> Trimmed(Existing(lines, key).value)
  {
    if lines != [] {
      if Active(lines[0], key) {
        TrimTrims(Remainder(lines[0], key));
      }
      ExistingIsTrimmed(lines[1..], key);
    }
  }

  /**
   An unacceptable secret on an indented line that comes before every line the bootstrap would replace: it is
   read first on every run and never replaced.
   */
  predicate Blocked(lines: seq<string>, key: string) {
    var before := Existing(lines[..FirstSettable(lines, key)], key);
    before.Some? && !Acceptable(before.value)
  }

  /** A file that is blocked: one indented line with a secret that is not long enough. */
  lemma ShortIndentedSecretBlocks(key: string, secret: string)
    requires IsKey(key) && secret != "" && Trimmed(secret) && |secret| < 32
    ensures Blocked([" " + Assignment(key, secret)], key)
  {
    var line := " " + Assignment(key, secret);
    IndentedIsActive(key, secret);
    IndentedGives(key, secret);
    assert FirstSettable([line], key) == 1;
    assert [line][..1] == [line];
  }

  lemma IndentedGives(key: string, secret: string)
    requires IsKey(key) && secret != "" && Trimmed(secret)
    ensures Existing([" " + Assignment(key, secret)], key) == Some(secret)
  {
    var line := " " + Assignment(key, secret);
    IndentedIsActive(key, secret);
    SignAndSpace();
    assert line[1] == key[0];
    LeadingIs(line, 1);
    RemainderIs(" ", key, secret);
    LineGives(line, key, secret);
  }

  lemma ResolveIsMinted(lines: seq<string>, key: string, minted: string)
    requires Minted(minted)
    ensures Minted(Resolve(lines, key, minted))
  {
    ExistingIsTrimmed(lines, key);
  }

  lemma ExistingAfterReplace(lines: seq<string>, i: nat, key: string, value: string)
    requires IsKey(key) && i < |lines| && Trimmed(value) && value != ""
    ensures var before := Existing(lines[..i], key);
            Existing(lines[i := Assignment(key, value)], key) == if before.Some? then before else Some(value)
  {
    var front, line, back := lines[..i], Assignment(key, value), lines[i + 1..];
    assert lines[i := line] == front + ([line] + back);
    AssignmentGives(key, value);
    ExistingConcat([line], back, key);
    ExistingConcat(front, [line] + back, key);
  }

  lemma ExistingAfterAppend(lines: seq<string>, key: string, value: string)
    requires IsKey(key) && lines != [] && Trimmed(value) && value != ""
    ensures var before := Existing(lines, key);
            Existing(lines + Gap(lines) + [Assignment(key, value)], key) == if before.Some? then before else Some(value)
  {
    var line := Assignment(key, value);
    assert lines + Gap(lines) + [line] == lines + (Gap(lines) + [line]);
    AssignmentGives(key, value);
    BlankGivesNothing(key);
    ExistingConcat(Gap(lines), [line], key);
    ExistingConcat(lines, Gap(lines) + [line], key);
  }

  lemma ExistingAfterSet(lines: seq<string>, key: string, value: string)
    requires IsKey(key) && lines != [] && Trimmed(value) && value != ""
    ensures var before := Existing(lines[..FirstSettable(lines, key)], key);
            Existing(SetKey(lines, key, value), key) == if before.Some? then before else Some(value)
  {
    var i := FirstSettable(lines, key);
    if i < |lines| {
      ExistingAfterReplace(lines, i, key, value);
    } else {
      assert lines[..i] == lines;
      ExistingAfterAppend(lines, key, value);
    }
  }

  /** The secret one run writes is the one every later run finds, whatever it would mint, unless it is blocked. */
  lemma SecretIsReusedIff(lines: seq<string>, key: string, minted: string, later: string)
    requires IsKey(key) && lines != [] && Minted(minted)
    ensures var secret := Resolve(lines, key, minted);
            Resolve(SetKey(lines, key, secret), key, later) == if Blocked(lines, key) then later else secret
  {
    ResolveIsMinted(lines, key, minted);
    ExistingAfterSet(lines, key, Resolve(lines, key, minted));
    FirstIsFound(lines, key);
    ChosenAgain(Existing(lines[..FirstSettable(lines, key)], key), Existing(lines, key), minted, later);
  }

  lemma FirstIsFound(lines: seq<string>, key: string)
    ensures var before := Existing(lines[..FirstSettable(lines, key)], key);
            before.Some? ==> Existing(lines, key) == before
  {
    var i := FirstSettable(lines, key);
    CutInTwo(lines, i);
    ExistingConcat(lines[..i], lines[i..], key);
  }

  /** What was chosen stands behind `before`, and is chosen again unless something unacceptable is in front of it. */
  lemma ChosenAgain(before: Option<string>, existing: Option<string>, minted: string, later: string)
    requires (before.Some? ==> existing == before) && Acceptable(minted)
    ensures var chosen := Choose(existing, minted);
            Choose(if before.Some? then before else Some(chosen), later)
            == if before.Some? && !Acceptable(before.value) then later else chosen
  {
  }

  lemma BlankGivesNothing(key: string)
    requires IsKey(key)
    ensures Existing([""], key) == None && Existing([], key) == None
  {
    BlankConcernsNothing(key);
    assert Existing([""], key) == Existing([""][1..], key);
  }

  lemma BlockedAbout(lines: seq<string>, key: string)
    ensures Blocked(About(lines, key), key) <==> Blocked(lines, key)
  {
    var i := FirstSettable(lines, key);
    FirstInFilter(lines, ConcernsKey(key), SetsKey(key));
    ExistingAbout(lines[..i], key);
  }

  // ----- the API's file -----

  function WithLocalAuth(lines: seq<string>): (out: seq<string>)
    requires lines != []
    ensures out != []
  {
    SetKey(lines, KeyName(AuthMode), "local")
  }

  function WithSecret(lines: seq<string>, minted: string): (out: seq<string>)
    requires lines != []
    ensures out != []
  {
    SetKey(lines, KeyName(SessionSigningSecret), Resolve(lines, KeyName(SessionSigningSecret), minted))
  }

  function WireApi(lines: seq<string>, minted: string): (out: seq<string>)
    requires lines != []
    ensures out != []
  {
    var secret := WithSecret(WithLocalAuth(lines), minted);
    CommentOut(CommentOut(secret, KeyName(OidcIssuer)), KeyName(OidcJwksUri))
  }

  /** What one run leaves behind about each of the four keys. */
  lemma ApiAbout(lines: seq<string>, minted: string)
    requires lines != []
    ensures var out := WireApi(lines, minted);
            && About(out, KeyName(AuthMode)) == About(WithLocalAuth(lines), KeyName(AuthMode))
            && About(out, KeyName(SessionSigningSecret))
                 == About(WithSecret(WithLocalAuth(lines), minted), KeyName(SessionSigningSecret))
            && NoneActive(About(out, KeyName(OidcIssuer)), KeyName(OidcIssuer))
            && NoneActive(About(out, KeyName(OidcJwksUri)), KeyName(OidcJwksUri))
  {
    var mode, secret := KeyName(AuthMode), KeyName(SessionSigningSecret);
    var issuer, jwks := KeyName(OidcIssuer), KeyName(OidcJwksUri);
    forall k: EnvKey
      ensures IsKey(KeyName(k))
    {
      NamesAreKeys(k);
    }
    forall j: EnvKey, k: EnvKey | j != k
      ensures KeyName(j) != KeyName(k)
    {
      NamesDiffer(j, k);
    }
    var a := WithLocalAuth(lines);
    var b := WithSecret(a, minted);
    var c := CommentOut(b, issuer);
    SetKeepsOthers(a, secret, Resolve(a, secret, minted), mode);
    CommentKeepsOthers(b, issuer, mode);
    CommentKeepsOthers(c, jwks, mode);
    CommentKeepsOthers(b, issuer, secret);
    CommentKeepsOthers(c, jwks, secret);
    CommentKeepsOthers(c, jwks, issuer);
    CommentedOut(b, issuer);
    CommentedOut(c, jwks);
    NoneActiveAbout(c, issuer);
    NoneActiveAbout(CommentOut(c, jwks), jwks);
  }

  /** Commenting out a key that no line sets changes nothing. */
  lemma NothingToComment(lines: seq<string>, key: string)
    requires NoneActive(About(lines, key), key)
    ensures CommentOut(lines, key) == lines
  {
    CommentedEach(lines, key);
    NoneActiveAbout(lines, key);
  }

  /**
   A second run of the API wiring only ever concerns the secret: it leaves the file as it is, or, when an
   unacceptable secret blocks it, replaces the secret that the first run minted.
   */
  lemma SecondApiRun(lines: seq<string>, minted: string, later: string)
    requires lines != [] && Minted(minted)
    ensures var once, key := WireApi(lines, minted), KeyName(SessionSigningSecret);
            if Blocked(lines, key) then
              && WithSecret(once, later) == SetKey(once, key, later)
              && Resolve(WithLocalAuth(lines), key, minted) == minted
            else WithSecret(once, later) == once
  {
    var key := KeyName(SessionSigningSecret);
    var a, once := WithLocalAuth(lines), WireApi(lines, minted);
    var b := WithSecret(a, minted);
    NamesAreKeys(SessionSigningSecret);
    NamesAreKeys(AuthMode);
    NamesDiffer(AuthMode, SessionSigningSecret);
    ApiAbout(lines, minted);
    SetKeepsOthers(lines, KeyName(AuthMode), "local", key);
    BlockedAbout(lines, key);
    BlockedAbout(a, key);
    ExistingAbout(once, key);
    ExistingAbout(b, key);
    SecretIsReusedIff(a, key, minted, later);
    if Blocked(lines, key) {
      BlockedIsNotResolved(a, key, minted);
    } else {
      SetIsSet(a, key, Resolve(a, key, minted));
      SetStays(once, key, Resolve(a, key, minted));
    }
  }

  lemma BlockedIsNotResolved(lines: seq<string>, key: string, minted: string)
    requires Blocked(lines, key)
    ensures Resolve(lines, key, minted) == minted
  {
    FirstIsFound(lines, key);
  }

  lemma ApiWiringStays(lines: seq<string>, minted: string, later: string)
    requires lines != [] && Minted(minted) && !Blocked(lines, KeyName(SessionSigningSecret))
    ensures WireApi(WireApi(lines, minted), later) == WireApi(lines, minted)
  {
    var once := WireApi(lines, minted);
    LocalAuthStays(lines, minted);
    SecondApiRun(lines, minted, later);
    ApiAbout(lines, minted);
    NothingToComment(once, KeyName(OidcIssuer));
    NothingToComment(once, KeyName(OidcJwksUri));
  }

  lemma LocalAuthStays(lines: seq<string>, minted: string)
    requires lines != []
    ensures WithLocalAuth(WireApi(lines, minted)) == WireApi(lines, minted)
  {
    NamesAreKeys(AuthMode);
    ApiAbout(lines, minted);
    SetIsSet(lines, KeyName(AuthMode), "local");
    SetStays(WireApi(lines, minted), KeyName(AuthMode), "local");
  }

  /** Running the API wiring again changes nothing, if and only if no unacceptable secret blocks it. */
  lemma ApiWiringIdempotentIff(lines: seq<string>, minted: string, later: string)
    requires lines != [] && Minted(minted) && Minted(later) && later != minted
    ensures WireApi(WireApi(lines, minted), later) == WireApi(lines, minted)
      <==> !Blocked(lines, KeyName(SessionSigningSecret))
  {
    if Blocked(lines, KeyName(SessionSigningSecret)) {
      LocalAuthStays(lines, minted);
      NewSecretShows(lines, minted, later);
    } else {
      ApiWiringStays(lines, minted, later);
    }
  }

  lemma NewSecretShows(lines: seq<string>, minted: string, later: string)
    requires lines != [] && Minted(minted) && Minted(later) && later != minted
    requires Blocked(lines, KeyName(SessionSigningSecret))
    requires WithLocalAuth(WireApi(lines, minted)) == WireApi(lines, minted)
    ensures WireApi(WireApi(lines, minted), later) != WireApi(lines, minted)
  {
    var key := KeyName(SessionSigningSecret);
    var once := WireApi(lines, minted);
    var twice := WireApi(once, later);
    NamesAreKeys(SessionSigningSecret);
    SecondApiRun(lines, minted, later);
    ApiAbout(lines, minted);
    ApiAbout(once, later);
    SetIsSet(WithLocalAuth(lines), key, minted);
    SetIsSet(once, key, later);
    ValuesDiffer(key, minted, later);
  }

  lemma ValuesDiffer(key: string, a: string, b: string)
    requires a != b
    ensures Assignment(key, a) != Assignment(key, b)
  {
    assert Assignment(key, a)[|key| + 1..] == a;
    assert Assignment(key, b)[|key| + 1..] == b;
  }

  // ----- any number of runs -----

  /** The file after as many runs as there are secrets to mint. */
  function ApiRuns(lines: seq<string>, mints: seq<string>): seq<string>
    requires lines != []
    decreases |mints|
  {
    if mints == [] then lines else ApiRuns(WireApi(lines, mints[0]), mints[1..])
  }

  /** The secret that the last of those runs signs sessions with. */
  function LastSecret(lines: seq<string>, mints: seq<string>): string
    requires lines != [] && mints != []
    decreases |mints|
  {
    if |mints| == 1 then Resolve(WithLocalAuth(lines), KeyName(SessionSigningSecret), mints[0])
    else LastSecret(WireApi(lines, mints[0]), mints[1..])
  }

  lemma BlockedAfterSet(lines: seq<string>, key: string, value: string)
    requires IsKey(key) && lines != []
    ensures Blocked(SetKey(lines, key, value), key) <==> Blocked(lines, key)
  {
    var i, after, line := FirstSettable(lines, key), SetKey(lines, key, value), Assignment(key, value);
    AssignmentSets(key, value);
    if i < |lines| {
      FirstIndexIs(after, SetsKey(key), i);
      assert after[..i] == lines[..i];
    } else {
      var front := lines + Gap(lines);
      BlankConcernsNothing(key);
      FirstIndexIs(after, SetsKey(key), |front|);
      assert after[..|front|] == front && lines[..i] == lines;
      BlankGivesNothing(key);
      ExistingConcat(lines, Gap(lines), key);
    }
  }

  /** What one run finds out about the secret, the next run finds again. */
  lemma NextRunFinds(lines: seq<string>, minted: string, later: string)
    requires lines != [] && Minted(minted)
    ensures var key, once := KeyName(SessionSigningSecret), WireApi(lines, minted);
            && (Blocked(once, key) <==> Blocked(lines, key))
            && Resolve(WithLocalAuth(once), key, later)
               == if Blocked(lines, key) then later else Resolve(WithLocalAuth(lines), key, minted)
  {
    var key := KeyName(SessionSigningSecret);
    var a, once := WithLocalAuth(lines), WireApi(lines, minted);
    NamesAreKeys(SessionSigningSecret);
    NamesAreKeys(AuthMode);
    NamesDiffer(AuthMode, SessionSigningSecret);
    LocalAuthStays(lines, minted);
    ApiAbout(lines, minted);
    SetKeepsOthers(lines, KeyName(AuthMode), "local", key);
    BlockedAfterSet(a, key, Resolve(a, key, minted));
    SameAbout(a, lines, key);
    SameAbout(once, WithSecret(a, minted), key);
    SecretIsReusedIff(a, key, minted, later);
  }

  lemma SameAbout(a: seq<string>, b: seq<string>, key: string)
    requires About(a, key) == About(b, key)
    ensures Blocked(a, key) <==> Blocked(b, key)
    ensures Existing(a, key) == Existing(b, key)
  {
    BlockedAbout(a, key);
    BlockedAbout(b, key);
    ExistingAbout(a, key);
    ExistingAbout(b, key);
  }

  predicate AllMinted(mints: seq<string>) {
    forall m :: m in mints ==> Minted(m)
  }

  lemma MintedFirst(mints: seq<string>)
    requires AllMinted(mints) && mints != []
    ensures Minted(mints[0]) && AllMinted(mints[1..])
  {
  }

  /** What signs sessions after any number of runs: the last one's own secret when blocked, or the first one's. */
  function SecretAfter(lines: seq<string>, mints: seq<string>): string
    requires lines != [] && mints != []
  {
    if Blocked(lines, KeyName(SessionSigningSecret)) then mints[|mints| - 1]
    else Resolve(WithLocalAuth(lines), KeyName(SessionSigningSecret), mints[0])
  }

  lemma SecretAfterNext(lines: seq<string>, mints: seq<string>)
    requires lines != [] && |mints| > 1 && Minted(mints[0])
    ensures SecretAfter(WireApi(lines, mints[0]), mints[1..]) == SecretAfter(lines, mints)
  {
    NextRunFinds(lines, mints[0], mints[1]);
    assert mints[1..][|mints| - 2] == mints[|mints| - 1];
  }

  /** Over any number of runs the last one signs with the secret the first one resolved, unless it is blocked. */
  lemma {:induction false} SecretOverAllRuns(lines: seq<string>, mints: seq<string>)
    requires lines != [] && mints != [] && AllMinted(mints)
    ensures LastSecret(lines, mints) == SecretAfter(lines, mints)
    decreases |mints|
  {
    MintedFirst(mints);
    if |mints| == 1 {
      if Blocked(lines, KeyName(SessionSigningSecret)) {
        FirstRunResolves(lines, mints[0]);
      }
    } else {
      SecretAfterNext(lines, mints);
      SecretOverAllRuns(WireApi(lines, mints[0]), mints[1..]);
    }
  }

  /** Unless it is blocked, the file after any number of runs is the one that the first run left. */
  lemma {:induction false} FileOverAllRuns(lines: seq<string>, mints: seq<string>)
    requires lines != [] && mints != [] && AllMinted(mints) && !Blocked(lines, KeyName(SessionSigningSecret))
    ensures ApiRuns(lines, mints) == WireApi(lines, mints[0])
    decreases |mints|
  {
    MintedFirst(mints);
    var once := WireApi(lines, mints[0]);
    if |mints| == 1 {
      assert ApiRuns(once, mints[1..]) == once;
    } else {
      NextRunFinds(lines, mints[0], mints[1]);
      ApiWiringStays(lines, mints[0], mints[1]);
      FileOverAllRuns(once, mints[1..]);
    }
  }

  lemma FirstRunResolves(lines: seq<string>, minted: string)
    requires lines != [] && Blocked(lines, KeyName(SessionSigningSecret))
    ensures Resolve(WithLocalAuth(lines), KeyName(SessionSigningSecret), minted) == minted
  {
    NamesAreKeys(SessionSigningSecret);
    NamesAreKeys(AuthMode);
    NamesDiffer(AuthMode, SessionSigningSecret);
    SetKeepsOthers(lines, KeyName(AuthMode), "local", KeyName(SessionSigningSecret));
    SameAbout(WithLocalAuth(lines), lines, KeyName(SessionSigningSecret));
    BlockedIsNotResolved(WithLocalAuth(lines), KeyName(SessionSigningSecret), minted);
  }

  // ----- the web's file -----

  predicate IsQuote(c: char) {
    c == '"' || c == '\''
  }

  /** Without one quote at the front and one at the back. */
  function Unquote(s: string): string {
    var front := if s != "" && IsQuote(s[0]) then s[1..] else s;
    if front != "" && IsQuote(front[|front| - 1]) then front[..|front| - 1] else front
  }

  predicate IsAt(url: string, base: string) {
    url == base || StartsWith(url, base + "/")
  }

  /** Where the removed development identity provider listened. */
  predicate IsRemovedIssuer(url: string) {
    || IsAt(url, "http://localhost:8080")
    || IsAt(url, "https://localhost:8080")
    || IsAt(url, "http://127.0.0.1:8080")
    || IsAt(url, "https://127.0.0.1:8080")
  }

  /** The value on the first line that sets `key`, empty or not. */
  function FirstValue(lines: seq<string>, key: string): Option<string> {
    if lines == [] then None
    else if Active(lines[0], key) then Some(Unquote(Trim(Remainder(lines[0], key))))
    else FirstValue(lines[1..], key)
  }

  predicate PointsAtRemoved(lines: seq<string>) {
    var issuer := FirstValue(lines, KeyName(AuthIssuer));
    issuer.Some? && issuer.value != "" && IsRemovedIssuer(issuer.value)
  }

  function DisableRemoved(lines: seq<string>): (out: seq<string>)
    ensures |out| == |lines|
  {
    if !PointsAtRemoved(lines) then lines
    else
      var issuer := CommentOut(lines, KeyName(AuthIssuer));
      CommentOut(CommentOut(issuer, KeyName(AuthClientId)), KeyName(AuthClientSecret))
  }

  function WireWeb(lines: seq<string>): (out: seq<string>)
    requires lines != []
    ensures out != []
  {
    DisableRemoved(WithLocalAuth(lines))
  }

  lemma {:induction false} FirstValueAbout(lines: seq<string>, key: string)
    ensures FirstValue(About(lines, key), key) == FirstValue(lines, key)
  {
    if lines != [] {
      FirstValueAbout(lines[1..], key);
      if Concerns(lines[0], key) {
        assert About(lines, key)[1..] == About(lines[1..], key);
      }
    }
  }

  lemma {:induction false} NoneActiveNoValue(lines: seq<string>, key: string)
    requires NoneActive(lines, key)
    ensures FirstValue(lines, key) == None
  {
    if lines != [] {
      NoneActiveNoValue(lines[1..], key);
    }
  }

  predicate IsIssuerKey(k: EnvKey) {
    k == AuthIssuer || k == AuthClientId || k == AuthClientSecret
  }

  lemma CommentOther(lines: seq<string>, j: EnvKey, key: string)
    requires IsKey(key) && key != KeyName(j)
    ensures About(CommentOut(lines, KeyName(j)), key) == About(lines, key)
  {
    NamesAreKeys(j);
    CommentKeepsOthers(lines, KeyName(j), key);
  }

  lemma CommentSame(lines: seq<string>, j: EnvKey)
    ensures NoneActive(About(CommentOut(lines, KeyName(j)), KeyName(j)), KeyName(j))
  {
    NamesAreKeys(j);
    CommentedOut(lines, KeyName(j));
    NoneActiveAbout(CommentOut(lines, KeyName(j)), KeyName(j));
  }

  /** The three issuer settings are switched off together, exactly when the issuer is the removed one. */
  lemma DisabledTogetherIff(lines: seq<string>, k: EnvKey)
    requires IsIssuerKey(k)
    ensures var out := DisableRemoved(lines);
            if PointsAtRemoved(lines) then NoneActive(About(out, KeyName(k)), KeyName(k)) else out == lines
  {
    var b := CommentOut(lines, KeyName(AuthIssuer));
    var c := CommentOut(b, KeyName(AuthClientId));
    NamesAreKeys(k);
    CommentSame(lines, AuthIssuer);
    CommentSame(b, AuthClientId);
    CommentSame(c, AuthClientSecret);
    if k != AuthClientSecret {
      NamesDiffer(AuthClientSecret, k);
      CommentOther(c, AuthClientSecret, KeyName(k));
    }
    if k == AuthIssuer {
      NamesDiffer(AuthClientId, k);
      CommentOther(b, AuthClientId, KeyName(k));
    }
  }

  lemma DisableKeepsOthers(lines: seq<string>, key: string)
    requires IsKey(key) && forall k :: IsIssuerKey(k) ==> key != KeyName(k)
    ensures About(DisableRemoved(lines), key) == About(lines, key)
  {
    var b := CommentOut(lines, KeyName(AuthIssuer));
    CommentOther(lines, AuthIssuer, key);
    CommentOther(b, AuthClientId, key);
    CommentOther(CommentOut(b, KeyName(AuthClientId)), AuthClientSecret, key);
  }

  /** Running the web wiring again changes nothing, whatever the file held. */
  lemma WebWiringIdempotent(lines: seq<string>)
    requires lines != []
    ensures WireWeb(WireWeb(lines)) == WireWeb(lines)
  {
    var a, once := WithLocalAuth(lines), WireWeb(lines);
    forall k: EnvKey | IsIssuerKey(k)
      ensures KeyName(AuthMode) != KeyName(k)
    {
      NamesDiffer(AuthMode, k);
    }
    NamesAreKeys(AuthMode);
    DisableKeepsOthers(a, KeyName(AuthMode));
    SetIsSet(lines, KeyName(AuthMode), "local");
    SetStays(once, KeyName(AuthMode), "local");
    DisabledTogetherIff(a, AuthIssuer);
    if PointsAtRemoved(a) {
      NoneActiveAbout(once, KeyName(AuthIssuer));
      NoneActiveNoValue(once, KeyName(AuthIssuer));
    }
  }

  /** The wiring is about its own keys only: every line about any other key stays, in order. */
  lemma OtherKeysAreLeftAlone(lines: seq<string>, minted: string, key: string)
    requires lines != [] && IsKey(key) && forall k :: key != KeyName(k)
    ensures About(WireApi(lines, minted), key) == About(lines, key)
    ensures About(WireWeb(lines), key) == About(lines, key)
  {
    var a := WithLocalAuth(lines);
    var b := WithSecret(a, minted);
    NamesAreKeys(AuthMode);
    NamesAreKeys(SessionSigningSecret);
    SetKeepsOthers(lines, KeyName(AuthMode), "local", key);
    SetKeepsOthers(a, KeyName(SessionSigningSecret), Resolve(a, KeyName(SessionSigningSecret), minted), key);
    CommentOther(b, OidcIssuer, key);
    CommentOther(CommentOut(b, KeyName(OidcIssuer)), OidcJwksUri, key);
    DisableKeepsOthers(a, key);
  }
}
