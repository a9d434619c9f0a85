/**
 The `jwt` callback: what a sign-in, a client update and a read do to the token in the session cookie.
 Clock readings are whole milliseconds, recorded expiries are seconds and may be fractional. The identity
 provider's answer to a refresh is a parameter of the read.
 */
module SessionToken {
  import opened Options

  const REFRESH_SKEW_SECONDS := 30.0

  datatype Token = Token(
    accessToken: Option<string>,
    expiresAt: Option<real>,
    refreshToken: Option<string>,
    failed: bool)

  datatype Account =
    | Credentials(accessToken: Option<string>, expiresAt: Option<real>)
    | Provider(accessToken: Option<string>, expiresAt: Option<real>, refreshToken: Option<string>)

  /** What an update says about the expiry: nothing usable, that there is none, or when. */
  datatype Expiry = Unsaid | Never | At(seconds: real)

  datatype Answer =
    | Granted(accessToken: string, expiresIn: Option<real>, refreshToken: Option<string>)
    | Refused

  /** The three clock readings one read may make, in order. */
  datatype Clock = Clock(check: int, expiry: int, issue: int)

  /** `handed` is the token the session library passes in with a sign-in. */
  datatype Event =
    | SignIn(account: Account, handed: Token)
    | Update(accessToken: Option<string>, expiry: Expiry)
    | Read(clock: Clock, answer: Answer)

  predicate InOrder(c: Clock) {
    c.check <= c.expiry <= c.issue
  }

  predicate NotBlank(token: Option<string>) {
    token.Some? && token.value != ""
  }

  function SignedIn(t: Token, account: Account): Token {
    var accessToken := if account.accessToken.Some? then account.accessToken else t.accessToken;
    match account
    case Credentials(_, expiresAt) => Token(accessToken, expiresAt, None, false)
    case Provider(_, expiresAt, refreshToken) => Token(accessToken, expiresAt, refreshToken, false)
  }

  function Updated(t: Token, accessToken: Option<string>, expiry: Expiry): Token {
    if !NotBlank(accessToken) then t
    else
      var u := t.(accessToken := accessToken);
      match expiry
      case Unsaid => u
      case Never => u.(expiresAt := None)
      case At(seconds) => u.(expiresAt := Some(seconds))
  }

  /** At `now`, in milliseconds, `seconds` has been reached. */
  predicate Reached(seconds: real, now: int) {
    now as real >= seconds * 1000.0
  }

  predicate NeedsRefresh(t: Token, c: Clock) {
    t.expiresAt.Some? && Reached(t.expiresAt.value - REFRESH_SKEW_SECONDS, c.check)
  }

  /** The refresh token a read sends to the provider, if it sends one. */
  function Presented(t: Token, c: Clock): Option<string> {
    if NeedsRefresh(t, c) && NotBlank(t.refreshToken) then t.refreshToken else None
  }

  predicate Succeeds(answer: Answer) {
    answer.Granted? && answer.accessToken != ""
  }

  /** How long, in seconds, the token of a granted refresh is good for: five minutes when the provider does not say. */
  function Lifetime(answer: Answer): real
    requires answer.Granted?
  {
    if answer.expiresIn.Some? then answer.expiresIn.value else 300.0
  }

  function ExpiryOf(answer: Answer, now: int): real
    requires answer.Granted?
  {
    (now / 1000) as real + Lifetime(answer)
  }

  function Refreshed(t: Token, answer: Answer, now: int): Token
    requires answer.Granted?
  {
    Token(Some(answer.accessToken), Some(ExpiryOf(answer, now)),
          if answer.refreshToken.Some? then answer.refreshToken else t.refreshToken, false)
  }

  function AfterRead(t: Token, c: Clock, answer: Answer): Option<Token> {
    if !NeedsRefresh(t, c) then Some(t)
    else
      var expired := Reached(t.expiresAt.value, c.expiry);
      if !NotBlank(t.refreshToken) then (if expired then None else Some(t))
      else if Succeeds(answer) then Some(Refreshed(t, answer, c.issue))
      else if expired then None
      else Some(t.(failed := true))
  }

  /** The callback: nothing means that the session has ended. */
  function Jwt(t: Token, e: Event): Option<Token> {
    match e
    case SignIn(account, _) => Some(SignedIn(t, account))
    case Update(accessToken, expiry) => Some(Updated(t, accessToken, expiry))
    case Read(clock, answer) => AfterRead(t, clock, answer)
  }

  /** One event of a session; without a session only a sign-in reaches the callback. */
  function Step(s: Option<Token>, e: Event): Option<Token> {
    if e.SignIn? then Jwt(e.handed, e)
    else if s.None? then None
    else Jwt(s.value, e)
  }

  function Run(s: Option<Token>, events: seq<Event>): Option<Token>
    decreases |events|
  {
    if events == [] then s else Step(Run(s, events[..|events| - 1]), events[|events| - 1])
  }

  // ----- one read -----

  lemma RefreshedExpiry(answer: Answer, now: int)
    requires answer.Granted?
    ensures !Reached(ExpiryOf(answer, now), now)
      <==> Lifetime(answer) * 1000.0 > (now % 1000) as real
  {
    assert now == now / 1000 * 1000 + now % 1000;
    assert now as real == (now / 1000) as real * 1000.0 + (now % 1000) as real;
  }

  /** Exactly when a read ends the session. */
  lemma ReadEndsIff(t: Token, c: Clock, answer: Answer)
    ensures AfterRead(t, c, answer).None?
      <==> NeedsRefresh(t, c) && Reached(t.expiresAt.value, c.expiry) && (Presented(t, c).None? || !Succeeds(answer))
  {
  }

  /** The last clock reading a read takes. */
  function LastReading(t: Token, c: Clock, answer: Answer): int {
    if !NeedsRefresh(t, c) then c.check
    else if Presented(t, c).Some? && Succeeds(answer) then c.issue
    else c.expiry
  }

  /** The read got a token for less than the part of a second by which its expiry is rounded down. */
  predicate GotTooShort(t: Token, c: Clock, answer: Answer) {
    && Presented(t, c).Some? && Succeeds(answer)
    && Lifetime(answer) * 1000.0 <= (c.issue % 1000) as real
  }

  /** A read hands out a token that is expired at its last clock reading exactly when it got one for too short. */
  lemma ReadReturnsExpiredIff(t: Token, c: Clock, answer: Answer)
    requires AfterRead(t, c, answer).Some?
    ensures var u := AfterRead(t, c, answer).value;
            (u.expiresAt.Some? && Reached(u.expiresAt.value, LastReading(t, c, answer))) <==> GotTooShort(t, c, answer)
  {
    if answer.Granted? {
      RefreshedExpiry(answer, c.issue);
    }
  }

  /** The failure mark appears only on a token that is still valid, and only after a refresh was tried. */
  lemma MarkOnlyWhileValid(t: Token, c: Clock, answer: Answer)
    requires !t.failed && AfterRead(t, c, answer).Some? && AfterRead(t, c, answer).value.failed
    ensures Presented(t, c).Some? && !Succeeds(answer)
    ensures t.expiresAt.Some? && !Reached(t.expiresAt.value, c.expiry)
    ensures AfterRead(t, c, answer) == Some(t.(failed := true))
  {
  }

  // ----- whole sessions -----

  /** The readings of all the reads are in order, each one after the one before. */
  ghost predicate ClockRuns(events: seq<Event>) {
    && (forall i :: 0 <= i < |events| && events[i].Read? ==> InOrder(events[i].clock))
    && (forall i, j :: 0 <= i < j < |events| && events[i].Read? && events[j].Read?
          ==> events[i].clock.issue <= events[j].clock.check)
  }

  predicate NoSignIn(events: seq<Event>) {
    forall i :: 0 <= i < |events| ==> !events[i].SignIn?
  }

  predicate NoSignInAfter(events: seq<Event>, i: nat) {
    forall k :: i < k < |events| ==> !events[k].SignIn?
  }

  lemma {:induction false} RunConcat(s: Option<Token>, a: seq<Event>, b: seq<Event>)
    ensures Run(s, a + b) == Run(Run(s, a), b)
    decreases |b|
  {
    if b == [] {
      assert a + b == a;
    } else {
      RunConcat(s, a, b[..|b| - 1]);
      assert (a + b)[..|a + b| - 1] == a + b[..|b| - 1];
    }
  }

  /** An ended session stays ended until somebody signs in: the session library drops a token that is nothing. */
  lemma {:induction false} EndedNeedsSignIn(events: seq<Event>)
    requires NoSignIn(events)
    ensures Run(None, events) == None
    decreases |events|
  {
    if events != [] {
      EndedNeedsSignIn(events[..|events| - 1]);
    }
  }

  /** Where the session ended: the first event that turned a token into none. */
  lemma {:induction false} EndedBySomeRead(s: Option<Token>, events: seq<Event>) returns (i: nat)
    requires s.Some? && Run(s, events).None?
    ensures i < |events| && events[i].Read? && Run(s, events[..i]).Some?
    ensures Run(s, events[..i + 1]).None? && NoSignInAfter(events, i)
    decreases |events|
  {
    var n := |events| - 1;
    if Run(s, events[..n]).Some? {
      i := n;
      assert events[..n + 1] == events;
    } else {
      i := EndedBySomeRead(s, events[..n]);
      assert events[..n][..i] == events[..i] && events[..n][..i + 1] == events[..i + 1];
      assert forall k :: i < k < n ==> !events[..n][k].SignIn?;
      assert !events[n].SignIn?;
    }
  }

  /**
   Nobody is signed out early: when a session is over, there was a read at or after the recorded expiry of its
   token, that token could not be renewed in that read, and nobody has signed in since.
   */
  lemma OnlyAnExpiredSessionEnds(s: Option<Token>, events: seq<Event>) returns (i: nat)
    requires s.Some? && Run(s, events).None?
    ensures i < |events| && events[i].Read? && NoSignInAfter(events, i)
    ensures var before := Run(s, events[..i]);
            && before.Some? && before.value.expiresAt.Some?
            && Reached(before.value.expiresAt.value, events[i].clock.expiry)
            && (Presented(before.value, events[i].clock).None? || !Succeeds(events[i].answer))
  {
    i := EndedBySomeRead(s, events);
    assert events[..i + 1][..i] == events[..i];
    ReadEndsIff(Run(s, events[..i]).value, events[i].clock, events[i].answer);
  }

  /** In every session: a read hands out an expired token if and only if it just got that token for too short. */
  lemma ExpiredTokenIsReturnedIff(s: Option<Token>, events: seq<Event>, i: nat)
    requires i < |events| && events[i].Read? && Run(s, events[..i + 1]).Some?
    ensures Run(s, events[..i]).Some?
    ensures var t, u := Run(s, events[..i]).value, Run(s, events[..i + 1]).value;
            (u.expiresAt.Some? && Reached(u.expiresAt.value, LastReading(t, events[i].clock, events[i].answer)))
            <==> GotTooShort(t, events[i].clock, events[i].answer)
  {
    assert events[..i + 1][..i] == events[..i];
    ReadReturnsExpiredIff(Run(s, events[..i]).value, events[i].clock, events[i].answer);
  }

  /**
   After a successful refresh nothing is asked of the provider until the new token is within the skew, give or
   take the second its expiry is rounded down by: every read in between hands out the same token.
   */
  lemma {:induction false} QuietAfterRefresh(s: Option<Token>, events: seq<Event>, i: nat, j: nat)
    requires ClockRuns(events) && i < j < |events| && forall k :: i <= k <= j ==> events[k].Read?
    requires var before := Run(s, events[..i]);
             before.Some? && Presented(before.value, events[i].clock).Some? && Succeeds(events[i].answer)
    requires events[j].clock.check as real
      < events[i].clock.issue as real + (Lifetime(events[i].answer) - REFRESH_SKEW_SECONDS - 1.0) * 1000.0
    ensures Run(s, events[..j]).Some? && Presented(Run(s, events[..j]).value, events[j].clock) == None
    ensures Run(s, events[..j + 1]) == Run(s, events[..i + 1])
    decreases j
  {
    assert events[..j + 1][..j] == events[..j];
    if j == i + 1 {
      assert events[..i + 1][..i] == events[..i];
    } else {
      assert events[j - 1].clock.check <= events[j - 1].clock.issue <= events[j].clock.check;
      QuietAfterRefresh(s, events, i, j - 1);
    }
    assert events[..i + 1][..i] == events[..i];
    RefreshedLasts(events[i].answer, events[i].clock.issue, events[j].clock.check);
  }

  lemma RefreshedLasts(answer: Answer, issue: int, check: int)
    requires answer.Granted?
    requires check as real < issue as real + (Lifetime(answer) - REFRESH_SKEW_SECONDS - 1.0) * 1000.0
    ensures !Reached(ExpiryOf(answer, issue) - REFRESH_SKEW_SECONDS, check)
  {
    assert issue < (issue / 1000) * 1000 + 1000;
    assert issue as real < (issue / 1000) as real * 1000.0 + 1000.0;
  }

  // ----- kinds of session -----

  predicate NoProvider(events: seq<Event>) {
    forall i :: 0 <= i < |events| && events[i].SignIn? ==> events[i].account.Credentials?
  }

  /** From a local sign-in on, and until a provider is used, there is never a refresh token to send. */
  lemma {:induction false} LocalNeverHoldsRefreshToken(s: Option<Token>, events: seq<Event>)
    requires s.Some? && s.value.refreshToken == None && NoProvider(events)
    ensures Run(s, events).Some? ==> Run(s, events).value.refreshToken == None
    decreases |events|
  {
    if events != [] {
      LocalNeverHoldsRefreshToken(s, events[..|events| - 1]);
    }
  }

  /** A local session with an expiry ends at the first read at or after it, and at no earlier one. */
  lemma LocalEndsAtItsExpiry(account: Account, handed: Token, events: seq<Event>, c: Clock, answer: Answer)
    requires account.Credentials? && NoProvider(events)
    ensures var now := Run(Jwt(handed, SignIn(account, handed)), events);
            now.Some? ==>
              Step(now, Read(c, answer))
              == if NeedsRefresh(now.value, c) && Reached(now.value.expiresAt.value, c.expiry) then None else now
  {
    LocalNeverHoldsRefreshToken(Some(SignedIn(handed, account)), events);
  }

  predicate NoExpirySaid(events: seq<Event>) {
    forall i :: 0 <= i < |events| ==> events[i].Read? || (events[i].Update? && !events[i].expiry.At?)
  }

  /** Without a recorded expiry time does nothing to a session, until an update records one. */
  lemma {:induction false} NoExpiryNeverEnds(t: Token, events: seq<Event>)
    requires t.expiresAt == None && NoExpirySaid(events)
    ensures Run(Some(t), events).Some?
    ensures Run(Some(t), events).value == t.(accessToken := Run(Some(t), events).value.accessToken)
    decreases |events|
  {
    if events != [] {
      NoExpiryNeverEnds(t, events[..|events| - 1]);
    }
  }

  // ----- rotation -----

  /** The refresh token an event issues when it happens in `s`. */
  function Issued(s: Option<Token>, e: Event): Option<string> {
    match e
    case SignIn(account, _) => if account.Provider? then account.refreshToken else None
    case Update(_, _) => None
    case Read(clock, answer) =>
      if s.Some? && Presented(s.value, clock).Some? && Succeeds(answer) then answer.refreshToken else None
  }

  /** The most recently issued refresh token of the session that is going on. */
  function LastIssued(s: Option<Token>, events: seq<Event>): Option<string>
    decreases |events|
  {
    if events == [] then (if s.Some? then s.value.refreshToken else None)
    else
      var front, e := events[..|events| - 1], events[|events| - 1];
      if e.SignIn? || Issued(Run(s, front), e).Some? then Issued(Run(s, front), e) else LastIssued(s, front)
  }

  /** Every refresh uses the most recently issued refresh token (section 6 of RFC 6749). */
  lemma {:induction false} RefreshUsesTheLatestToken(s: Option<Token>, events: seq<Event>)
    ensures Run(s, events).Some? ==> Run(s, events).value.refreshToken == LastIssued(s, events)
    ensures Run(s, events).Some?
      ==> forall c :: Presented(Run(s, events).value, c).Some?
                      ==> Presented(Run(s, events).value, c) == LastIssued(s, events)
    decreases |events|
  {
    if events != [] {
      RefreshUsesTheLatestToken(s, events[..|events| - 1]);
    }
  }

  // ----- what a session holds, from what happened in it -----

  /** What one event does to one part of the token. */
  datatype Change<T> = Keeps | Sets(value: T)

  /** A read in the last thirty seconds before the expiry, or after it, that has a refresh token to send. */
  predicate AsksProvider(s: Option<Token>, c: Clock) {
    && s.Some? && s.value.expiresAt.Some? && c.check as real >= (s.value.expiresAt.value - 30.0) * 1000.0
    && s.value.refreshToken.Some? && s.value.refreshToken.value != ""
  }

  /** The provider grants what such a read asks for. */
  predicate Renews(s: Option<Token>, c: Clock, answer: Answer) {
    AsksProvider(s, c) && answer.Granted? && answer.accessToken != ""
  }

  function AccessChange(s: Option<Token>, e: Event): Change<Option<string>> {
    match e
    case SignIn(account, handed) =>
      Sets(if account.accessToken.Some? then account.accessToken else handed.accessToken)
    case Update(next, _) => if next.Some? && next.value != "" then Sets(next) else Keeps
    case Read(clock, answer) => if Renews(s, clock, answer) then Sets(Some(answer.accessToken)) else Keeps
  }

  function ExpiryChange(s: Option<Token>, e: Event): Change<Option<real>> {
    match e
    case SignIn(account, _) => Sets(account.expiresAt)
    case Update(next, expiry) =>
      if next.None? || next.value == "" || expiry.Unsaid? then Keeps
      else Sets(if expiry.At? then Some(expiry.seconds) else None)
    case Read(clock, answer) =>
      if !Renews(s, clock, answer) then Keeps
      else Sets(Some((clock.issue / 1000) as real + if answer.expiresIn.Some? then answer.expiresIn.value else 300.0))
  }

  /** A refused refresh leaves its mark; a granted one and a sign-in take it away. */
  function MarkChange(s: Option<Token>, e: Event): Change<bool> {
    match e
    case SignIn(_, _) => Sets(false)
    case Update(_, _) => Keeps
    case Read(clock, answer) => if AsksProvider(s, clock) then Sets(!Renews(s, clock, answer)) else Keeps
  }

  /** The access token issued last. */
  function LatestAccess(s: Option<Token>, events: seq<Event>): Option<string>
    decreases |events|
  {
    if events == [] then (if s.Some? then s.value.accessToken else None)
    else
      var front, last := events[..|events| - 1], events[|events| - 1];
      var change := AccessChange(Run(s, front), last);
      if change.Sets? then change.value else LatestAccess(s, front)
  }

  /** The expiry recorded last. */
  function LatestExpiry(s: Option<Token>, events: seq<Event>): Option<real>
    decreases |events|
  {
    if events == [] then (if s.Some? then s.value.expiresAt else None)
    else
      var front, last := events[..|events| - 1], events[|events| - 1];
      var change := ExpiryChange(Run(s, front), last);
      if change.Sets? then change.value else LatestExpiry(s, front)
  }

  function LatestMark(s: Option<Token>, events: seq<Event>): bool
    decreases |events|
  {
    if events == [] then s.Some? && s.value.failed
    else
      var front, last := events[..|events| - 1], events[|events| - 1];
      var change := MarkChange(Run(s, front), last);
      if change.Sets? then change.value else LatestMark(s, front)
  }

  /**
   In every session, whatever happened in it: the access token is the one issued last, by a sign-in, a usable
   update or a granted refresh; and a sign-in that carries none leaves the one handed in with it.
   */
  lemma {:induction false} HoldsTheLatestAccessToken(s: Option<Token>, events: seq<Event>)
    requires Run(s, events).Some?
    ensures Run(s, events).value.accessToken == LatestAccess(s, events)
    decreases |events|
  {
    if events != [] && AccessChange(Run(s, events[..|events| - 1]), events[|events| - 1]).Keeps? {
      HoldsTheLatestAccessToken(s, events[..|events| - 1]);
    }
  }

  /** The same for its expiry, which an update may also leave as it was or take away. */
  lemma {:induction false} RecordsTheLatestExpiry(s: Option<Token>, events: seq<Event>)
    requires Run(s, events).Some?
    ensures Run(s, events).value.expiresAt == LatestExpiry(s, events)
    decreases |events|
  {
    if events != [] && ExpiryChange(Run(s, events[..|events| - 1]), events[|events| - 1]).Keeps? {
      RecordsTheLatestExpiry(s, events[..|events| - 1]);
    }
  }

  /** The failure mark says that the last refresh that was asked for was refused, with no sign-in since. */
  lemma {:induction false} MarkedIffLastRefreshFailed(s: Option<Token>, events: seq<Event>)
    requires Run(s, events).Some?
    ensures Run(s, events).value.failed == LatestMark(s, events)
    decreases |events|
  {
    if events != [] && MarkChange(Run(s, events[..|events| - 1]), events[|events| - 1]).Keeps? {
      MarkedIffLastRefreshFailed(s, events[..|events| - 1]);
    }
  }

  // ----- the callback as it is written: it assigns and deletes the fields of the token -----

  class Cookie {
    var accessToken: Option<string>
    var expiresAt: Option<real>
    var refreshToken: Option<string>
    var failed: bool

    function Contents(): Token
      reads this
    {
      Token(accessToken, expiresAt, refreshToken, failed)
    }

    method OnUpdate(next: Option<string>, expiry: Expiry)
      modifies this
      ensures Some(Contents()) == Jwt(old(Contents()), Update(next, expiry))
    {
      if next.Some? && |next.value| > 0 {
        accessToken := next;
        match expiry {
          case Never => expiresAt := None;
          case At(seconds) => expiresAt := Some(seconds);
          case Unsaid =>
        }
      }
    }

    method OnSignIn(account: Account)
      modifies this
      ensures Some(Contents()) == Jwt(old(Contents()), SignIn(account, old(Contents())))
    {
      if account.accessToken.Some? {
        accessToken := account.accessToken;
      }
      expiresAt := account.expiresAt;
      refreshToken := if account.Provider? then account.refreshToken else None;
      failed := false;
    }

    /** `kept` is false when the session has ended; the token is then dropped as it was. */
    method OnRead(clock: Clock, answer: Answer) returns (kept: bool)
      modifies this
      ensures Jwt(old(Contents()), Read(clock, answer)) == if kept then Some(Contents()) else None
      ensures !kept ==> Contents() == old(Contents())
    {
      if expiresAt.None? || (clock.check as real) < (expiresAt.value - REFRESH_SKEW_SECONDS) * 1000.0 {
        return true;
      }
      var expired := clock.expiry as real >= expiresAt.value * 1000.0;
      if refreshToken.None? || refreshToken.value == "" {
        return !expired;
      }
      if answer.Refused? || answer.accessToken == "" {
        if expired {
          return false;
        }
        failed := true;
        return true;
      }
      accessToken := Some(answer.accessToken);
      var lifetime := if answer.expiresIn.Some? then answer.expiresIn.value else 300.0;
      expiresAt := Some((clock.issue / 1000) as real + lifetime);
      if answer.refreshToken.Some? {
        refreshToken := answer.refreshToken;
      }
      failed := false;
      return true;
    }
  }
}
