/**
 The policy a server hands the agent, the limits a host may put on it, and the veto that combines them:
 the host may narrow what is collected, never widen it.
 */
module AgentPolicy {
  import opened Options
  import opened Text

  const INTERVAL_MIN_SECONDS := 300
  const INTERVAL_MAX_SECONDS := 86400
  const STALE_MIN_SECONDS := 300
  const STALE_MAX_SECONDS := 604800
  const SOFTWARE_MAX := 5000
  const GLOBS_MAX := 32
  const GLOB_LENGTH_MAX := 200
  const SOFTWARE_SOURCES_MAX := 16

  datatype Collector = Hardware | Disks | Nics | Software | Containers | Hypervisor

  datatype Exclude = Exclude(nicNames: seq<string>, mountpoints: seq<string>, softwareNames: seq<string>)

  /** `collect` holds the collectors that are turned on. */
  datatype Policy = Policy(
    revision: int, intervalSeconds: int, staleAfterSeconds: int, collect: set<Collector>,
    softwareSources: seq<string>, exclude: Exclude, softwareMax: int)

  const DEFAULT := Policy(
    0, 900, 2700, {Hardware, Disks, Nics, Software, Containers, Hypervisor}, [], Exclude([], [], []), SOFTWARE_MAX)

  const SOFTWARE_SOURCES := {"dpkg", "rpm", "apk", "registry", "msi", "appx", "winget", "brew", "app-bundle", "pkg"}

  predicate GlobChar(c: char) {
    'A' <= c <= 'Z' || 'a' <= c <= 'z' || '0' <= c <= '9' || c in {'_', '-', '/', ':', '*', '?'}
  }

  predicate ValidGlob(g: string) {
    1 <= |g| <= GLOB_LENGTH_MAX && forall i :: 0 <= i < |g| ==> GlobChar(g[i])
  }

  predicate ValidGlobs(gs: seq<string>) {
    |gs| <= GLOBS_MAX && forall g :: g in gs ==> ValidGlob(g)
  }

  predicate ValidExclude(e: Exclude) {
    ValidGlobs(e.nicNames) && ValidGlobs(e.mountpoints) && ValidGlobs(e.softwareNames)
  }

  predicate ValidPolicy(p: Policy) {
    && p.revision >= 0
    && INTERVAL_MIN_SECONDS <= p.intervalSeconds <= INTERVAL_MAX_SECONDS
    && STALE_MIN_SECONDS <= p.staleAfterSeconds <= STALE_MAX_SECONDS
    && |p.softwareSources| <= SOFTWARE_SOURCES_MAX
    && (forall s :: s in p.softwareSources ==> s in SOFTWARE_SOURCES)
    && ValidExclude(p.exclude)
    && 0 <= p.softwareMax <= SOFTWARE_MAX
  }

  /** A document read as a policy. A build from before the hypervisor collector sends no key for it. */
  datatype PolicyDoc = NotAPolicy | PolicyDoc(policy: Policy, namesHypervisor: bool)

  function TrimAll(gs: seq<string>): (r: seq<string>)
    ensures |r| == |gs|
    ensures forall i :: 0 <= i < |gs| ==> r[i] == Trim(gs[i])
  {
    if gs == [] then [] else [Trim(gs[0])] + TrimAll(gs[1..])
  }

  function TrimExclude(e: Exclude): Exclude {
    Exclude(TrimAll(e.nicNames), TrimAll(e.mountpoints), TrimAll(e.softwareNames))
  }

  /** The strict schema: fills the defaulted collector in, trims the patterns, rejects anything else. */
  function ParsePolicy(doc: PolicyDoc): (r: Option<Policy>)
    ensures r.Some? ==> ValidPolicy(r.value)
  {
    if doc.NotAPolicy? then None
    else
      var p := doc.policy.(
        collect := if doc.namesHypervisor then doc.policy.collect else doc.policy.collect + {Hypervisor},
        exclude := TrimExclude(doc.policy.exclude));
      if ValidPolicy(p) then Some(p) else None
  }

  lemma GlobCharIsNoSpace(c: char)
    requires GlobChar(c)
    ensures !IsSpace(c)
  {
  }

  lemma ValidGlobIsTrimmed(g: string)
    requires ValidGlob(g)
    ensures Trim(g) == g
  {
    GlobCharIsNoSpace(g[0]);
    GlobCharIsNoSpace(g[|g| - 1]);
    TrimKeepsTrimmed(g);
  }

  lemma TrimAllKeepsValid(gs: seq<string>)
    requires forall g :: g in gs ==> ValidGlob(g)
    ensures TrimAll(gs) == gs
  {
    forall i | 0 <= i < |gs| ensures Trim(gs[i]) == gs[i] {
      assert gs[i] in gs;
      ValidGlobIsTrimmed(gs[i]);
    }
  }

  /** A valid policy written out whole and parsed again is the same policy. */
  lemma ParseWritten(p: Policy)
    requires ValidPolicy(p)
    ensures ParsePolicy(PolicyDoc(p, true)) == Some(p)
  {
    TrimAllKeepsValid(p.exclude.nicNames);
    TrimAllKeepsValid(p.exclude.mountpoints);
    TrimAllKeepsValid(p.exclude.softwareNames);
  }

  /** `p` is the document with every pattern trimmed, and with a collector turned on that the document cannot name. */
  ghost predicate ReadsAs(doc: PolicyDoc, p: Policy) {
    && doc.PolicyDoc?
    && p == doc.policy.(collect := p.collect, exclude := p.exclude)
    && (forall k :: k in p.collect <==> k in doc.policy.collect || (k.Hypervisor? && !doc.namesHypervisor))
    && TrimmedFrom(doc.policy.exclude.nicNames, p.exclude.nicNames)
    && TrimmedFrom(doc.policy.exclude.mountpoints, p.exclude.mountpoints)
    && TrimmedFrom(doc.policy.exclude.softwareNames, p.exclude.softwareNames)
  }

  ghost predicate TrimmedFrom(gs: seq<string>, trimmed: seq<string>) {
    |trimmed| == |gs| && forall i :: 0 <= i < |gs| ==> trimmed[i] == Trim(gs[i])
  }

  /** A document is accepted exactly when what it reads as is within the schema's bounds, and as nothing else. */
  lemma ParsePolicyIff(doc: PolicyDoc, p: Policy)
    ensures ParsePolicy(doc) == Some(p) <==> ReadsAs(doc, p) && ValidPolicy(p)
  {
    if ReadsAs(doc, p) {
      assert p.collect == if doc.namesHypervisor then doc.policy.collect else doc.policy.collect + {Hypervisor};
      assert p.exclude == TrimExclude(doc.policy.exclude);
    }
  }

  // ----- the host's own limits -----

  /** Absent and empty pattern lists mean the same thing, so both are the empty sequence here. */
  datatype Limits = Limits(
    collect: map<Collector, bool>, minIntervalSeconds: Option<int>, softwareMax: Option<int>, exclude: Exclude)

  const NO_LIMITS := Limits(map[], None, None, Exclude([], [], []))

  /** First occurrences, in order: what a set built in insertion order lists. */
  function Dedup(s: seq<string>): (d: seq<string>)
    ensures forall x :: x in d <==> x in s
    ensures forall i, j :: 0 <= i < j < |d| ==> d[i] != d[j]
    ensures |d| <= |s|
  {
    if s == [] then []
    else
      var d := Dedup(s[..|s| - 1]);
      var last := s[|s| - 1];
      assert s == s[..|s| - 1] + [last];
      if last in d then d else d + [last]
  }

  function Cap(gs: seq<string>): seq<string> {
    if |gs| <= GLOBS_MAX then gs else gs[..GLOBS_MAX]
  }

  function UnionGlobs(server: seq<string>, local: seq<string>): seq<string> {
    if local == [] then Cap(server) else Cap(Dedup(local + server))
  }

  function ApplyVeto(p: Policy, local: Limits): Policy {
    var collect := set k | k in p.collect && !(k in local.collect && !local.collect[k]);
    var intervalSeconds :=
      if local.minIntervalSeconds.Some? && local.minIntervalSeconds.value > p.intervalSeconds then
        (if local.minIntervalSeconds.value < INTERVAL_MAX_SECONDS then local.minIntervalSeconds.value
         else INTERVAL_MAX_SECONDS)
      else p.intervalSeconds;
    var softwareMax :=
      if local.softwareMax.Some? && local.softwareMax.value < p.softwareMax then
        (if local.softwareMax.value > 0 then local.softwareMax.value else 0)
      else p.softwareMax;
    p.(intervalSeconds := intervalSeconds, softwareMax := softwareMax, collect := collect,
       exclude := Exclude(UnionGlobs(p.exclude.nicNames, local.exclude.nicNames),
                          UnionGlobs(p.exclude.mountpoints, local.exclude.mountpoints),
                          UnionGlobs(p.exclude.softwareNames, local.exclude.softwareNames)))
  }

  // ----- what the union keeps, and what the cap drops -----

  lemma {:induction false} DedupPrefix(a: seq<string>, b: seq<string>)
    ensures Dedup(a) <= Dedup(a + b)
  {
    if b == [] {
      assert a + b == a;
    } else {
      DedupPrefix(a, b[..|b| - 1]);
      InitOfConcat(a, b);
    }
  }

  ghost predicate AllIn(a: seq<string>, b: seq<string>) {
    forall x :: x in a ==> x in b
  }

  /** What is in `s` and not in `gone`, in order. */
  function Except(s: seq<string>, gone: seq<string>): (r: seq<string>) {
    if s == [] then []
    else Except(s[..|s| - 1], gone) + (if s[|s| - 1] in gone then [] else [s[|s| - 1]])
  }

  ghost predicate NoRepeats(s: seq<string>) {
    forall i, j :: 0 <= i < j < |s| ==> s[i] != s[j]
  }

  lemma {:induction false} DedupOfNoRepeats(t: seq<string>)
    requires NoRepeats(t)
    ensures Dedup(t) == t
  {
    if t != [] {
      var init, last := t[..|t| - 1], t[|t| - 1];
      DedupOfNoRepeats(init);
      assert last !in init;
    }
  }

  lemma DedupLast(s: seq<string>, last: string)
    ensures Dedup(s + [last]) == if last in s then Dedup(s) else Dedup(s) + [last]
  {
    InitOfConcat(s, [last]);
    assert s + [last][..0] == s;
  }

  /** In a union the second list adds what it has beyond the first, in its own order. */
  lemma {:induction false} DedupAppend(a: seq<string>, t: seq<string>)
    ensures Dedup(a + t) == Dedup(a) + Except(Dedup(t), a)
  {
    if t == [] {
      assert a + t == a;
    } else {
      DedupAppend(a, t[..|t| - 1]);
      DedupAppendStep(a, t[..|t| - 1], t[|t| - 1]);
      LastOf(t);
    }
  }

  lemma DedupBehind(a: seq<string>, init: seq<string>, last: string)
    ensures Dedup(a + (init + [last]))
      == if last in a || last in init then Dedup(a + init) else Dedup(a + init) + [last]
  {
    LastBehind(a, init, last);
    DedupLast(a + init, last);
  }

  lemma ExceptDedupLast(init: seq<string>, last: string, gone: seq<string>)
    ensures Except(Dedup(init + [last]), gone)
      == Except(Dedup(init), gone) + if last in init || last in gone then [] else [last]
  {
    DedupLast(init, last);
    if last !in init {
      ExceptLast(Dedup(init), last, gone);
    }
  }

  lemma DedupAppendStep(a: seq<string>, init: seq<string>, last: string)
    requires Dedup(a + init) == Dedup(a) + Except(Dedup(init), a)
    ensures Dedup(a + (init + [last])) == Dedup(a) + Except(Dedup(init + [last]), a)
  {
    DedupBehind(a, init, last);
    ExceptDedupLast(init, last, a);
    AddLast(Dedup(a), Except(Dedup(init), a), if last in init || last in a then [] else [last]);
  }

  lemma AddLast<T>(d: seq<T>, e: seq<T>, more: seq<T>)
    ensures d + (e + more) == (d + e) + more && (more == [] ==> d + (e + more) == d + e)
  {
  }

  lemma LastOf<T>(t: seq<T>)
    requires t != []
    ensures t == t[..|t| - 1] + [t[|t| - 1]]
  {
  }

  lemma LastBehind<T>(a: seq<T>, init: seq<T>, last: T)
    ensures a + (init + [last]) == (a + init) + [last]
  {
  }

  lemma ExceptLast(s: seq<string>, last: string, gone: seq<string>)
    ensures Except(s + [last], gone) == Except(s, gone) + if last in gone then [] else [last]
  {
    assert (s + [last])[..|s|] == s;
  }

  lemma {:induction false} ExceptAll(s: seq<string>, gone: seq<string>)
    requires forall x :: x in s ==> x in gone
    ensures Except(s, gone) == []
  {
    if s != [] {
      ExceptAll(s[..|s| - 1], gone);
    }
  }

  lemma {:induction false} ExceptTail(head: seq<string>, tail: seq<string>, gone: seq<string>)
    requires forall x :: x in head ==> x in gone
    requires forall x :: x in tail ==> x !in gone
    ensures Except(head + tail, gone) == tail
  {
    if tail == [] {
      assert head + tail == head;
      ExceptAll(head, gone);
    } else {
      ExceptTail(head, tail[..|tail| - 1], gone);
      InitOfConcat(head, tail);
    }
  }

  /** What is left of a list that opens with the host's own patterns, once those are taken out, is its tail. */
  lemma ExceptOwn(local: seq<string>, t: seq<string>)
    requires NoRepeats(t) && Dedup(local) <= t
    ensures Dedup(local) + Except(t, local) == t
  {
    var own := Dedup(local);
    var tail := t[|own|..];
    assert t == own + tail;
    assert forall x :: x in tail ==> x !in own;
    ExceptTail(own, tail, local);
  }

  lemma CappedFits(local: seq<string>, t: seq<string>)
    requires NoRepeats(t) && Dedup(local) <= t
    ensures Dedup(local + t) == t
  {
    DedupAppend(local, t);
    DedupOfNoRepeats(t);
    ExceptOwn(local, t);
  }

  lemma CappedOwn(local: seq<string>, t: seq<string>)
    requires NoRepeats(t) && AllIn(t, local)
    ensures Dedup(local + t) == Dedup(local)
  {
    DedupAppend(local, t);
    DedupOfNoRepeats(t);
    ExceptAll(t, local);
  }

  /** Deduplicating a capped union once more, with the host's own patterns in front, gives it back. */
  lemma DedupOfCapped(local: seq<string>, d: seq<string>)
    requires NoRepeats(d) && Dedup(local) <= d
    ensures Cap(Dedup(local + Cap(d))) == Cap(d)
  {
    var own := Dedup(local);
    if |own| <= GLOBS_MAX {
      CappedFits(local, Cap(d));
    } else {
      assert Cap(d) == own[..GLOBS_MAX];
      CappedOwn(local, Cap(d));
    }
  }

  /** Applying the host's patterns to a list that already carries them changes nothing. */
  lemma UnionIdempotent(server: seq<string>, local: seq<string>)
    ensures UnionGlobs(UnionGlobs(server, local), local) == UnionGlobs(server, local)
  {
    if local != [] {
      DedupPrefix(local, server);
      DedupOfCapped(local, Dedup(local + server));
    }
  }

  /** Nothing either side excluded is lost, exactly when the distinct patterns fit under the cap. */
  lemma UnionKeepsAllIffItFits(server: seq<string>, local: seq<string>)
    requires local != []
    ensures (forall x :: x in local || x in server ==> x in UnionGlobs(server, local))
            <==> |Dedup(local + server)| <= GLOBS_MAX
  {
    var d := Dedup(local + server);
    if |d| > GLOBS_MAX {
      var dropped := d[GLOBS_MAX];
      assert dropped in d;
      assert dropped !in d[..GLOBS_MAX];
    }
  }

  /** The host's own patterns come first, so the cap can only ever drop one of them to another of them. */
  lemma UnionKeepsTheHosts(server: seq<string>, local: seq<string>)
    ensures forall x :: x in Cap(Dedup(local)) ==> x in UnionGlobs(server, local)
    ensures |Dedup(local)| <= GLOBS_MAX ==> forall x :: x in local ==> x in UnionGlobs(server, local)
  {
    if local != [] {
      DedupPrefix(local, server);
      var own, d := Dedup(local), Dedup(local + server);
      forall x | x in Cap(own) ensures x in Cap(d) {
        var i :| 0 <= i < |Cap(own)| && own[i] == x;
        assert Cap(d)[i] == x;
      }
    }
  }

  /** The union adds nothing nobody asked for. */
  lemma UnionAddsNothing(server: seq<string>, local: seq<string>)
    ensures forall x :: x in UnionGlobs(server, local) ==> x in server || x in local
  {
    if local != [] {
      forall x | x in UnionGlobs(server, local) ensures x in server || x in local {
        assert x in Dedup(local + server);
      }
    }
  }

  /** A full server list and one host pattern: the host's survives and the server's last one does not. */
  lemma CapCanDropAServerExclusion(server: seq<string>, mine: string)
    requires |server| == GLOBS_MAX && NoRepeats(server) && mine !in server
    ensures mine in UnionGlobs(server, [mine]) && server[GLOBS_MAX - 1] !in UnionGlobs(server, [mine])
  {
    DedupAppend([mine], server);
    DedupOfNoRepeats(server);
    ExceptTail([], server, [mine]);
    assert [] + server == server;
    assert [mine][..0] == [];
    assert Dedup([mine]) == [mine];
    var d := [mine] + server;
    assert Dedup([mine] + server) == d;
    assert Cap(d)[0] == mine;
    forall i | 0 <= i < GLOBS_MAX ensures Cap(d)[i] != server[GLOBS_MAX - 1] {
    }
  }

  /**
   Where the union is capped, a pattern is kept exactly when fewer than 32 distinct ones stand before it, the
   host's being in front; and each is kept once.
   */
  lemma KeptIffEarly(server: seq<string>, local: seq<string>, i: nat)
    requires local != []
    requires i < |local + server| && (local + server)[i] !in (local + server)[..i]
    ensures (local + server)[i] in UnionGlobs(server, local) <==> |Elements((local + server)[..i])| < GLOBS_MAX
    ensures NoRepeats(UnionGlobs(server, local))
  {
    var all := local + server;
    StandsAt(all, i);
    CappedHas(Dedup(all), |Elements(all[..i])|, all[i]);
  }

  /** The first occurrence of a pattern stands, once repetitions are gone, behind the distinct ones before it. */
  lemma StandsAt(all: seq<string>, i: nat)
    requires i < |all| && all[i] !in all[..i]
    ensures var n := |Elements(all[..i])|; n < |Dedup(all)| && Dedup(all)[n] == all[i]
  {
    CountDistinct(all[..i]);
    DedupLast(all[..i], all[i]);
    assert all == (all[..i] + [all[i]]) + all[i + 1..];
    DedupPrefix(all[..i] + [all[i]], all[i + 1..]);
  }

  lemma CappedHas(d: seq<string>, n: nat, x: string)
    requires NoRepeats(d) && n < |d| && d[n] == x
    ensures x in Cap(d) <==> n < GLOBS_MAX
    ensures NoRepeats(Cap(d))
  {
    if n < GLOBS_MAX {
      assert Cap(d)[n] == x;
    }
  }

  lemma CountDistinct(s: seq<string>)
    ensures |Elements(s)| == |Dedup(s)|
  {
    CountElements(Dedup(s));
    assert Elements(s) == Elements(Dedup(s));
  }

  // ----- the veto as a whole -----

  /** `narrow` collects no more, reports no more often and sends no more packages than `wide`. */
  ghost predicate NoLooser(narrow: Policy, wide: Policy) {
    && narrow.collect <= wide.collect
    && narrow.intervalSeconds >= wide.intervalSeconds
    && narrow.softwareMax <= wide.softwareMax
  }

  /** And it has every exclusion pattern that `wide` has. */
  ghost predicate Narrower(narrow: Policy, wide: Policy) {
    NoLooser(narrow, wide) && ExcludesAll(wide.exclude, narrow.exclude)
  }

  /** The host's patterns apply on top of the server's without reaching the cap. */
  ghost predicate Fits(server: seq<string>, local: seq<string>) {
    local == [] || |Dedup(local + server)| <= GLOBS_MAX
  }

  ghost predicate ExcludeFits(server: Exclude, local: Exclude) {
    && Fits(server.nicNames, local.nicNames)
    && Fits(server.mountpoints, local.mountpoints)
    && Fits(server.softwareNames, local.softwareNames)
  }

  ghost predicate ExcludesAll(asked: Exclude, kept: Exclude) {
    && AllIn(asked.nicNames, kept.nicNames)
    && AllIn(asked.mountpoints, kept.mountpoints)
    && AllIn(asked.softwareNames, kept.softwareNames)
  }

  /**
   Without a policy a host reports every quarter of an hour, counts as dark after three times that, and reports all
   that any policy could ask it for.
   */
  lemma DefaultAsksForAll(p: Policy)
    requires ValidPolicy(p)
    ensures ValidPolicy(DEFAULT) && DEFAULT.intervalSeconds == 15 * 60
    ensures DEFAULT.staleAfterSeconds == 3 * DEFAULT.intervalSeconds
    ensures p.collect <= DEFAULT.collect && p.softwareMax <= DEFAULT.softwareMax
    ensures ExcludesAll(DEFAULT.exclude, p.exclude) && DEFAULT.softwareSources == []
  {
    forall k | k in p.collect ensures k in DEFAULT.collect {
      match k
      case Hardware =>
      case Disks =>
      case Nics =>
      case Software =>
      case Containers =>
      case Hypervisor =>
    }
  }

  /**
   The veto narrows every field but the patterns, and keeps those if and only if they survive; a collector
   stays on exactly when neither side turned it off.
   */
  lemma VetoOnlyNarrows(p: Policy, local: Limits)
    requires ValidPolicy(p)
    ensures NoLooser(ApplyVeto(p, local), p)
    ensures Narrower(ApplyVeto(p, local), p) <==> ExcludeSurvives(p.exclude, NO_LIMITS.exclude, local.exclude)
    ensures forall k :: k in ApplyVeto(p, local).collect
                        <==> k in p.collect && (k in local.collect ==> local.collect[k])
    ensures local.minIntervalSeconds.Some? && local.minIntervalSeconds.value <= INTERVAL_MAX_SECONDS
            ==> ApplyVeto(p, local).intervalSeconds >= local.minIntervalSeconds.value
    ensures local.softwareMax.Some? && local.softwareMax.value >= 0
            ==> ApplyVeto(p, local).softwareMax <= local.softwareMax.value
    ensures ApplyVeto(p, local).revision == p.revision
  {
    NoLimitsChangeNothing(p);
    ExcludeSurvivesIff(p.exclude, NO_LIMITS.exclude, local.exclude);
  }

  /** `q` obeys the host: a floor above the schema's bound asks for that bound, a cap below zero for no packages. */
  ghost predicate Obeys(q: Policy, local: Limits) {
    && (local.minIntervalSeconds.Some? ==>
          q.intervalSeconds >= local.minIntervalSeconds.value || q.intervalSeconds >= INTERVAL_MAX_SECONDS)
    && (local.softwareMax.Some? ==> q.softwareMax <= local.softwareMax.value || q.softwareMax <= 0)
    && (forall k :: k in q.collect && k in local.collect ==> local.collect[k])
  }

  /**
   The veto is the widest policy that is no looser than the server's and obeys the host: another one is no looser
   than it exactly when it is both. What the host has no say in stays the server's.
   */
  lemma VetoIsTheMeet(p: Policy, local: Limits, q: Policy)
    requires ValidPolicy(p)
    ensures NoLooser(q, ApplyVeto(p, local)) <==> NoLooser(q, p) && Obeys(q, local)
    ensures NoLooser(ApplyVeto(p, local), p) && Obeys(ApplyVeto(p, local), local)
    ensures var veto := ApplyVeto(p, local);
            && veto.revision == p.revision
            && veto.staleAfterSeconds == p.staleAfterSeconds
            && veto.softwareSources == p.softwareSources
  {
    var veto := ApplyVeto(p, local);
    assert forall k :: k in veto.collect <==> k in p.collect && (k in local.collect ==> local.collect[k]);
    if NoLooser(q, p) && Obeys(q, local) {
      assert q.collect <= veto.collect;
    }
  }

  lemma NoLimitsChangeNothing(p: Policy)
    requires ValidPolicy(p)
    ensures ApplyVeto(p, NO_LIMITS) == p
  {
    assert ApplyVeto(p, NO_LIMITS).collect == p.collect;
  }

  /** Every exclusion of both sides survives the veto, exactly when all three lists fit under the cap. */
  lemma VetoKeepsExclusionsIffTheyFit(p: Policy, local: Limits)
    requires ValidPolicy(p)
    ensures ExcludesAll(p.exclude, ApplyVeto(p, local).exclude)
            && ExcludesAll(local.exclude, ApplyVeto(p, local).exclude)
            <==> ExcludeFits(p.exclude, local.exclude)
  {
    KeepsBothIffFits(p.exclude.nicNames, local.exclude.nicNames);
    KeepsBothIffFits(p.exclude.mountpoints, local.exclude.mountpoints);
    KeepsBothIffFits(p.exclude.softwareNames, local.exclude.softwareNames);
  }

  lemma KeepsBothIffFits(server: seq<string>, local: seq<string>)
    requires |server| <= GLOBS_MAX
    ensures AllIn(server, UnionGlobs(server, local)) && AllIn(local, UnionGlobs(server, local))
            <==> Fits(server, local)
  {
    if local != [] {
      UnionKeepsAllIffItFits(server, local);
    }
  }

  lemma VetoIdempotent(p: Policy, local: Limits)
    ensures ApplyVeto(ApplyVeto(p, local), local) == ApplyVeto(p, local)
  {
    UnionIdempotent(p.exclude.nicNames, local.exclude.nicNames);
    UnionIdempotent(p.exclude.mountpoints, local.exclude.mountpoints);
    UnionIdempotent(p.exclude.softwareNames, local.exclude.softwareNames);
  }

  /** The agent never has to refuse its own vetoed policy. */
  lemma VetoKeepsPolicyValid(p: Policy, local: Limits)
    requires ValidPolicy(p)
    requires forall g :: g in local.exclude.nicNames + local.exclude.mountpoints + local.exclude.softwareNames
                         ==> ValidGlob(g)
    ensures ValidPolicy(ApplyVeto(p, local))
  {
    UnionAddsNothing(p.exclude.nicNames, local.exclude.nicNames);
    UnionAddsNothing(p.exclude.mountpoints, local.exclude.mountpoints);
    UnionAddsNothing(p.exclude.softwareNames, local.exclude.softwareNames);
  }

  /** `more` states every limit of `less` at least as strictly, and has all its patterns. */
  ghost predicate Stricter(more: Limits, less: Limits) {
    && (forall k :: k in less.collect && !less.collect[k] ==> k in more.collect && !more.collect[k])
    && (less.minIntervalSeconds.Some? ==>
          more.minIntervalSeconds.Some? && more.minIntervalSeconds.value >= less.minIntervalSeconds.value)
    && (less.softwareMax.Some? ==> more.softwareMax.Some? && more.softwareMax.value <= less.softwareMax.value)
    && ExcludesAll(less.exclude, more.exclude)
  }

  /**
   Stricter limits narrow further. The exclusion lists are the one exception, for which it is so if and only if
   the added patterns push nothing over the cap that was kept before.
   */
  lemma StricterLimitsNarrowFurther(p: Policy, less: Limits, more: Limits)
    requires ValidPolicy(p) && Stricter(more, less)
    ensures NoLooser(ApplyVeto(p, more), ApplyVeto(p, less))
    ensures Narrower(ApplyVeto(p, more), ApplyVeto(p, less))
            <==> ExcludeSurvives(p.exclude, less.exclude, more.exclude)
  {
    ExcludeSurvivesIff(p.exclude, less.exclude, more.exclude);
  }

  /** One more pattern on the host, and one of the server's is dropped. */
  lemma AddingAPatternCanDropOne(p: Policy, mine: string)
    requires ValidPolicy(p) && |p.exclude.nicNames| == GLOBS_MAX && NoRepeats(p.exclude.nicNames)
    requires ValidGlob(mine) && mine !in p.exclude.nicNames
    ensures var more := NO_LIMITS.(exclude := Exclude([mine], [], []));
            Stricter(more, NO_LIMITS) && !Narrower(ApplyVeto(p, more), ApplyVeto(p, NO_LIMITS))
  {
    NoLimitsChangeNothing(p);
    CapCanDropAServerExclusion(p.exclude.nicNames, mine);
    assert p.exclude.nicNames[GLOBS_MAX - 1] in p.exclude.nicNames;
  }

  // ----- exactly when a longer list of the host's keeps what a shorter one kept -----

  /** The patterns of the host's list that can be kept at all. */
  function Own(local: seq<string>): seq<string> {
    Cap(Dedup(local))
  }

  /**
   With `more` instead of `less` on the host, nothing excluded before is lost: either everything fits, or what
   was kept before is found among the host's own, or the host's own among what was kept.
   */
  ghost predicate Survives(server: seq<string>, less: seq<string>, more: seq<string>) {
    Fits(server, more) ||
    if Fits(server, less) then AllIn(less + server, Own(more)) else AllIn(Own(more), UnionGlobs(server, less))
  }

  ghost predicate ExcludeSurvives(server: Exclude, less: Exclude, more: Exclude) {
    && Survives(server.nicNames, less.nicNames, more.nicNames)
    && Survives(server.mountpoints, less.mountpoints, more.mountpoints)
    && Survives(server.softwareNames, less.softwareNames, more.softwareNames)
  }

  function Elements(s: seq<string>): set<string> {
    set x | x in s
  }

  lemma {:induction false} CountElements(s: seq<string>)
    requires NoRepeats(s)
    ensures |Elements(s)| == |s|
  {
    if s != [] {
      var init, last := s[..|s| - 1], s[|s| - 1];
      CountElements(init);
      assert last !in init;
      assert Elements(s) == Elements(init) + {last};
    }
  }

  lemma SubsetIsSmaller(a: set<string>, b: set<string>)
    requires a <= b
    ensures |a| <= |b| && (|a| == |b| ==> a == b)
  {
    assert b == a + (b - a);
  }

  /** A list without repetitions fits into what holds it, and equals it in content when it is as long. */
  lemma InIsShorter(a: seq<string>, b: seq<string>)
    requires NoRepeats(a) && NoRepeats(b) && AllIn(a, b)
    ensures |a| <= |b| && (|a| == |b| ==> AllIn(b, a))
  {
    CountElements(a);
    CountElements(b);
    SubsetIsSmaller(Elements(a), Elements(b));
    if |a| == |b| {
      forall x | x in b ensures x in a {
        assert x in Elements(b);
      }
    }
  }

  lemma {:induction false} ExceptHas(s: seq<string>, gone: seq<string>)
    ensures forall x :: x in Except(s, gone) <==> x in s && x !in gone
    ensures NoRepeats(s) ==> NoRepeats(Except(s, gone))
  {
    if s != [] {
      var init, last := s[..|s| - 1], s[|s| - 1];
      ExceptHas(init, gone);
      assert s == init + [last];
      if NoRepeats(s) {
        assert last !in init;
      }
    }
  }

  lemma {:induction false} ExceptConcat(a: seq<string>, b: seq<string>, gone: seq<string>)
    ensures Except(a + b, gone) == Except(a, gone) + Except(b, gone)
  {
    if b == [] {
      assert a + b == a;
    } else {
      ExceptConcat(a, b[..|b| - 1], gone);
      InitOfConcat(a, b);
    }
  }

  lemma {:induction false} ExceptTwice(s: seq<string>, less: seq<string>, more: seq<string>)
    requires AllIn(less, more)
    ensures Except(Except(s, less), more) == Except(s, more)
  {
    if s != [] {
      var init, last := s[..|s| - 1], s[|s| - 1];
      ExceptTwice(init, less, more);
      if last in less {
        assert Except(s, less) == Except(init, less);
      } else {
        ExceptLast(Except(init, less), last, more);
      }
    }
  }

  lemma ExceptLength(s: seq<string>, gone: seq<string>)
    requires NoRepeats(s) && AllIn(gone, s)
    ensures |Except(s, gone)| == |s| - |Dedup(gone)|
  {
    var rest, d := Except(s, gone), Dedup(gone);
    ExceptHas(s, gone);
    CountElements(s);
    CountElements(rest);
    CountElements(d);
    assert Elements(s) == Elements(rest) + Elements(d) && Elements(rest) !! Elements(d);
  }

  lemma ExceptPrefix(s: seq<string>, n: nat, gone: seq<string>)
    requires n <= |s|
    ensures Except(s[..n], gone) <= Except(s, gone)
  {
    assert s == s[..n] + s[n..];
    ExceptConcat(s[..n], s[n..], gone);
  }

  lemma UnionBeyond(server: seq<string>, less: seq<string>, more: seq<string>)
    requires AllIn(less, more)
    ensures Except(Dedup(less + server), more) == Except(Dedup(server), more)
  {
    DedupAppend(less, server);
    ExceptConcat(Dedup(less), Except(Dedup(server), less), more);
    ExceptAll(Dedup(less), more);
    ExceptTwice(Dedup(server), less, more);
  }

  /** What the shorter list keeps beyond the longer one is the front of what the longer one adds. */
  lemma KeptBeyond(server: seq<string>, less: seq<string>, more: seq<string>)
    requires AllIn(less, more) && |Dedup(less + server)| > GLOBS_MAX
    ensures Except(Dedup(less + server)[..GLOBS_MAX], more) <= Except(Dedup(server), more)
    ensures Dedup(more + server) == Dedup(more) + Except(Dedup(server), more)
  {
    UnionBeyond(server, less, more);
    DedupAppend(more, server);
    ExceptPrefix(Dedup(less + server), GLOBS_MAX, more);
  }

  /** The longer list keeps its own patterns and those beyond them that the shorter one kept. */
  lemma KeptNow(server: seq<string>, less: seq<string>, more: seq<string>)
    requires AllIn(less, more) && |Dedup(less + server)| > GLOBS_MAX && |Dedup(more + server)| > GLOBS_MAX
    requires |Dedup(more)| <= GLOBS_MAX && AllIn(Dedup(more), Dedup(less + server)[..GLOBS_MAX])
    ensures Dedup(more + server)[..GLOBS_MAX] == Dedup(more) + Except(Dedup(less + server)[..GLOBS_MAX], more)
  {
    var kept := Dedup(less + server)[..GLOBS_MAX];
    KeptBeyond(server, less, more);
    ExceptLength(kept, more);
    TakeInto(Dedup(more), Except(Dedup(server), more), |Except(kept, more)|);
  }

  /** When neither fits, and the longer list's own patterns were all kept before, both keep the same ones. */
  lemma BothOverflow(server: seq<string>, less: seq<string>, more: seq<string>)
    requires AllIn(less, more) && |Dedup(less + server)| > GLOBS_MAX && |Dedup(more + server)| > GLOBS_MAX
    requires |Dedup(more)| <= GLOBS_MAX && AllIn(Dedup(more), Dedup(less + server)[..GLOBS_MAX])
    ensures AllIn(Dedup(less + server)[..GLOBS_MAX], Dedup(more + server)[..GLOBS_MAX])
  {
    var kept := Dedup(less + server)[..GLOBS_MAX];
    KeptNow(server, less, more);
    ExceptHas(kept, more);
    forall x | x in kept ensures x in Dedup(more + server)[..GLOBS_MAX] {
      assert x in Except(kept, more) || x in Dedup(more);
    }
  }

  lemma SurvivesWhenItFits(server: seq<string>, less: seq<string>, more: seq<string>)
    requires |server| <= GLOBS_MAX && AllIn(less, more) && Fits(server, more)
    ensures AllIn(UnionGlobs(server, less), UnionGlobs(server, more))
  {
    KeepsBothIffFits(server, more);
    UnionAddsNothing(server, less);
  }

  lemma OverTheCap(server: seq<string>, local: seq<string>)
    requires !Fits(server, local)
    ensures var u := UnionGlobs(server, local);
            && |u| == GLOBS_MAX && NoRepeats(u) && AllIn(Own(local), u)
            && NoRepeats(Own(local))
            && (|Dedup(local)| > GLOBS_MAX ==> u == Own(local))
  {
    UnionKeepsTheHosts(server, local);
    DedupPrefix(local, server);
  }

  lemma NotBoth(server: seq<string>, local: seq<string>, u: seq<string>)
    requires !Fits(server, local) && |u| == GLOBS_MAX && NoRepeats(u)
    ensures !AllIn(local + server, u)
  {
    if AllIn(local + server, u) {
      InIsShorter(Dedup(local + server), u);
    }
  }

  lemma SurvivesAfterAFit(server: seq<string>, less: seq<string>, more: seq<string>)
    requires |server| <= GLOBS_MAX && AllIn(less, more) && !Fits(server, more) && Fits(server, less)
    ensures AllIn(UnionGlobs(server, less), UnionGlobs(server, more)) <==> AllIn(less + server, Own(more))
  {
    var now := UnionGlobs(server, more);
    KeepsBothIffFits(server, less);
    UnionAddsNothing(server, less);
    OverTheCap(server, more);
    if |Dedup(more)| <= GLOBS_MAX {
      NotBoth(server, more, now);
    }
  }

  lemma SurvivesAfterAnOverflow(server: seq<string>, less: seq<string>, more: seq<string>)
    requires |server| <= GLOBS_MAX && AllIn(less, more) && !Fits(server, more) && !Fits(server, less)
    ensures AllIn(UnionGlobs(server, less), UnionGlobs(server, more)) <==> AllIn(Own(more), UnionGlobs(server, less))
  {
    var was, now := UnionGlobs(server, less), UnionGlobs(server, more);
    OverTheCap(server, less);
    OverTheCap(server, more);
    if AllIn(was, now) {
      InIsShorter(was, now);
    } else if AllIn(Own(more), was) {
      if |Dedup(more)| > GLOBS_MAX {
        InIsShorter(now, was);
      } else {
        BothOverflow(server, less, more);
      }
    }
  }

  lemma SurvivesIff(server: seq<string>, less: seq<string>, more: seq<string>)
    requires |server| <= GLOBS_MAX && AllIn(less, more)
    ensures AllIn(UnionGlobs(server, less), UnionGlobs(server, more)) <==> Survives(server, less, more)
  {
    if Fits(server, more) {
      SurvivesWhenItFits(server, less, more);
    } else if Fits(server, less) {
      SurvivesAfterAFit(server, less, more);
    } else {
      SurvivesAfterAnOverflow(server, less, more);
    }
  }

  lemma ExcludeSurvivesIff(server: Exclude, less: Exclude, more: Exclude)
    requires ValidExclude(server) && ExcludesAll(less, more)
    ensures var was := Exclude(UnionGlobs(server.nicNames, less.nicNames),
                               UnionGlobs(server.mountpoints, less.mountpoints),
                               UnionGlobs(server.softwareNames, less.softwareNames));
            var now := Exclude(UnionGlobs(server.nicNames, more.nicNames),
                               UnionGlobs(server.mountpoints, more.mountpoints),
                               UnionGlobs(server.softwareNames, more.softwareNames));
            ExcludesAll(was, now) <==> ExcludeSurvives(server, less, more)
  {
    SurvivesIff(server.nicNames, less.nicNames, more.nicNames);
    SurvivesIff(server.mountpoints, less.mountpoints, more.mountpoints);
    SurvivesIff(server.softwareNames, less.softwareNames, more.softwareNames);
  }
}
