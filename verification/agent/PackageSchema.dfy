/**
 What the shared report schema does to a package list, for a build that knows some of the sources a package can
 come from: a source it does not know becomes absent. The agent takes the fingerprint of the list it collected,
 the server that of the list its own schema left.
 */
module PackageSchema {
  import opened Options
  import opened Permutations
  import opened Text
  import AgentPolicy
  import opened SoftwareDelta
  import opened InfraReport
  import opened F = Fingerprint
  import opened DeltaProtocol
  import opened DeltaRefinement

  const NAME_MAX := 255
  const VERSION_MAX := 120

  predicate Admits(p: Package) {
    1 <= |p.name| <= NAME_MAX && (p.version.Some? ==> |p.version.value| <= VERSION_MAX)
  }

  predicate IsKnown(known: set<string>, p: Package) {
    p.source.Some? ==> p.source.value in known
  }

  function ParsePackage(known: set<string>, p: Package): Package {
    if IsKnown(known, p) then p else p.(source := None)
  }

  /** One package that is not admitted, or one too many, rejects the report. */
  function ParseList(known: set<string>, l: Software): (r: Option<Software>)
    ensures r.Some? ==> |r.value| == |l|
  {
    if |l| <= SOFTWARE_LIST_MAX && (forall p :: p in l ==> Admits(p)) then Some(Map(p => ParsePackage(known, p), l))
    else None
  }

  predicate AllKnown(known: set<string>, l: Software) {
    forall p :: p in l ==> IsKnown(known, p)
  }

  lemma ParseKnows(known: set<string>, l: Software)
    requires ParseList(known, l).Some?
    ensures AllKnown(known, ParseList(known, l).value) && forall p :: p in ParseList(known, l).value ==> Admits(p)
    ensures AllKnown(known, l) ==> ParseList(known, l).value == l
  {
    var parsed := ParseList(known, l).value;
    forall p | p in parsed ensures Admits(p) && IsKnown(known, p) {
      var k :| 0 <= k < |parsed| && parsed[k] == p;
      assert l[k] in l;
    }
  }

  /** What a package is read as: a source that is not known is dropped, and nothing else is changed. */
  predicate ReadsAs(known: set<string>, p: Package, r: Package) {
    && r.name == p.name && r.version == p.version
    && r.source == if p.source.Some? && p.source.value in known then p.source else None
  }

  /** A list is accepted exactly when it, its names and its versions are within bounds; each package is read alone. */
  lemma ListIsParsedIff(known: set<string>, l: Software, r: Software)
    ensures ParseList(known, l) == Some(r)
      <==> && |l| <= 5000
           && (forall p :: p in l ==> 1 <= |p.name| <= 255 && (p.version.Some? ==> |p.version.value| <= 120))
           && |r| == |l| && forall k :: 0 <= k < |l| ==> ReadsAs(known, l[k], r[k])
  {
    assert ParseList(known, l).Some?
      <==> |l| <= 5000 && forall p :: p in l ==> 1 <= |p.name| <= 255 && (p.version.Some? ==> |p.version.value| <= 120);
    if ParseList(known, l).Some? && |r| == |l| {
      var parsed := ParseList(known, l).value;
      forall k | 0 <= k < |l| ensures ReadsAs(known, l[k], r[k]) <==> parsed[k] == r[k] {
      }
      assert parsed == r <==> forall k :: 0 <= k < |l| ==> parsed[k] == r[k];
    }
  }

  /** A list that one build has parsed goes unchanged through every build that knows as many sources. */
  lemma ParsedListIsStable(known: set<string>, more: set<string>, l: Software)
    requires known <= more && ParseList(known, l).Some?
    ensures ParseList(more, ParseList(known, l).value) == ParseList(known, l)
  {
    ParseKnows(known, l);
    ParseKnows(more, ParseList(known, l).value);
  }

  lemma ParseKeepsPlain(known: set<string>, l: Software)
    requires ParseList(known, l).Some? && forall p :: p in l ==> PlainPackage(p)
    ensures forall p :: p in ParseList(known, l).value ==> PlainPackage(p)
  {
    var parsed := ParseList(known, l).value;
    forall p | p in parsed ensures PlainPackage(p) {
      var k :| 0 <= k < |parsed| && parsed[k] == p;
      assert l[k] in l;
    }
  }

  /** For plain packages, agent and server hash the same text exactly when the server knows every source listed. */
  lemma TextSurvivesIff(known: set<string>, l: Software)
    requires ParseList(known, l).Some? && forall p :: p in l ==> PlainPackage(p)
    ensures CanonicalText(ParseList(known, l).value) == CanonicalText(l) <==> AllKnown(known, l)
  {
    var parsed := ParseList(known, l).value;
    ParseKnows(known, l);
    ParseKeepsPlain(known, l);
    TextIdentifiesInventory(parsed, l);
    if multiset(parsed) == multiset(l) {
      forall p | p in l ensures IsKnown(known, p) {
        assert p in multiset(parsed);
      }
    }
  }

  /**
   After a list has arrived, leaving it out draws a resend request exactly when the server's reading of it has
   another fingerprint than the agent's; while the server knows every source it never does.
   */
  lemma OmissionStandsIff(known: set<string>, l: Software, facts: Facts, later: Facts, store: Store)
    requires ParseList(known, l).Some? && Consistent(Shipped(), store)
    ensures
      var sent := Report(facts, ParseList(known, l), Some(SaysReported), Some(Fingerprint(l)));
      var omitted := Report(later, None, Some(SaysUnchanged), Some(Fingerprint(l)));
      var after := IngestNew(Shipped(), sent, store).0;
      && (!IngestNew(Shipped(), omitted, after).1 <==> Fingerprint(ParseList(known, l).value) == Fingerprint(l))
      && (AllKnown(known, l) ==> !IngestNew(Shipped(), omitted, after).1)
  {
    var sent := Report(facts, ParseList(known, l), Some(SaysReported), Some(Fingerprint(l)));
    NewServerObeysTheDirective(Shipped(), sent, store);
    IngestKeepsConsistent(Shipped(), New, sent, store);
    ResendIffUncorroborated(Shipped(), Report(later, None, Some(SaysUnchanged), Some(Fingerprint(l))),
                            IngestNew(Shipped(), sent, store).0);
    ParseKnows(known, l);
  }

  // ----- packages that can be taken for each other -----

  /** A package whose source is on the list of sources, or that has none. */
  predicate Listed(p: Package) {
    IsKnown(AgentPolicy.SOFTWARE_SOURCES, p)
  }

  /** A package as it can arrive: every such package goes through the schema as it is. */
  predicate Allowed(p: Package) {
    Admits(p) && Listed(p)
  }

  /** What an entry says before the source. */
  function FrontOf(p: Package): string {
    p.name + [FIELD_SEPARATOR] + FieldText(p.version)
  }

  lemma NoSeparatorInSources(source: string)
    requires source in AgentPolicy.SOFTWARE_SOURCES
    ensures FIELD_SEPARATOR !in source && source != FIELD_ABSENT
  {
  }

  lemma ListedSource(p: Package)
    requires Listed(p)
    ensures FIELD_SEPARATOR !in FieldText(p.source)
    ensures p.source.Some? ==> p.source.value != FIELD_ABSENT
  {
    if p.source.Some? {
      NoSeparatorInSources(p.source.value);
    }
  }

  lemma EntryIsFrontAndSource(p: Package)
    ensures Entry(p) == FrontOf(p) + [FIELD_SEPARATOR] + FieldText(p.source)
  {
    EntryText(p);
  }

  /** Two packages have the same entry exactly when they have the same source and read alike before it. */
  lemma SameEntryIff(p: Package, q: Package)
    requires Listed(p) && Listed(q)
    ensures Entry(p) == Entry(q) <==> FrontOf(p) == FrontOf(q) && p.source == q.source
  {
    EntryIsFrontAndSource(p);
    EntryIsFrontAndSource(q);
    if Entry(p) == Entry(q) {
      ListedSource(p);
      ListedSource(q);
      SameLastField(FrontOf(p), FieldText(p.source), FrontOf(q), FieldText(q.source));
    }
  }

  /** What stands behind the last separator is determined, and what stands in front of it. */
  lemma SameLastField(a: string, x: string, b: string, y: string)
    requires a + [FIELD_SEPARATOR] + x == b + [FIELD_SEPARATOR] + y
    requires FIELD_SEPARATOR !in x && FIELD_SEPARATOR !in y
    ensures a == b && x == y
  {
    if |a| < |b| {
      SeparatorInside(a, x, b, y);
    } else if |b| < |a| {
      SeparatorInside(b, y, a, x);
    } else {
      PiecesOf(a + [FIELD_SEPARATOR], x);
      PiecesOf(b + [FIELD_SEPARATOR], y);
      PiecesOf(a, [FIELD_SEPARATOR]);
      PiecesOf(b, [FIELD_SEPARATOR]);
    }
  }

  lemma SeparatorInside(a: string, x: string, b: string, y: string)
    requires a + [FIELD_SEPARATOR] + x == b + [FIELD_SEPARATOR] + y && |a| < |b|
    ensures FIELD_SEPARATOR in x
  {
    var s := a + [FIELD_SEPARATOR] + x;
    assert s[|b|] == (b + [FIELD_SEPARATOR] + y)[|b|] == FIELD_SEPARATOR;
    assert s[|b|] == x[|b| - |a| - 1];
  }

  lemma FrontIsCut(p: Package)
    ensures var front := FrontOf(p);
            front[|p.name|] == FIELD_SEPARATOR && front[..|p.name|] == p.name
            && front[|p.name| + 1..] == FieldText(p.version)
  {
  }

  /** The front of an entry cut at another separator than the one after the name. */
  function Recut(p: Package, i: nat): Package
    requires i < |FrontOf(p)|
  {
    Package(FrontOf(p)[..i], Some(FrontOf(p)[i + 1..]), p.source)
  }

  predicate CanRecut(p: Package, i: nat) {
    i < |FrontOf(p)| && i != |p.name| && FrontOf(p)[i] == FIELD_SEPARATOR
  }

  /** A missing version and one that reads like a missing one. */
  predicate LikeMissing(version: Option<string>) {
    version.None? || version.value == FIELD_ABSENT
  }

  function Flipped(p: Package): Package {
    p.(version := if p.version.None? then Some(FIELD_ABSENT) else None)
  }

  lemma RecutIsMistaken(p: Package, i: nat)
    requires Listed(p) && CanRecut(p, i)
    ensures Listed(Recut(p, i)) && Recut(p, i) != p && Entry(Recut(p, i)) == Entry(p)
  {
    var q, front := Recut(p, i), FrontOf(p);
    assert front == front[..i] + [FIELD_SEPARATOR] + front[i + 1..];
    SameEntryIff(p, q);
    assert |q.name| == i;
  }

  lemma FlippedIsMistaken(p: Package)
    requires Listed(p) && LikeMissing(p.version)
    ensures Listed(Flipped(p)) && Flipped(p) != p && Entry(Flipped(p)) == Entry(p)
  {
    SameEntryIff(p, Flipped(p));
  }

  /** Whatever has the entry of `p` is `p`, or `p` with its version flipped or its front cut elsewhere. */
  lemma MistakenIs(p: Package, q: Package)
    requires Listed(p) && Listed(q) && Entry(q) == Entry(p) && q != p
    ensures (LikeMissing(p.version) && q.name == p.name) || CanRecut(p, |q.name|)
    ensures |q.name| + 1 + |FieldText(q.version)| == |FrontOf(p)|
  {
    SameEntryIff(p, q);
    FrontIsCut(p);
    FrontIsCut(q);
  }

  /**
   Among all packages with a listed source, a package has its entry to itself if and only if its name and version
   hold no field separator, and it has a version, which does not read like a missing one.
   */
  lemma ListedIsUniqueIff(p: Package)
    requires Listed(p)
    ensures (forall q | Listed(q) :: Entry(q) == Entry(p) ==> q == p)
      <==> FIELD_SEPARATOR !in p.name && !LikeMissing(p.version) && FIELD_SEPARATOR !in p.version.value
  {
    if LikeMissing(p.version) {
      FlippedIsMistaken(p);
    } else if FIELD_SEPARATOR in p.name || FIELD_SEPARATOR in p.version.value {
      var i := OtherSeparator(p);
      RecutIsMistaken(p, i);
    } else {
      forall q | Listed(q) && Entry(q) == Entry(p) ensures q == p {
        if q != p {
          MistakenIs(p, q);
          OneSeparator(p, |q.name|);
        }
      }
    }
  }

  lemma OtherSeparator(p: Package) returns (i: nat)
    requires FIELD_SEPARATOR in p.name || FIELD_SEPARATOR in FieldText(p.version)
    ensures CanRecut(p, i)
  {
    FrontIsCut(p);
    if FIELD_SEPARATOR in p.name {
      i :| i < |p.name| && p.name[i] == FIELD_SEPARATOR;
    } else {
      var j :| 0 <= j < |FieldText(p.version)| && FieldText(p.version)[j] == FIELD_SEPARATOR;
      i := |p.name| + 1 + j;
      assert FrontOf(p)[i] == FrontOf(p)[|p.name| + 1..][j];
    }
  }

  lemma OneSeparator(p: Package, i: nat)
    requires FIELD_SEPARATOR !in p.name && FIELD_SEPARATOR !in FieldText(p.version)
    ensures !CanRecut(p, i)
  {
    var front := FrontOf(p);
    FrontIsCut(p);
    if i < |p.name| {
      assert front[i] == p.name[i];
    } else if |p.name| < i < |front| {
      assert front[i] == FieldText(p.version)[i - |p.name| - 1];
    }
  }

  /** Cut at `i`, the name and the version still have the lengths that the schema admits. */
  predicate FitsCut(p: Package, i: nat) {
    CanRecut(p, i) && 1 <= i <= NAME_MAX && |FrontOf(p)| - i - 1 <= VERSION_MAX
  }

  /**
   The same among the packages that can arrive: a package has its entry to itself if and only if it has a version,
   which does not read like a missing one, and its front holds no other separator at which it could be cut within
   the lengths that the schema admits.
   */
  lemma AllowedIsUniqueIff(p: Package)
    requires Allowed(p)
    ensures (forall q | Allowed(q) :: Entry(q) == Entry(p) ==> q == p)
      <==> !LikeMissing(p.version) && forall i: nat :: !FitsCut(p, i)
  {
    if LikeMissing(p.version) || exists i: nat :: FitsCut(p, i) {
      var q := OtherAllowed(p);
    } else {
      forall q | Allowed(q) && Entry(q) == Entry(p) ensures q == p {
        if q != p {
          MistakenFits(p, q);
        }
      }
    }
  }

  lemma MistakenFits(p: Package, q: Package)
    requires Allowed(p) && Allowed(q) && Entry(q) == Entry(p) && q != p
    ensures LikeMissing(p.version) || FitsCut(p, |q.name|)
  {
    MistakenIs(p, q);
  }

  lemma OtherAllowed(p: Package) returns (q: Package)
    requires Allowed(p) && (LikeMissing(p.version) || exists i: nat :: FitsCut(p, i))
    ensures Allowed(q) && q != p && Entry(q) == Entry(p)
  {
    if LikeMissing(p.version) {
      q := Flipped(p);
      FlippedIsMistaken(p);
    } else {
      var i: nat :| FitsCut(p, i);
      q := Recut(p, i);
      RecutIsMistaken(p, i);
    }
  }

  predicate AllAllowed(l: Software) {
    forall p :: p in l ==> Allowed(p)
  }

  /** With such a package in it, a list that can arrive has the fingerprint of another list that can arrive. */
  lemma MistakenInAList(l: Software, k: nat) returns (other: Software)
    requires AllAllowed(l) && k < |l| && (LikeMissing(l[k].version) || exists i: nat :: FitsCut(l[k], i))
    ensures AllAllowed(other) && multiset(other) != multiset(l)
    ensures CanonicalText(other) == CanonicalText(l) && Fingerprint(other) == Fingerprint(l)
  {
    assert l[k] in l;
    var q := OtherAllowed(l[k]);
    other := l[k := q];
    ReplacedDiffers(l, k, q);
    SameEntries(l, other);
  }

  // ----- the separator between entries -----

  predicate IsFull(p: Package) {
    p.name != "" && p.version.Some? && p.source.Some?
  }

  /** The package whose version goes on with the rest of its own entry and with the next one's name and version. */
  function Joined(p: Package, next: Package): Package
    requires IsFull(p) && IsFull(next)
  {
    p.(version := Some(Swallowing(p.version.value, p.source.value, next.name, next.version.value)),
       source := next.source)
  }

  function Swallowing(version: string, source: string, name: string, next: string): string {
    version + [FIELD_SEPARATOR] + source + [ENTRY_SEPARATOR] + name + [FIELD_SEPARATOR] + next
  }

  /** How long the version of `p` is when it swallows the end of its entry and the beginning of the next. */
  function JoinedLength(p: Package, next: Package): nat
    requires IsFull(p) && IsFull(next)
  {
    |p.version.value| + |p.source.value| + |next.name| + |next.version.value| + 3
  }

  lemma JoinedIsAllowed(p: Package, next: Package)
    requires IsFull(p) && IsFull(next) && Allowed(p) && Allowed(next) && JoinedLength(p, next) <= VERSION_MAX
    ensures Allowed(Joined(p, next))
  {
  }

  /** A version that swallows the end of its entry makes two lists that can arrive collide, with other packages. */
  lemma EntrySeparatorCollides(a: Package, b: Package, c: Package)
    requires IsFull(a) && IsFull(b) && IsFull(c) && a.name[0] < b.name[0] && a.name[0] < c.name[0]
    requires Allowed(a) && Allowed(b) && Allowed(c)
    requires JoinedLength(a, b) <= VERSION_MAX && JoinedLength(b, c) <= VERSION_MAX
    ensures AllAllowed([Joined(a, b), c]) && AllAllowed([a, Joined(b, c)])
    ensures multiset([Joined(a, b), c]) != multiset([a, Joined(b, c)])
    ensures Fingerprint([Joined(a, b), c]) == Fingerprint([a, Joined(b, c)])
  {
    JoinedIsAllowed(a, b);
    JoinedIsAllowed(b, c);
    AllOfTwo(Joined(a, b), c);
    AllOfTwo(a, Joined(b, c));
    SameTextOfTwo(a, b, c);
    SameTextSameFingerprint([Joined(a, b), c], [a, Joined(b, c)]);
    JoinedDiffer(a, b, c);
  }

  lemma AllOfTwo(p: Package, q: Package)
    requires Allowed(p) && Allowed(q)
    ensures AllAllowed([p, q])
  {
  }

  lemma JoinedDiffer(a: Package, b: Package, c: Package)
    requires IsFull(a) && IsFull(b) && IsFull(c) && a.name[0] < b.name[0]
    ensures multiset([Joined(a, b), c]) != multiset([a, Joined(b, c)])
  {
    var p, q := Joined(a, b), Joined(b, c);
    assert |p.version.value| > |a.version.value|;
    assert p.name[0] != q.name[0];
    NotAmong(p, c, a, q);
  }

  lemma SameTextOfTwo(a: Package, b: Package, c: Package)
    requires IsFull(a) && IsFull(b) && IsFull(c) && a.name[0] < b.name[0] && a.name[0] < c.name[0]
    ensures CanonicalText([Joined(a, b), c]) == CanonicalText([a, Joined(b, c)])
  {
    var p, q := Joined(a, b), Joined(b, c);
    TextOfTwo(p, c);
    TextOfTwo(a, q);
    EntryText(p);
    EntryText(c);
    EntryText(a);
    EntryText(q);
    Swallowed(a.name, a.version.value, a.source.value, b.name, b.version.value, b.source.value,
              c.name, c.version.value, FieldText(c.source));
  }

  lemma SameTextSameFingerprint(a: Software, b: Software)
    requires |a| == |b| && CanonicalText(a) == CanonicalText(b)
    ensures Fingerprint(a) == Fingerprint(b)
  {
  }

  /** One such pair: "a", "b" and "c" in versions 1, 2 and 3, from any source. */
  lemma SuchPackagesArrive(source: string)
    requires source in AgentPolicy.SOFTWARE_SOURCES
    ensures var a, b, c := Package("a", Some("1"), Some(source)), Package("b", Some("2"), Some(source)),
                           Package("c", Some("3"), Some(source));
            && Allowed(a) && Allowed(b) && Allowed(c)
            && JoinedLength(a, b) <= VERSION_MAX && JoinedLength(b, c) <= VERSION_MAX
  {
    assert |source| <= 10;
  }

  lemma Swallowed(n: string, v: string, s: string, m: string, w: string, r: string, k: string, x: string, u: string)
    ensures var f, e := [FIELD_SEPARATOR], [ENTRY_SEPARATOR];
            n + f + Swallowing(v, s, m, w) + f + r + e + (k + f + x + f + u)
            == n + f + v + f + s + e + (m + f + Swallowing(w, r, k, x) + f + u)
  {
  }

  lemma NotAmong<T>(p: T, q: T, r: T, t: T)
    requires p != r && p != t
    ensures multiset([p, q]) != multiset([r, t])
  {
    assert p in multiset([p, q]) && p !in multiset([r, t]);
  }

  // ----- the protocol with the shipped fingerprint -----

  /** What the server of an agent that starts without memory stores after any orderly run. */
  lemma ShippedAgentsRefine(w: World, es: seq<Event>)
    requires w.version.New? && Consistent(Shipped(), w.store) && !w.stateFile.Holds?
    requires AllOrderly(Shipped(), es)
    ensures SameStore(Shipped(), Steps(Shipped(), w, es).store, FullSteps(Shipped(), w.store, es))
  {
    FreshAgentsRefine(Shipped(), w, es);
  }
}
