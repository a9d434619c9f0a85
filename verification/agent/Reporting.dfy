/**
 What a run reports of what it collected: the exclusion patterns of the policy applied to the facts, and what the
 host's veto comes to there.
 */
module Reporting {
  import opened Options
  import opened Text
  import opened Filtering
  import opened SoftwareDelta
  import opened AgentPolicy
  import opened Globs
  import HostConfig

  datatype Nic = Nic(name: string, facts: string)

  datatype Disk = Disk(mountpoint: Option<string>, facts: string)

  // ----- the three filters -----

  function NicIsKept(p: Policy): Nic -> bool {
    (nic: Nic) => !MatchesAny(p.exclude.nicNames, nic.name)
  }

  /** A disk that is not mounted is never excluded. */
  function DiskIsKept(p: Policy): Disk -> bool {
    (disk: Disk) => disk.mountpoint.None? || !MatchesAny(p.exclude.mountpoints, disk.mountpoint.value)
  }

  /** A list of sources, when there is one, leaves out a package that has none. */
  function PackageIsKept(p: Policy): Package -> bool {
    (pkg: Package) =>
      && !MatchesAny(p.exclude.softwareNames, pkg.name)
      && (p.softwareSources == [] || (pkg.source.Some? && pkg.source.value in p.softwareSources))
  }

  /** Nothing at all when the collector is off. */
  function ApplyNicPolicy(p: Policy, nics: seq<Nic>): Option<seq<Nic>> {
    if Nics in p.collect then Some(Filter(nics, NicIsKept(p))) else None
  }

  function ApplyDiskPolicy(p: Policy, disks: seq<Disk>): Option<seq<Disk>> {
    if Disks in p.collect then Some(Filter(disks, DiskIsKept(p))) else None
  }

  /** The cap is spent on the packages that are kept. */
  function ApplySoftwarePolicy(p: Policy, l: Software): Software
    requires p.softwareMax >= 0
  {
    Capped(Filter(l, PackageIsKept(p)), p.softwareMax)
  }

  function Capped<T>(s: seq<T>, max: nat): seq<T> {
    if |s| <= max then s else s[..max]
  }

  lemma FilterOneMore<T>(s: seq<T>, x: T, keep: T -> bool)
    ensures Filter(s + [x], keep) == Filter(s, keep) + if keep(x) then [x] else []
  {
    FilterConcat(s, [x], keep);
    FilterOne(x, keep);
  }

  /**
   Interface by interface: with the collector on, one more is reported, behind those before it, exactly when no
   pattern matches its name; with the collector off there is no report of any.
   */
  lemma OneMoreNic(p: Policy, nics: seq<Nic>, nic: Nic)
    ensures ApplyNicPolicy(p, nics).Some? <==> Nics in p.collect
    ensures ApplyNicPolicy(p, []) in {Some([]), None}
    ensures Nics in p.collect ==>
      var excluded := exists g :: g in p.exclude.nicNames && Matches(g, nic.name);
      ApplyNicPolicy(p, nics + [nic]) == Some(ApplyNicPolicy(p, nics).value + if excluded then [] else [nic])
  {
    FilterOneMore(nics, nic, NicIsKept(p));
  }

  /** So it is for disks, by their mountpoints; one without a mountpoint is always reported. */
  lemma OneMoreDisk(p: Policy, disks: seq<Disk>, disk: Disk)
    ensures ApplyDiskPolicy(p, disks).Some? <==> Disks in p.collect
    ensures ApplyDiskPolicy(p, []) in {Some([]), None}
    ensures Disks in p.collect ==>
      var excluded :=
        disk.mountpoint.Some? && exists g :: g in p.exclude.mountpoints && Matches(g, disk.mountpoint.value);
      ApplyDiskPolicy(p, disks + [disk]) == Some(ApplyDiskPolicy(p, disks).value + if excluded then [] else [disk])
  {
    FilterOneMore(disks, disk, DiskIsKept(p));
  }

  /**
   Package by package: one more is reported, behind those before it, exactly when fewer than the cap were, no
   pattern matches its name, and its source is among those asked for, where any are.
   */
  lemma OneMorePackage(p: Policy, l: Software, pkg: Package)
    requires p.softwareMax >= 0
    ensures ApplySoftwarePolicy(p, []) == []
    ensures var excluded := exists g :: g in p.exclude.softwareNames && Matches(g, pkg.name);
            var wanted := p.softwareSources == [] || exists s :: s in p.softwareSources && pkg.source == Some(s);
            ApplySoftwarePolicy(p, l + [pkg])
            == ApplySoftwarePolicy(p, l)
               + if |ApplySoftwarePolicy(p, l)| < p.softwareMax && !excluded && wanted then [pkg] else []
  {
    FilterOneMore(l, pkg, PackageIsKept(p));
    assert pkg.source.Some? && pkg.source.value in p.softwareSources
      <==> exists s :: s in p.softwareSources && pkg.source == Some(s);
    CappedOneMore(Filter(l, PackageIsKept(p)), pkg, p.softwareMax);
  }

  lemma CappedOneMore<T>(s: seq<T>, x: T, max: nat)
    ensures Capped(s + [x], max) == Capped(s, max) + if |Capped(s, max)| < max then [x] else []
  {
    if |s| >= max {
      assert (s + [x])[..max] == s[..max];
    }
  }

  // ----- filters one after the other -----

  lemma {:induction false} FilterAgain<T(!new)>(s: seq<T>, narrow: T -> bool, wide: T -> bool)
    requires forall x :: narrow(x) ==> wide(x)
    ensures Filter(Filter(s, wide), narrow) == Filter(s, narrow)
  {
    if s != [] {
      FilterAgain(s[1..], narrow, wide);
      if wide(s[0]) {
        var rest := Filter(s[1..], wide);
        assert ([s[0]] + rest)[0] == s[0] && ([s[0]] + rest)[1..] == rest;
      }
    }
  }

  lemma {:induction false} FilterIsPart<T>(s: seq<T>, keep: T -> bool)
    ensures multiset(Filter(s, keep)) <= multiset(s)
  {
    if s != [] {
      FilterIsPart(s[1..], keep);
      assert s == [s[0]] + s[1..];
    }
  }

  // ----- a narrower policy on names -----

  lemma MoreGlobsMatchMore(less: seq<string>, more: seq<string>, name: string)
    requires AllIn(less, more) && MatchesAny(less, name)
    ensures MatchesAny(more, name)
  {
    var g :| g in less && Matches(g, name);
    assert g in more;
  }

  /** What `narrow` reports of the interfaces and the disks is what it leaves of the report under `wide`. */
  predicate FactsAreWithin(narrow: Policy, wide: Policy, nics: seq<Nic>, disks: seq<Disk>) {
    && (ApplyNicPolicy(narrow, nics).Some? ==>
          && ApplyNicPolicy(wide, nics).Some?
          && ApplyNicPolicy(narrow, nics) == ApplyNicPolicy(narrow, ApplyNicPolicy(wide, nics).value))
    && (ApplyDiskPolicy(narrow, disks).Some? ==>
          && ApplyDiskPolicy(wide, disks).Some?
          && ApplyDiskPolicy(narrow, disks) == ApplyDiskPolicy(narrow, ApplyDiskPolicy(wide, disks).value))
  }

  /** Whatever is reported of the interfaces and the disks under the narrower policy is reported under the other. */
  lemma NarrowerReportsNoMore(narrow: Policy, wide: Policy, nics: seq<Nic>, disks: seq<Disk>)
    requires Narrower(narrow, wide)
    ensures FactsAreWithin(narrow, wide, nics, disks)
  {
    NicsStayExcluded(narrow, wide);
    DisksStayExcluded(narrow, wide);
    FilterAgain(nics, NicIsKept(narrow), NicIsKept(wide));
    FilterAgain(disks, DiskIsKept(narrow), DiskIsKept(wide));
  }

  lemma NicsStayExcluded(narrow: Policy, wide: Policy)
    requires AllIn(wide.exclude.nicNames, narrow.exclude.nicNames)
    ensures forall nic :: NicIsKept(narrow)(nic) ==> NicIsKept(wide)(nic)
  {
    forall nic: Nic | !NicIsKept(wide)(nic) ensures !NicIsKept(narrow)(nic) {
      MoreGlobsMatchMore(wide.exclude.nicNames, narrow.exclude.nicNames, nic.name);
    }
  }

  lemma DisksStayExcluded(narrow: Policy, wide: Policy)
    requires AllIn(wide.exclude.mountpoints, narrow.exclude.mountpoints)
    ensures forall disk :: DiskIsKept(narrow)(disk) ==> DiskIsKept(wide)(disk)
  {
    forall disk: Disk | !DiskIsKept(wide)(disk) ensures !DiskIsKept(narrow)(disk) {
      MoreGlobsMatchMore(wide.exclude.mountpoints, narrow.exclude.mountpoints, disk.mountpoint.value);
    }
  }

  lemma PackagesStayExcluded(narrow: Policy, wide: Policy)
    requires AllIn(wide.exclude.softwareNames, narrow.exclude.softwareNames)
    requires narrow.softwareSources == wide.softwareSources
    ensures forall pkg :: PackageIsKept(narrow)(pkg) ==> PackageIsKept(wide)(pkg)
  {
    forall pkg: Package | !PackageIsKept(wide)(pkg) ensures !PackageIsKept(narrow)(pkg) {
      if MatchesAny(wide.exclude.softwareNames, pkg.name) {
        MoreGlobsMatchMore(wide.exclude.softwareNames, narrow.exclude.softwareNames, pkg.name);
      }
    }
  }

  // ----- and on packages, where the cap makes room -----

  lemma PrefixIsPart<T>(s: seq<T>, n: nat)
    requires n <= |s|
    ensures multiset(s[..n]) <= multiset(s)
  {
    assert s == s[..n] + s[n..];
  }

  /** What is kept of a front comes first in what is kept of the whole. */
  lemma FrontOfFilter<T>(s: seq<T>, n: nat, keep: T -> bool)
    requires n <= |s|
    ensures Filter(s[..n], keep) <= Filter(s, keep)
  {
    assert s == s[..n] + s[n..];
    FilterConcat(s[..n], s[n..], keep);
  }

  lemma {:induction false} FilterKeepsPart<T>(part: seq<T>, s: seq<T>, keep: T -> bool)
    requires multiset(part) <= multiset(s) && forall x :: x in part ==> keep(x)
    ensures |part| <= |Filter(s, keep)|
    decreases |part|
  {
    if part != [] {
      var x, rest := part[0], part[1..];
      assert part == [x] + rest;
      assert x in multiset(s);
      var i :| 0 <= i < |s| && s[i] == x;
      var without := s[..i] + s[i + 1..];
      WithoutIt(s, i);
      assert keep(x);
      assert forall y :: y in rest ==> y in part;
      FilterKeepsPart(rest, without, keep);
      FilterWithout(s, i, keep);
    }
  }

  lemma WithoutIt<T>(s: seq<T>, i: nat)
    requires i < |s|
    ensures multiset(s[..i] + s[i + 1..]) == multiset(s) - multiset{s[i]}
  {
    assert s == s[..i] + [s[i]] + s[i + 1..];
  }

  lemma FilterWithout<T>(s: seq<T>, i: nat, keep: T -> bool)
    requires i < |s| && keep(s[i])
    ensures |Filter(s[..i] + s[i + 1..], keep)| + 1 == |Filter(s, keep)|
  {
    assert s[i := s[i]] == s;
    FilterAround(s, i, s[i], keep);
    FilterOne(s[i], keep);
    FilterConcat(s[..i], s[i + 1..], keep);
  }

  lemma CappedIs<T>(s: seq<T>, max: nat)
    ensures Capped(s, max) == s[..|Capped(s, max)|] && |Capped(s, max)| == if |s| <= max then |s| else max
  {
  }

  /** A front of what is kept of the whole is within a front of the whole, exactly when that has enough left. */
  lemma FrontsNestIff<T>(s: seq<T>, keep: T -> bool, n: nat, m: nat)
    requires n <= |Filter(s, keep)| && m <= |s|
    ensures multiset(Filter(s, keep)[..n]) <= multiset(s[..m]) <==> n <= |Filter(s[..m], keep)|
  {
    FrontOfFilter(s, m, keep);
    var less, left := Filter(s, keep)[..n], Filter(s[..m], keep);
    if n <= |left| {
      assert less == left[..n];
      PrefixIsPart(left, n);
      FilterIsPart(s[..m], keep);
    }
    if multiset(less) <= multiset(s[..m]) {
      FilterKeepsPart(less, s[..m], keep);
    }
  }

  /** A second filter behind the same cap, or a lower one, stays within the first exactly when that has enough left. */
  lemma CapsNestIff<T(!new)>(s: seq<T>, narrow: T -> bool, wide: T -> bool, low: nat, high: nat)
    requires (forall x :: narrow(x) ==> wide(x)) && low <= high
    ensures var less, more := Capped(Filter(s, narrow), low), Capped(Filter(s, wide), high);
            && |less| <= |more|
            && (multiset(less) <= multiset(more) <==> |less| <= |Filter(more, narrow)|)
  {
    var kept := Filter(s, wide);
    FilterAgain(s, narrow, wide);
    FilterIsPart(kept, narrow);
    PartIsShorter(Filter(kept, narrow), kept);
    CappedIs(Filter(s, narrow), low);
    CappedIs(kept, high);
    FrontsNestIff(kept, narrow, |Capped(Filter(s, narrow), low)|, |Capped(kept, high)|);
  }

  lemma PartIsShorter<T>(a: seq<T>, b: seq<T>)
    requires multiset(a) <= multiset(b)
    ensures |a| <= |b|
  {
    assert multiset(b) == multiset(a) + (multiset(b) - multiset(a));
    assert |multiset(a)| == |a| && |multiset(b)| == |b|;
  }

  /**
   Under a narrower policy never more packages are reported. They are all reported under the wider one too, if and
   only if its report holds as many packages that the narrower one keeps; when it was cut at its cap, an exclusion
   makes room for packages behind it.
   */
  lemma NarrowerSoftwareIff(narrow: Policy, wide: Policy, l: Software)
    requires Narrower(narrow, wide) && narrow.softwareSources == wide.softwareSources && narrow.softwareMax >= 0
    ensures var less, more := ApplySoftwarePolicy(narrow, l), ApplySoftwarePolicy(wide, l);
            && |less| <= |more|
            && (multiset(less) <= multiset(more) <==> |less| <= |Filter(more, PackageIsKept(narrow))|)
  {
    PackagesStayExcluded(narrow, wide);
    CapsNestIff(l, PackageIsKept(narrow), PackageIsKept(wide), narrow.softwareMax, wide.softwareMax);
  }

  /** A cap of one, two packages, and the first of them excluded: now the second is reported. */
  lemma ExclusionMakesRoom(p: Policy, first: Package, second: Package)
    requires p.exclude.softwareNames == [] && p.softwareSources == [] && p.softwareMax == 1
    requires IsPlainGlob(first.name) && ToLower(first.name) != ToLower(second.name)
    ensures var narrow := p.(exclude := p.exclude.(softwareNames := [first.name]));
            && Narrower(narrow, p)
            && ApplySoftwarePolicy(p, [first, second]) == [first]
            && ApplySoftwarePolicy(narrow, [first, second]) == [second]
  {
    var narrow := p.(exclude := p.exclude.(softwareNames := [first.name]));
    PlainMatchesIff(first.name, first.name);
    PlainMatchesIff(first.name, second.name);
    assert first.name in narrow.exclude.softwareNames;
    assert PackageIsKept(p)(first) && PackageIsKept(p)(second);
    assert !PackageIsKept(narrow)(first) && PackageIsKept(narrow)(second);
    assert [first, second][1..] == [second];
    FilterOne(second, PackageIsKept(p));
    FilterOne(second, PackageIsKept(narrow));
  }

  /** On a host with stricter limits whose patterns survive, every run reports no more of anything. */
  lemma StricterLimitsReportNoMore(p: Policy, less: Limits, more: Limits, nics: seq<Nic>, disks: seq<Disk>, l: Software)
    requires ValidPolicy(p) && Stricter(more, less) && ExcludeSurvives(p.exclude, less.exclude, more.exclude)
    ensures var was, now := ApplyVeto(p, less), ApplyVeto(p, more);
            && FactsAreWithin(now, was, nics, disks)
            && |ApplySoftwarePolicy(now, l)| <= |ApplySoftwarePolicy(was, l)|
  {
    StricterLimitsNarrowFurther(p, less, more);
    NarrowerReportsNoMore(ApplyVeto(p, more), ApplyVeto(p, less), nics, disks);
    NarrowerSoftwareIff(ApplyVeto(p, more), ApplyVeto(p, less), l);
  }

  // ----- the veto, at names -----

  ghost predicate AllPlain(globs: seq<string>) {
    forall g :: g in globs ==> IsPlainGlob(g) && ToLower(g) == g
  }

  /** A list without wildcards, in lower case, leaves out exactly the names it lists, in any case. */
  lemma PlainListIff(globs: seq<string>, name: string)
    requires AllPlain(globs)
    ensures MatchesAny(globs, name) <==> ToLower(name) in globs
  {
    if MatchesAny(globs, name) {
      var g :| g in globs && Matches(g, name);
      PlainMatchesIff(g, name);
    }
    if ToLower(name) in globs {
      PlainMatchesIff(ToLower(name), name);
    }
  }

  lemma PlainUnion(server: seq<string>, local: seq<string>)
    requires AllPlain(server) && AllPlain(local)
    ensures AllPlain(UnionGlobs(server, local))
  {
    UnionAddsNothing(server, local);
  }

  /**
   With more patterns on the host, every name that was left out before stays left out if the patterns survive the
   cap; and only if, where the patterns are names in lower case.
   */
  lemma NamesStayExcludedIff(server: seq<string>, less: seq<string>, more: seq<string>)
    requires |server| <= GLOBS_MAX && AllIn(less, more)
    ensures Survives(server, less, more) ==> NamesStay(UnionGlobs(server, less), UnionGlobs(server, more))
    ensures AllPlain(server) && AllPlain(more)
      ==> (NamesStay(UnionGlobs(server, less), UnionGlobs(server, more)) <==> Survives(server, less, more))
  {
    SurvivesIff(server, less, more);
    var was, now := UnionGlobs(server, less), UnionGlobs(server, more);
    if Survives(server, less, more) {
      forall name | MatchesAny(was, name) ensures MatchesAny(now, name) {
        MoreGlobsMatchMore(was, now, name);
      }
    } else if AllPlain(server) && AllPlain(more) {
      PlainUnion(server, less);
      PlainUnion(server, more);
      var lost :| lost in was && lost !in now;
      PlainListIff(was, lost);
      PlainListIff(now, lost);
      assert MatchesAny(was, lost) && !MatchesAny(now, lost);
    }
  }

  ghost predicate NamesStay(was: seq<string>, now: seq<string>) {
    forall name :: MatchesAny(was, name) ==> MatchesAny(now, name)
  }

  /** One name more in the host's list, and an interface that the server had left out is reported. */
  lemma AddingAnExclusionCanWiden(p: Policy, mine: string)
    requires ValidPolicy(p) && |p.exclude.nicNames| == GLOBS_MAX && NoRepeats(p.exclude.nicNames)
    requires AllPlain(p.exclude.nicNames) && Nics in p.collect
    requires ValidGlob(mine) && AllPlain([mine]) && mine !in p.exclude.nicNames
    ensures var more := NO_LIMITS.(exclude := Exclude([mine], [], []));
            var nic := Nic(p.exclude.nicNames[GLOBS_MAX - 1], "");
            && Stricter(more, NO_LIMITS)
            && ApplyNicPolicy(p, [nic]) == Some([]) && ApplyNicPolicy(ApplyVeto(p, more), [nic]) == Some([nic])
  {
    var more := NO_LIMITS.(exclude := Exclude([mine], [], []));
    var names, dropped := p.exclude.nicNames, p.exclude.nicNames[GLOBS_MAX - 1];
    var nic := Nic(dropped, "");
    assert dropped in names;
    CapCanDropAServerExclusion(names, mine);
    PlainUnion(names, [mine]);
    PlainListIff(names, dropped);
    PlainListIff(UnionGlobs(names, [mine]), dropped);
    FilterOne(nic, NicIsKept(p));
    FilterOne(nic, NicIsKept(ApplyVeto(p, more)));
  }

  /** So does a config with one line for it. */
  lemma OnePatternCanWiden(p: Policy, mine: string, toNumber: HostConfig.NumberParser)
    requires ValidPolicy(p) && |p.exclude.nicNames| == GLOBS_MAX && NoRepeats(p.exclude.nicNames)
    requires AllPlain(p.exclude.nicNames) && Nics in p.collect
    requires ValidGlob(mine) && AllPlain([mine]) && mine !in p.exclude.nicNames
    ensures var effective := HostConfig.EffectivePolicy(p, map[HostConfig.ExcludeNics := mine], map[], toNumber);
            var nic := Nic(p.exclude.nicNames[GLOBS_MAX - 1], "");
            ApplyNicPolicy(p, [nic]) == Some([]) && ApplyNicPolicy(effective, [nic]) == Some([nic])
  {
    var effective := HostConfig.EffectivePolicy(p, map[HostConfig.ExcludeNics := mine], map[], toNumber);
    var more := NO_LIMITS.(exclude := Exclude([mine], [], []));
    var nic := Nic(p.exclude.nicNames[GLOBS_MAX - 1], "");
    HostConfig.OnePatternIsALimit(p, mine, toNumber);
    AddingAnExclusionCanWiden(p, mine);
    FilterOne(nic, NicIsKept(effective));
    FilterOne(nic, NicIsKept(ApplyVeto(p, more)));
  }

  /** Where the host's one pattern is `*`, patterns are dropped and every name without a `*` stays left out. */
  lemma AStarKeepsAllOut(server: seq<string>, name: string)
    requires '*' !in name
    ensures MatchesAny(UnionGlobs(server, ["*"]), name)
  {
    UnionKeepsTheHosts(server, ["*"]);
    assert Dedup(["*"]) == ["*"];
    assert "*" in UnionGlobs(server, ["*"]);
    StarMatches(name);
  }
}
