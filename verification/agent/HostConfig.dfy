/**
 How the host's config file and environment become the limits the veto applies. `toNumber` stands for
 the language's own number parsing: `None` is anything that is not an integer.
 */
module HostConfig {
  import opened Options
  import opened Text
  import opened Splitting
  import opened AgentPolicy
  import ConfigFile

  /** The names a config file or an environment can set; `Collect(Nics)` is LAZYIT_COLLECT_NICS, and so on. */
  datatype Setting =
    | Collect(collector: Collector)
    | MinInterval
    | MaxSoftware
    | ExcludeNics
    | ExcludeMountpoints
    | ExcludeSoftware
    | Unrelated(name: string)

  function SettingName(k: Setting): string {
    match k
    case Collect(Hardware) => "LAZYIT_COLLECT_HARDWARE"
    case Collect(Disks) => "LAZYIT_COLLECT_DISKS"
    case Collect(Nics) => "LAZYIT_COLLECT_NICS"
    case Collect(Software) => "LAZYIT_COLLECT_SOFTWARE"
    case Collect(Containers) => "LAZYIT_COLLECT_CONTAINERS"
    case Collect(Hypervisor) => "LAZYIT_COLLECT_HYPERVISOR"
    case MinInterval => "LAZYIT_MIN_INTERVAL"
    case MaxSoftware => "LAZYIT_SOFTWARE_MAX"
    case ExcludeNics => "LAZYIT_EXCLUDE_NICS"
    case ExcludeMountpoints => "LAZYIT_EXCLUDE_MOUNTPOINTS"
    case ExcludeSoftware => "LAZYIT_EXCLUDE_SOFTWARE"
    case Unrelated(name) => name
  }

  type Settings = map<Setting, string>
  type NumberParser = string -> Option<int>

  /** The settings that reach the limits from the environment alone: every limit but one. */
  const LOCAL_LIMIT_KEYS: set<Setting> := {
    Collect(Hardware), Collect(Disks), Collect(Nics), Collect(Software), Collect(Containers),
    MinInterval, MaxSoftware, ExcludeNics, ExcludeMountpoints, ExcludeSoftware}

  /** The settings that say anything about the limits. */
  const LIMIT_SETTINGS: set<Setting> := LOCAL_LIMIT_KEYS + {Collect(Hypervisor)}

  /** What the last line for `name` says. */
  function InFile(file: Option<string>, name: string): Option<string> {
    if file.None? then None else ConfigFile.LastFor(Split(file.value, '\n'), name)
  }

  function FromText(file: Option<string>, k: Setting): Option<string> {
    InFile(file, SettingName(k))
  }

  function FileSettings(file: Option<string>): Settings {
    map k | k in LIMIT_SETTINGS && FromText(file, k).Some? :: FromText(file, k).value
  }

  method ReadSettings(file: Option<string>) returns (settings: Settings)
    ensures settings == FileSettings(file)
  {
    var named := ConfigFile.ReadConfigFile(file);
    assert forall k :: FromText(file, k) == if SettingName(k) in named then Some(named[SettingName(k)]) else None;
    settings := map k | k in LIMIT_SETTINGS && SettingName(k) in named :: named[SettingName(k)];
  }

  // ----- the environment wins over the file, for the keys it is read for -----

  function ValueOf(settings: Settings, key: Setting): Option<string> {
    if key in settings then Some(settings[key]) else None
  }

  function LimitSource(file: Settings, env: Settings): Settings {
    map k | k in file.Keys + env.Keys && (k in file || k in LOCAL_LIMIT_KEYS)
      :: if k in env then env[k] else file[k]
  }

  /** Overwrites, one key at a time, whatever the environment sets among `keys`. */
  method Override(source: Settings, keys: set<Setting>, env: Settings) returns (result: Settings)
    ensures result.Keys == source.Keys + (keys * env.Keys)
    ensures forall k :: k in result ==> result[k] == if k in keys && k in env then env[k] else source[k]
  {
    result := source;
    var left := keys;
    while left != {}
      invariant left <= keys
      invariant result.Keys == source.Keys + ((keys - left) * env.Keys)
      invariant forall k :: k in result ==> result[k] == if k in keys - left && k in env then env[k] else source[k]
      decreases |left|
    {
      var key :| key in left;
      if key in env {
        result := result[key := env[key]];
      }
      left := left - {key};
    }
  }

  method BuildLimitSource(file: Settings, env: Settings) returns (source: Settings)
    ensures source == LimitSource(file, env)
  {
    var named := Override(file, file.Keys, env);
    source := Override(named, LOCAL_LIMIT_KEYS, env);
  }

  // ----- reading limits out of the resolved settings -----

  predicate IsFalse(value: Option<string>) {
    value.Some? && ToLower(Trim(value.value)) in {"false", "0", "no", "off"}
  }

  function PositiveInt(value: Option<string>, toNumber: NumberParser): Option<int> {
    if value.None? then None
    else
      var n := toNumber(Trim(value.value));
      if n.Some? && n.value > 0 then n else None
  }

  function KeepGlobs(gs: seq<string>): (kept: seq<string>)
    ensures forall g :: g in kept <==> g in gs && ValidGlob(g)
  {
    if gs == [] then []
    else if ValidGlob(gs[0]) then [gs[0]] + KeepGlobs(gs[1..])
    else KeepGlobs(gs[1..])
  }

  function GlobList(value: Option<string>): seq<string> {
    if value.None? then [] else KeepGlobs(TrimAll(Split(value.value, ',')))
  }

  /** Every collector, in the order of the policy schema. */
  const COLLECTORS: seq<Collector> := [Hardware, Disks, Nics, Software, Containers, Hypervisor]

  function CollectLimits(settings: Settings): map<Collector, bool> {
    map k | k in COLLECTORS && IsFalse(ValueOf(settings, Collect(k))) :: false
  }

  function LocalLimits(settings: Settings, toNumber: NumberParser): Limits {
    Limits(CollectLimits(settings),
           PositiveInt(ValueOf(settings, MinInterval), toNumber),
           PositiveInt(ValueOf(settings, MaxSoftware), toNumber),
           Exclude(GlobList(ValueOf(settings, ExcludeNics)),
                   GlobList(ValueOf(settings, ExcludeMountpoints)),
                   GlobList(ValueOf(settings, ExcludeSoftware))))
  }

  /** Records a veto for each listed collector whose setting reads as a "no". */
  method CollectVetoes(keys: seq<Collector>, settings: Settings) returns (collect: map<Collector, bool>)
    ensures collect == map k | k in keys && IsFalse(ValueOf(settings, Collect(k))) :: false
  {
    collect := map[];
    for i := 0 to |keys|
      invariant collect == map k | k in keys[..i] && IsFalse(ValueOf(settings, Collect(k))) :: false
    {
      var field := keys[i];
      assert keys[..i + 1] == keys[..i] + [field];
      if IsFalse(ValueOf(settings, Collect(field))) {
        collect := collect[field := false];
      }
    }
    assert keys[..|keys|] == keys;
  }

  method LocalLimitsFrom(settings: Settings, toNumber: NumberParser) returns (limits: Limits)
    ensures limits == LocalLimits(settings, toNumber)
  {
    var collect := CollectVetoes(COLLECTORS, settings);
    limits := Limits(collect,
      PositiveInt(ValueOf(settings, MinInterval), toNumber),
      PositiveInt(ValueOf(settings, MaxSoftware), toNumber),
      Exclude(GlobList(ValueOf(settings, ExcludeNics)),
              GlobList(ValueOf(settings, ExcludeMountpoints)),
              GlobList(ValueOf(settings, ExcludeSoftware))));
  }

  /** The limits this host puts on whatever policy it is given. */
  function HostLimits(file: Settings, env: Settings, toNumber: NumberParser): Limits {
    LocalLimits(LimitSource(file, env), toNumber)
  }

  lemma EveryCollectorIsListed(k: Collector)
    ensures k in COLLECTORS
  {
    assert COLLECTORS[0] == Hardware && COLLECTORS[1] == Disks && COLLECTORS[2] == Nics;
    assert COLLECTORS[3] == Software && COLLECTORS[4] == Containers && COLLECTORS[5] == Hypervisor;
  }

  lemma HypervisorIsNotRead(k: Collector)
    ensures Collect(k) in LOCAL_LIMIT_KEYS <==> k != Hypervisor
  {
  }

  // ----- what the limits are, line by line and variable by variable -----

  /** The variable, and without one the line; but the hypervisor's variable is only read where there is a line. */
  function Configured(file: Option<string>, env: Settings, k: Setting, name: string): Option<string> {
    if k in env && (k != Collect(Hypervisor) || InFile(file, name).Some?) then Some(env[k]) else InFile(file, name)
  }

  lemma ConfiguredIs(file: Option<string>, env: Settings, k: Setting)
    requires !k.Unrelated?
    ensures ValueOf(LimitSource(FileSettings(file), env), k) == Configured(file, env, k, SettingName(k))
  {
    assert k in LIMIT_SETTINGS && (k in LOCAL_LIMIT_KEYS <==> k != Collect(Hypervisor)) by {
      if k.Collect? {
        HypervisorIsNotRead(k.collector);
      }
    }
  }

  predicate SaysNumber(value: Option<string>, toNumber: NumberParser, n: int) {
    value.Some? && toNumber(Trim(value.value)) == Some(n) && n > 0
  }

  /** The floor and the cap come each from its own setting, and only a positive integer is one. */
  lemma NumbersMean(file: Option<string>, env: Settings, toNumber: NumberParser, n: int)
    ensures HostLimits(FileSettings(file), env, toNumber).minIntervalSeconds == Some(n)
      <==> SaysNumber(Configured(file, env, MinInterval, "LAZYIT_MIN_INTERVAL"), toNumber, n)
    ensures HostLimits(FileSettings(file), env, toNumber).softwareMax == Some(n)
      <==> SaysNumber(Configured(file, env, MaxSoftware, "LAZYIT_SOFTWARE_MAX"), toNumber, n)
  {
    ConfiguredIs(file, env, MinInterval);
    ConfiguredIs(file, env, MaxSoftware);
  }

  /** `g` stands between two commas of the value, perhaps with white space around it, and is a pattern. */
  predicate Lists(value: Option<string>, g: string) {
    value.Some? && ValidGlob(g) && exists part :: part in Split(value.value, ',') && Trim(part) == g
  }

  /** Every pattern of a list is one of those. */
  lemma GlobListIs(value: Option<string>, g: string)
    ensures g in GlobList(value) <==> Lists(value, g)
  {
    if value.Some? {
      var parts := Split(value.value, ',');
      if part :| part in parts && Trim(part) == g {
        var i :| 0 <= i < |parts| && parts[i] == part;
        assert TrimAll(parts)[i] == g;
      }
      if g in TrimAll(parts) {
        var i :| 0 <= i < |parts| && TrimAll(parts)[i] == g;
        assert parts[i] in parts;
      }
    }
  }

  /** Each list of patterns comes from its own setting. */
  lemma PatternsMean(file: Option<string>, env: Settings, toNumber: NumberParser)
    ensures HostLimits(FileSettings(file), env, toNumber).exclude.nicNames
      == GlobList(Configured(file, env, ExcludeNics, SettingName(ExcludeNics)))
    ensures HostLimits(FileSettings(file), env, toNumber).exclude.mountpoints
      == GlobList(Configured(file, env, ExcludeMountpoints, SettingName(ExcludeMountpoints)))
    ensures HostLimits(FileSettings(file), env, toNumber).exclude.softwareNames
      == GlobList(Configured(file, env, ExcludeSoftware, SettingName(ExcludeSoftware)))
  {
    ConfiguredIs(file, env, ExcludeNics);
    ConfiguredIs(file, env, ExcludeMountpoints);
    ConfiguredIs(file, env, ExcludeSoftware);
  }

  /** The patterns stay in the order they are written in, each as often as it is written. */
  lemma {:induction false} PatternsStayInOrder(a: seq<string>, b: seq<string>)
    ensures KeepGlobs(a + b) == KeepGlobs(a) + KeepGlobs(b)
    ensures forall g :: KeepGlobs([g]) == if ValidGlob(g) then [g] else []
  {
    if a == [] {
      assert a + b == b;
    } else {
      PatternsStayInOrder(a[1..], b);
      TailOfConcat(a, b);
    }
  }

  function CollectorName(k: Collector): string {
    match k
    case Hardware => "HARDWARE"
    case Disks => "DISKS"
    case Nics => "NICS"
    case Software => "SOFTWARE"
    case Containers => "CONTAINERS"
    case Hypervisor => "HYPERVISOR"
  }

  lemma SettingOfCollector(k: Collector)
    ensures SettingName(Collect(k)) == "LAZYIT_COLLECT_" + CollectorName(k)
  {
  }

  /** No two settings share a name. */
  lemma SettingNamesDiffer(k: Setting, l: Setting)
    requires !k.Unrelated? && !l.Unrelated? && SettingName(k) == SettingName(l)
    ensures k == l
  {
  }

  predicate SaysNo(value: Option<string>) {
    value.Some? && var word := ToLower(Trim(value.value));
                   word == "false" || word == "0" || word == "no" || word == "off"
  }

  /** A collector is vetoed exactly where its own setting reads as one of four words, in any case; none is forced on. */
  lemma VetoesMean(file: Option<string>, env: Settings, toNumber: NumberParser, k: Collector)
    ensures var collect := HostLimits(FileSettings(file), env, toNumber).collect;
            && (k in collect <==> SaysNo(Configured(file, env, Collect(k), "LAZYIT_COLLECT_" + CollectorName(k))))
            && (k in collect ==> !collect[k])
  {
    ConfiguredIs(file, env, Collect(k));
    SettingOfCollector(k);
    EveryCollectorIsListed(k);
    SaysNoIsFalse(ValueOf(LimitSource(FileSettings(file), env), Collect(k)));
  }

  lemma SaysNoIsFalse(value: Option<string>)
    ensures SaysNo(value) <==> IsFalse(value)
  {
  }

  /** The policy a run applies: the server's, narrowed by whatever this host refuses. */
  function EffectivePolicy(p: Policy, file: Settings, env: Settings, toNumber: NumberParser): Policy {
    ApplyVeto(p, HostLimits(file, env, toNumber))
  }

  /**
   No file and no environment can make a run use a collector the server turned off, report more often or send
   more packages; and the server's patterns all stay if and only if the host's leave them room.
   */
  lemma ConfigOnlyNarrows(p: Policy, file: Settings, env: Settings, toNumber: NumberParser)
    requires ValidPolicy(p)
    ensures var limits, effective := HostLimits(file, env, toNumber), EffectivePolicy(p, file, env, toNumber);
            && NoLooser(effective, p) && ValidPolicy(effective)
            && (Narrower(effective, p) <==> ExcludeSurvives(p.exclude, NO_LIMITS.exclude, limits.exclude))
  {
    var limits := HostLimits(file, env, toNumber);
    VetoOnlyNarrows(p, limits);
    VetoKeepsPolicyValid(p, limits);
  }

  /** And what it narrows to is the widest policy that obeys the configured limits. */
  lemma EffectivePolicyIsTheMeet(p: Policy, file: Settings, env: Settings, toNumber: NumberParser, q: Policy)
    requires ValidPolicy(p)
    ensures var effective := EffectivePolicy(p, file, env, toNumber);
            && (NoLooser(q, effective) <==> NoLooser(q, p) && Obeys(q, HostLimits(file, env, toNumber)))
            && effective == p.(intervalSeconds := effective.intervalSeconds, softwareMax := effective.softwareMax,
                               collect := effective.collect, exclude := effective.exclude)
  {
    VetoIsTheMeet(p, HostLimits(file, env, toNumber), q);
  }

  /** A host configured more strictly reports no more, with the same exception. */
  lemma StricterConfigNarrowsFurther(
      p: Policy, file: Settings, env: Settings, newFile: Settings, newEnv: Settings, toNumber: NumberParser)
    requires ValidPolicy(p)
    requires Stricter(HostLimits(newFile, newEnv, toNumber), HostLimits(file, env, toNumber))
    ensures var less, more := HostLimits(file, env, toNumber), HostLimits(newFile, newEnv, toNumber);
            var was, now := EffectivePolicy(p, file, env, toNumber), EffectivePolicy(p, newFile, newEnv, toNumber);
            && NoLooser(now, was)
            && (Narrower(now, was) <==> ExcludeSurvives(p.exclude, less.exclude, more.exclude))
  {
    StricterLimitsNarrowFurther(p, HostLimits(file, env, toNumber), HostLimits(newFile, newEnv, toNumber));
  }

  /** What one valid pattern in the config comes to. */
  lemma OnePatternIsALimit(p: Policy, mine: string, toNumber: NumberParser)
    requires ValidGlob(mine)
    ensures var more := NO_LIMITS.(exclude := Exclude([mine], [], []));
            EffectivePolicy(p, map[ExcludeNics := mine], map[], toNumber) == ApplyVeto(p, more)
  {
    var file: Settings := map[ExcludeNics := mine];
    assert LimitSource(file, map[]) == file;
    SplitWhole(mine, ',');
    ValidGlobIsTrimmed(mine);
    assert TrimAll([mine]) == [mine] && KeepGlobs([mine]) == [mine];
    assert CollectLimits(file) == map[];
  }

  /** The exception at a config that can be written: one valid pattern, and a server list that is full. */
  lemma OnePatternCanDropOne(p: Policy, mine: string, toNumber: NumberParser)
    requires ValidPolicy(p) && |p.exclude.nicNames| == GLOBS_MAX && NoRepeats(p.exclude.nicNames)
    requires ValidGlob(mine) && mine !in p.exclude.nicNames
    ensures var effective := EffectivePolicy(p, map[ExcludeNics := mine], map[], toNumber);
            ValidPolicy(effective) && !ExcludesAll(p.exclude, effective.exclude)
  {
    OnePatternIsALimit(p, mine, toNumber);
    ConfigOnlyNarrows(p, map[ExcludeNics := mine], map[], toNumber);
    CapCanDropAServerExclusion(p.exclude.nicNames, mine);
    assert p.exclude.nicNames[GLOBS_MAX - 1] in p.exclude.nicNames;
  }

  /** A collector runs exactly when the server left it on and the value this host resolves is not a "no". */
  lemma CollectorRunsIff(p: Policy, file: Settings, env: Settings, toNumber: NumberParser, k: Collector)
    ensures k in EffectivePolicy(p, file, env, toNumber).collect
            <==> k in p.collect && !IsFalse(ValueOf(LimitSource(file, env), Collect(k)))
  {
    EveryCollectorIsListed(k);
  }

  /** For every config text: unless the environment says otherwise, the last line for a collector decides its veto. */
  lemma LastLineDecides(p: Policy, file: Option<string>, env: Settings, toNumber: NumberParser, k: Collector)
    requires Collect(k) !in env
    ensures k in EffectivePolicy(p, FileSettings(file), env, toNumber).collect
            <==> k in p.collect && !IsFalse(FromText(file, Collect(k)))
  {
    CollectorRunsIff(p, FileSettings(file), env, toNumber, k);
    HypervisorIsNotRead(k);
  }

  /**
   A "no" in the environment alone turns a collector off for every collector but the hypervisor one,
   whose key is missing from the list of keys read from the environment.
   */
  lemma EnvironmentVetoReachesIff(p: Policy, file: Settings, env: Settings, toNumber: NumberParser, k: Collector)
    requires k in p.collect && IsFalse(ValueOf(env, Collect(k)))
    requires Collect(k) !in file
    ensures k !in EffectivePolicy(p, file, env, toNumber).collect <==> k != Hypervisor
  {
    CollectorRunsIff(p, file, env, toNumber, k);
    HypervisorIsNotRead(k);
  }
}
