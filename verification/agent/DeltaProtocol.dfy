/**
 The agent, its two files and one server build as a state machine, run over any sequence of reports,
 losses, crashes, file damage, upgrades and rollbacks.
 */
module DeltaProtocol {
  import opened Options
  import opened Json
  import opened Text
  import opened SoftwareDelta
  import opened InfraReport
  import opened AgentPolicy
  import opened AgentFiles

  datatype World = World(version: Version, store: Store, stateFile: File<Json>, policyFile: File<PolicyDoc>)

  /**
   What became of one run's report. `Unsent`: the server never applied it. `AckLost`: the server applied
   it, and the agent failed or was killed before recording anything. `Acked`: the agent saw success;
   `parsed` says whether the body could be read, the other two whether each file write completed.
   */
  datatype Fate = Unsent | AckLost | Acked(parsed: bool, stateWritten: bool, policyWritten: bool)

  datatype Event =
    | Run(collection: Collection, facts: Facts, nowMs: real, served: Option<PolicyDoc>, fate: Fate)
    | LoseState | CorruptState | LosePolicy | CorruptPolicy
    | Upgrade | Rollback
    | RewriteStore(store: Store)

  /** The package cap of every policy keeps a collected list within the report schema's bound. */
  ghost predicate WellFormed(fp: Fingerprinter, e: Event) {
    match e
    case Run(collection, _, nowMs, _, _) =>
      nowMs > 0.0 && (collection.Reported? ==> |collection.software| <= SOFTWARE_LIST_MAX)
    case RewriteStore(store) => Consistent(fp, store)
    case _ => true
  }

  ghost predicate AllWellFormed(fp: Fingerprinter, es: seq<Event>) {
    forall e :: e in es ==> WellFormed(fp, e)
  }

  // ----- one run -----

  /** The report a run builds from what the state file says, and the fingerprint to keep if it lands. */
  function Outgoing(fp: Fingerprinter, s: AgentState, collection: Collection, facts: Facts)
    : (Option<Report>, Option<string>)
  {
    var (fields, cache) := SoftwareWireFields(fp, collection, s.softwareHash, s.softwareDelta);
    (ParseReport(Report(facts, fields.software, Some(fields.state), fields.hash)), cache)
  }

  /** What is remembered after an accepted report: nothing about a list the server asked to see again. */
  function Recorded(nowMs: real, cache: Option<string>, ack: Json): AgentState {
    AgentState(Some(nowMs),
               if Field(ack, "softwareResend") == Some(Bool(true)) then None else cache,
               ServerUnderstandsSoftwareDelta(ack))
  }

  /** The acknowledgement as the agent reads it; a body that does not parse reads as null. */
  function AckRead(fp: Fingerprinter, w: World, r: Report, parsed: bool): Json {
    if parsed then AckBody(fp, w.version, r, w.store) else Null
  }

  function PolicyRead(served: Option<PolicyDoc>, parsed: bool): Option<Policy> {
    if parsed && served.Some? then ParsePolicy(served.value) else None
  }

  function RunOnce(fp: Fingerprinter, w: World, e: Event): World
    requires e.Run?
  {
    var (sent, cache) := Outgoing(fp, LoadState(w.stateFile), e.collection, e.facts);
    if sent.None? || e.fate.Unsent? then w
    else
      var landed := w.(store := Ingest(fp, w.version, sent.value, w.store));
      if e.fate.AckLost? then landed
      else
        var state := Recorded(e.nowMs, cache, AckRead(fp, w, sent.value, e.fate.parsed));
        var policy := PolicyRead(e.served, e.fate.parsed);
        landed.(
          stateFile := if e.fate.stateWritten then Holds(EncodeState(state)) else w.stateFile,
          policyFile := if policy.Some? && e.fate.policyWritten then Holds(PolicyDoc(policy.value, true))
                        else w.policyFile)
  }

  function Step(fp: Fingerprinter, w: World, e: Event): World {
    match e
    case Run(_, _, _, _, _) => RunOnce(fp, w, e)
    case LoseState => w.(stateFile := Missing)
    case CorruptState => w.(stateFile := Garbage)
    case LosePolicy => w.(policyFile := Missing)
    case CorruptPolicy => w.(policyFile := Garbage)
    case Upgrade => w.(version := New)
    case Rollback => w.(version := Old)
    case RewriteStore(store) => w.(store := store)
  }

  function Steps(fp: Fingerprinter, w: World, es: seq<Event>): World {
    if es == [] then w else Step(fp, Steps(fp, w, es[..|es| - 1]), es[|es| - 1])
  }

  lemma StepsSnoc(fp: Fingerprinter, w: World, es: seq<Event>, e: Event)
    ensures Steps(fp, w, es + [e]) == Step(fp, Steps(fp, w, es), e)
  {
    assert (es + [e])[..|es + [e]| - 1] == es;
  }

  // ----- what every step keeps -----

  lemma {:induction false} AlwaysConsistent(fp: Fingerprinter, w: World, es: seq<Event>)
    requires Consistent(fp, w.store) && AllWellFormed(fp, es)
    ensures Consistent(fp, Steps(fp, w, es).store)
  {
    if es != [] {
      var init, e := es[..|es| - 1], es[|es| - 1];
      AlwaysConsistent(fp, w, init);
      assert e in es;
      var v := Steps(fp, w, init);
      if e.Run? {
        var (sent, _) := Outgoing(fp, LoadState(v.stateFile), e.collection, e.facts);
        if sent.Some? {
          IngestKeepsConsistent(fp, v.version, sent.value, v.store);
        }
      }
    }
  }

  /** A report that was rejected, lost, or never recorded leaves what the agent remembers as it was. */
  lemma OnlyRecordedReportsAreRemembered(fp: Fingerprinter, w: World, e: Event)
    requires e.Run? && !(e.fate.Acked? && e.fate.stateWritten)
    ensures Step(fp, w, e).stateFile == w.stateFile
    ensures !e.fate.Acked? ==> Step(fp, w, e).policyFile == w.policyFile
  {
  }

  // ----- the policy in force -----

  /** The report was accepted, and its answer was read, carried a policy the schema accepts, and was written out. */
  ghost predicate Adopts(fp: Fingerprinter, w: World, e: Event) {
    && e.Run? && Outgoing(fp, LoadState(w.stateFile), e.collection, e.facts).0.Some?
    && e.fate.Acked? && e.fate.parsed && e.fate.policyWritten
    && e.served.Some? && ParsePolicy(e.served.value).Some?
  }

  ghost predicate DamagesPolicy(e: Event) {
    e.LosePolicy? || e.CorruptPolicy?
  }

  lemma AdoptedIsLoaded(fp: Fingerprinter, w: World, e: Event)
    requires Adopts(fp, w, e)
    ensures ParsePolicy(e.served.value) == Some(LoadCachedPolicy(Step(fp, w, e).policyFile))
  {
    PolicyRoundTrip(e.served.value);
    assert Step(fp, w, e).policyFile == Holds(PolicyDoc(ParsePolicy(e.served.value).value, true));
  }

  lemma OtherRunsKeepThePolicy(fp: Fingerprinter, w: World, e: Event)
    requires e.Run? && !Adopts(fp, w, e)
    ensures Step(fp, w, e).policyFile == w.policyFile
  {
  }

  /** One step: such a run leaves the policy it was served, damage leaves the default, all else what was there. */
  lemma AdoptedByOneStep(fp: Fingerprinter, w: World, e: Event)
    ensures var before, after := LoadCachedPolicy(w.policyFile), LoadCachedPolicy(Step(fp, w, e).policyFile);
            && (Adopts(fp, w, e) ==> ParsePolicy(e.served.value) == Some(after))
            && (DamagesPolicy(e) ==> after == DEFAULT)
            && (!Adopts(fp, w, e) && !DamagesPolicy(e) ==> after == before)
  {
    if Adopts(fp, w, e) {
      AdoptedIsLoaded(fp, w, e);
    } else if e.Run? {
      OtherRunsKeepThePolicy(fp, w, e);
    }
  }

  /** From `es[k]` on, no run leaves a policy and nothing damages the file. */
  ghost predicate PolicyUntouchedFrom(fp: Fingerprinter, w: World, es: seq<Event>, k: nat) {
    forall j :: k <= j < |es| ==> !Adopts(fp, Steps(fp, w, es[..j]), es[j]) && !DamagesPolicy(es[j])
  }

  lemma {:induction false} PolicyStays(fp: Fingerprinter, w: World, es: seq<Event>, k: nat)
    requires k <= |es| && PolicyUntouchedFrom(fp, w, es, k)
    ensures LoadCachedPolicy(Steps(fp, w, es).policyFile) == LoadCachedPolicy(Steps(fp, w, es[..k]).policyFile)
  {
    if k == |es| {
      assert es[..k] == es;
    } else {
      var init, e := es[..|es| - 1], es[|es| - 1];
      forall j | k <= j < |init| ensures !Adopts(fp, Steps(fp, w, init[..j]), init[j]) && !DamagesPolicy(init[j]) {
        assert init[..j] == es[..j] && init[j] == es[j];
      }
      PolicyStays(fp, w, init, k);
      assert init[..k] == es[..k];
      AdoptedByOneStep(fp, Steps(fp, w, init), e);
    }
  }

  /**
   After any history the next run starts from what the last run that left a policy was served, if the file was
   not damaged since, and from the default, if it was. `PolicyStays` is the case that neither ever happened.
   */
  lemma PolicyInForce(fp: Fingerprinter, w: World, es: seq<Event>, k: nat)
    requires k < |es| && PolicyUntouchedFrom(fp, w, es, k + 1)
    ensures var loaded := LoadCachedPolicy(Steps(fp, w, es).policyFile);
            && (Adopts(fp, Steps(fp, w, es[..k]), es[k]) ==> ParsePolicy(es[k].served.value) == Some(loaded))
            && (DamagesPolicy(es[k]) ==> loaded == DEFAULT)
  {
    PolicyStays(fp, w, es, k + 1);
    StepsSnoc(fp, w, es[..k], es[k]);
    assert es[..k + 1] == es[..k] + [es[k]];
    AdoptedByOneStep(fp, Steps(fp, w, es[..k]), es[k]);
  }

  // ----- self-stabilisation -----

  ghost predicate Collected(e: Event) {
    e.Run? && e.collection.Reported?
  }

  /** The server applied this run's report. */
  ghost predicate Landed(e: Event) {
    e.Run? && !e.fate.Unsent?
  }

  /** The server applied it and the agent recorded it, readable acknowledgement or not. */
  ghost predicate LandedAndRecorded(e: Event) {
    e.Run? && e.fate.Acked? && e.fate.stateWritten
  }

  /** After one recorded report of a list, the next list collected is either corroborable or sent. */
  ghost predicate Trustworthy(fp: Fingerprinter, w: World) {
    var s := LoadState(w.stateFile);
    s.softwareDelta && s.softwareHash.Some? ==> w.version.New? && Describes(fp, s.softwareHash.value, w.store)
  }

  lemma RecordedListMakesTrustworthy(fp: Fingerprinter, w: World, e: Event)
    requires Consistent(fp, w.store) && WellFormed(fp, e)
    requires Collected(e) && LandedAndRecorded(e)
    ensures Trustworthy(fp, Step(fp, w, e))
    ensures Step(fp, w, e).version == w.version
  {
    var (sent, cache) := Outgoing(fp, LoadState(w.stateFile), e.collection, e.facts);
    var r := sent.value;
    StateRoundTrip(w.stateFile, Recorded(e.nowMs, cache, AckRead(fp, w, r, e.fate.parsed)));
    AckSays(fp, w.version, r, w.store);
    if w.version.New? {
      TrimKeepsTrimmed(fp(e.collection.software));
      NotAskedAgain(fp, r, w.store, e.collection.software);
    }
  }

  /** A report about a list to the current build: it describes the list afterwards, or asks for it. */
  lemma NotAskedAgain(fp: Fingerprinter, r: Report, store: Store, list: Software)
    requires Consistent(fp, store)
    requires if r.software.Some? then r.software.value == list
             else r.state == Some(SaysUnchanged) && (r.hash.Some? ==> r.hash.value == fp(list))
    ensures IngestNew(fp, r, store).1 || Describes(fp, fp(list), IngestNew(fp, r, store).0)
  {
    NewServerObeysTheDirective(fp, r, store);
    if r.software.None? {
      ResendIffUncorroborated(fp, r, store);
    }
  }

  lemma TrustworthyReportLands(fp: Fingerprinter, w: World, e: Event)
    requires Consistent(fp, w.store) && WellFormed(fp, e) && Trustworthy(fp, w)
    requires Collected(e) && Landed(e)
    ensures StoresList(fp, e.collection.software, Step(fp, w, e).store)
  {
    var s := LoadState(w.stateFile);
    var (sent, cache) := Outgoing(fp, s, e.collection, e.facts);
    if w.version.New? {
      NewServerObeysTheDirective(fp, sent.value, w.store);
    }
  }

  /**
   From any agent memory and any consistent store, after any history: two consecutive reports with a
   collected list, the first recorded and the second applied, leave the server holding the second list,
   whichever build it runs and whether or not the first acknowledgement could be read.
   */
  lemma TwoReportsHeal(fp: Fingerprinter, w: World, history: seq<Event>, first: Event, second: Event)
    requires Consistent(fp, w.store)
    requires AllWellFormed(fp, history) && WellFormed(fp, first) && WellFormed(fp, second)
    requires Collected(first) && LandedAndRecorded(first)
    requires Collected(second) && Landed(second)
    ensures StoresList(fp, second.collection.software, Steps(fp, w, history + [first, second]).store)
  {
    AlwaysConsistent(fp, w, history);
    var before := Steps(fp, w, history);
    RecordedListMakesTrustworthy(fp, before, first);
    StepsSnoc(fp, w, history, first);
    var mid := Steps(fp, w, history + [first]);
    assert AllWellFormed(fp, history + [first]);
    AlwaysConsistent(fp, w, history + [first]);
    TrustworthyReportLands(fp, mid, second);
    StepsSnoc(fp, w, history + [first], second);
    assert history + [first, second] == (history + [first]) + [second];
  }

  lemma DivergenceIsAnswered(fp: Fingerprinter, w: World, e: Event)
    requires Consistent(fp, w.store) && WellFormed(fp, e) && w.version.New?
    requires Collected(e) && Landed(e)
    ensures
      var r := Outgoing(fp, LoadState(w.stateFile), e.collection, e.facts).0.value;
      StoresList(fp, e.collection.software, Step(fp, w, e).store)
      || Field(AckBody(fp, New, r, w.store), "softwareResend") == Some(Bool(true))
  {
    var r := Outgoing(fp, LoadState(w.stateFile), e.collection, e.facts).0.value;
    TrimKeepsTrimmed(fp(e.collection.software));
    NotAskedAgain(fp, r, w.store, e.collection.software);
    AckSays(fp, New, r, w.store);
  }

  /** Where the current build ends up without the list just collected, its answer asks for that list. */
  lemma DivergenceIsAlwaysDetected(fp: Fingerprinter, w: World, history: seq<Event>, e: Event)
    requires Consistent(fp, w.store) && AllWellFormed(fp, history) && WellFormed(fp, e)
    requires Steps(fp, w, history).version.New?
    requires Collected(e) && Landed(e)
    ensures
      var before := Steps(fp, w, history);
      var r := Outgoing(fp, LoadState(before.stateFile), e.collection, e.facts).0.value;
      StoresList(fp, e.collection.software, Step(fp, before, e).store)
      || Field(AckBody(fp, New, r, before.store), "softwareResend") == Some(Bool(true))
  {
    AlwaysConsistent(fp, w, history);
    DivergenceIsAnswered(fp, Steps(fp, w, history), e);
  }
}
