/**
 The delta refines the protocol that always sends the whole list: against a server on the current build,
 as long as every applied report is recorded, both leave the server holding the same inventory.
 */
module DeltaRefinement {
  import opened Options
  import opened Text
  import opened SoftwareDelta
  import opened InfraReport
  import opened AgentFiles
  import opened DeltaProtocol

  /** A run whose report never landed, or landed and was recorded; or damage to the agent's own files. */
  ghost predicate Orderly(e: Event) {
    match e
    case Run(_, _, _, _, _) => !Landed(e) || LandedAndRecorded(e)
    case LoseState => true
    case CorruptState => true
    case LosePolicy => true
    case CorruptPolicy => true
    case _ => false
  }

  ghost predicate AllOrderly(fp: Fingerprinter, es: seq<Event>) {
    forall e :: e in es ==> Orderly(e) && WellFormed(fp, e)
  }

  // ----- the reference: an agent with no memory, which sends whatever it collected -----

  function FullReport(fp: Fingerprinter, collection: Collection, facts: Facts): Option<Report> {
    match collection
    case Reported(software) => ParseReport(Report(facts, Some(software), Some(SaysReported), Some(fp(software))))
    case Unavailable => ParseReport(Report(facts, None, Some(SaysUnavailable), None))
    case Disabled => ParseReport(Report(facts, None, Some(SaysDisabled), None))
  }

  function FullStep(fp: Fingerprinter, store: Store, e: Event): Store {
    if !e.Run? || e.fate.Unsent? then store
    else
      var sent := FullReport(fp, e.collection, e.facts);
      if sent.None? then store else IngestNew(fp, sent.value, store).0
  }

  function FullSteps(fp: Fingerprinter, store: Store, es: seq<Event>): Store {
    if es == [] then store else FullStep(fp, FullSteps(fp, store, es[..|es| - 1]), es[|es| - 1])
  }

  // ----- the relation between the two stores -----

  /** The same answer to "what is installed": lists the fingerprint does not tell apart are one answer. */
  ghost predicate SameSoftware(fp: Fingerprinter, a: StoredSoftware, b: StoredSoftware) {
    match (a, b)
    case (NoKey, NoKey) => true
    case (NotAList, NotAList) => true
    case (Packages(k), Packages(l)) => fp(k) == fp(l)
    case _ => false
  }

  ghost predicate SameStore(fp: Fingerprinter, a: Store, b: Store) {
    match (a, b)
    case (NoNode, NoNode) => true
    case (Node(None), Node(None)) => true
    case (Node(Some(s)), Node(Some(t))) =>
      s.facts == t.facts && s.hash == t.hash && SameSoftware(fp, s.software, t.software)
    case _ => false
  }

  /** The inductive invariant: a remembered fingerprint describes what the server holds. */
  ghost predicate MemoryIsTrue(fp: Fingerprinter, w: World) {
    var s := LoadState(w.stateFile);
    s.softwareHash.Some? ==> Describes(fp, s.softwareHash.value, w.store)
  }

  /** Both servers are on the current build and hold the same inventory. */
  ghost predicate Alike(fp: Fingerprinter, w: World, full: Store) {
    w.version.New? && Consistent(fp, w.store) && Consistent(fp, full) && SameStore(fp, w.store, full)
  }

  ghost predicate Simulates(fp: Fingerprinter, w: World, full: Store) {
    Alike(fp, w, full) && MemoryIsTrue(fp, w)
  }

  lemma SameEffectOfList(fp: Fingerprinter, w: World, full: Store, e: Event)
    requires Simulates(fp, w, full) && e.Run? && WellFormed(fp, e) && e.collection.Reported?
    ensures
      var sent := Outgoing(fp, LoadState(w.stateFile), e.collection, e.facts).0;
      var whole := FullReport(fp, e.collection, e.facts);
      && sent.Some? && whole.Some?
      && SameStore(fp, IngestNew(fp, sent.value, w.store).0, IngestNew(fp, whole.value, full).0)
  {
  }

  lemma SameEffectOfNone(fp: Fingerprinter, w: World, full: Store, e: Event)
    requires Alike(fp, w, full) && e.Run? && WellFormed(fp, e) && !e.collection.Reported?
    ensures
      var sent := Outgoing(fp, LoadState(w.stateFile), e.collection, e.facts).0;
      var whole := FullReport(fp, e.collection, e.facts);
      && sent.Some? && whole.Some?
      && SameStore(fp, IngestNew(fp, sent.value, w.store).0, IngestNew(fp, whole.value, full).0)
  {
  }

  /** The delta's report and the full report write the same thing. */
  lemma SameEffect(fp: Fingerprinter, w: World, full: Store, e: Event)
    requires Simulates(fp, w, full) && e.Run? && WellFormed(fp, e)
    ensures
      var sent := Outgoing(fp, LoadState(w.stateFile), e.collection, e.facts).0;
      var whole := FullReport(fp, e.collection, e.facts);
      && sent.Some? && whole.Some?
      && SameStore(fp, IngestNew(fp, sent.value, w.store).0, IngestNew(fp, whole.value, full).0)
  {
    match e.collection
    case Reported(_) => SameEffectOfList(fp, w, full, e);
    case Unavailable => SameEffectOfNone(fp, w, full, e);
    case Disabled => SameEffectOfNone(fp, w, full, e);
  }

  lemma RecordedMemoryIsTrue(fp: Fingerprinter, w: World, full: Store, e: Event)
    requires Simulates(fp, w, full) && WellFormed(fp, e) && LandedAndRecorded(e)
    ensures MemoryIsTrue(fp, Step(fp, w, e))
  {
    var (sent, cache) := Outgoing(fp, LoadState(w.stateFile), e.collection, e.facts);
    var r := sent.value;
    StateRoundTrip(w.stateFile, Recorded(e.nowMs, cache, AckRead(fp, w, r, e.fate.parsed)));
    NewServerObeysTheDirective(fp, r, w.store);
  }

  lemma StepSimulates(fp: Fingerprinter, w: World, full: Store, e: Event)
    requires Simulates(fp, w, full) && Orderly(e) && WellFormed(fp, e)
    ensures Simulates(fp, Step(fp, w, e), FullStep(fp, full, e))
  {
    if Landed(e) {
      SameEffect(fp, w, full, e);
      RecordedMemoryIsTrue(fp, w, full, e);
      IngestKeepsConsistent(fp, New, Outgoing(fp, LoadState(w.stateFile), e.collection, e.facts).0.value, w.store);
      IngestKeepsConsistent(fp, New, FullReport(fp, e.collection, e.facts).value, full);
    }
  }

  /** After every step of every orderly run, the delta's server stores what the full protocol's stores. */
  lemma {:induction false} DeltaRefinesFullReports(fp: Fingerprinter, w: World, full: Store, es: seq<Event>)
    requires Simulates(fp, w, full) && AllOrderly(fp, es)
    ensures Simulates(fp, Steps(fp, w, es), FullSteps(fp, full, es))
  {
    if es != [] {
      var init, e := es[..|es| - 1], es[|es| - 1];
      DeltaRefinesFullReports(fp, w, full, init);
      assert e in es;
      StepSimulates(fp, Steps(fp, w, init), FullSteps(fp, full, init), e);
    }
  }

  /** An agent with no readable memory starts every such run correctly, whatever the server holds. */
  lemma FreshAgentsRefine(fp: Fingerprinter, w: World, es: seq<Event>)
    requires w.version.New? && Consistent(fp, w.store) && !w.stateFile.Holds?
    requires AllOrderly(fp, es)
    ensures SameStore(fp, Steps(fp, w, es).store, FullSteps(fp, w.store, es))
  {
    DeltaRefinesFullReports(fp, w, w.store, es);
  }

  // ----- one report that the server applied and the agent did not record -----

  /** The run will say `unchanged`: the server has proved it understands, and the list is the remembered one. */
  predicate Omits(fp: Fingerprinter, s: AgentState, e: Event) {
    e.Run? && e.collection.Reported? && s.softwareDelta && s.softwareHash == Some(fp(e.collection.software))
  }

  lemma UnrecordedStep(fp: Fingerprinter, w: World, full: Store, lost: Event)
    requires Simulates(fp, w, full) && WellFormed(fp, lost) && Landed(lost) && !LandedAndRecorded(lost)
    ensures var moved := Step(fp, w, lost);
            && Alike(fp, moved, FullStep(fp, full, lost)) && moved.stateFile == w.stateFile
            && moved.store == IngestNew(fp, SentBy(fp, w, lost), w.store).0
  {
    SameEffect(fp, w, full, lost);
    IngestKeepsConsistent(fp, New, SentBy(fp, w, lost), w.store);
    IngestKeepsConsistent(fp, New, FullReport(fp, lost.collection, lost.facts).value, full);
  }

  /** The report of a run whose list fits the schema, which every parse accepts. */
  function SentBy(fp: Fingerprinter, w: World, e: Event): Report
    requires e.Run? && (e.collection.Reported? ==> |e.collection.software| <= SOFTWARE_LIST_MAX)
  {
    Outgoing(fp, LoadState(w.stateFile), e.collection, e.facts).0.value
  }

  /** What the agent still remembers stays true only of a report that kept the list, or sent the same one. */
  lemma UnrecordedMemory(fp: Fingerprinter, w: World, lost: Event, h: string)
    requires w.version.New? && Consistent(fp, w.store) && MemoryIsTrue(fp, w)
    requires WellFormed(fp, lost) && Landed(lost) && LoadState(w.stateFile).softwareHash == Some(h)
    ensures Describes(fp, h, IngestNew(fp, SentBy(fp, w, lost), w.store).0)
            <==> lost.collection.Unavailable? || (lost.collection.Reported? && fp(lost.collection.software) == h)
  {
    NewServerObeysTheDirective(fp, SentBy(fp, w, lost), w.store);
  }

  lemma LandedWrites(fp: Fingerprinter, w: World, full: Store, e: Event)
    requires w.version.New? && WellFormed(fp, e) && Landed(e)
    ensures Step(fp, w, e).store == IngestNew(fp, SentBy(fp, w, e), w.store).0
    ensures FullReport(fp, e.collection, e.facts).Some?
    ensures FullStep(fp, full, e) == IngestNew(fp, FullReport(fp, e.collection, e.facts).value, full).0
  {
  }

  lemma SentIs(fp: Fingerprinter, w: World, next: Event)
    requires WellFormed(fp, next) && next.Run? && next.collection.Reported?
    ensures var list := next.collection.software;
            SentBy(fp, w, next) == if Omits(fp, LoadState(w.stateFile), next) then Unchanged(fp, next.facts, list)
                                   else Whole(fp, next.facts, list)
    ensures FullReport(fp, next.collection, next.facts) == Some(Whole(fp, next.facts, next.collection.software))
  {
    TrimKeepsTrimmed(fp(next.collection.software));
  }

  /** The report with a list in it as the schema leaves it, and the one that says the list is unchanged. */
  function Whole(fp: Fingerprinter, facts: Facts, list: Software): Report {
    Report(facts, Some(list), Some(SaysReported), ParseHash(fp(list)))
  }

  function Unchanged(fp: Fingerprinter, facts: Facts, list: Software): Report {
    Report(facts, None, Some(SaysUnchanged), ParseHash(fp(list)))
  }

  lemma WholeWritesAlike(fp: Fingerprinter, facts: Facts, list: Software, a: Store, b: Store)
    requires Consistent(fp, a) && Consistent(fp, b) && SameStore(fp, a, b)
    ensures SameStore(fp, IngestNew(fp, Whole(fp, facts, list), a).0, IngestNew(fp, Whole(fp, facts, list), b).0)
  {
  }

  /** Saying that the list is unchanged stands for sending it exactly where the store describes it. */
  lemma UnchangedWritesAlikeIff(fp: Fingerprinter, facts: Facts, list: Software, a: Store, b: Store)
    requires Consistent(fp, a) && Consistent(fp, b) && SameStore(fp, a, b)
    ensures SameStore(fp, IngestNew(fp, Unchanged(fp, facts, list), a).0, IngestNew(fp, Whole(fp, facts, list), b).0)
            <==> Describes(fp, fp(list), a)
  {
  }

  lemma NextStores(fp: Fingerprinter, w: World, full: Store, next: Event)
    requires Alike(fp, w, full) && WellFormed(fp, next) && Landed(next)
    ensures SameStore(fp, Step(fp, w, next).store, FullStep(fp, full, next))
            <==> (Omits(fp, LoadState(w.stateFile), next) ==> Describes(fp, fp(next.collection.software), w.store))
  {
    LandedWrites(fp, w, full, next);
    if next.collection.Reported? {
      var list := next.collection.software;
      SentIs(fp, w, next);
      WholeWritesAlike(fp, next.facts, list, w.store, full);
      UnchangedWritesAlikeIff(fp, next.facts, list, w.store, full);
    } else {
      SameEffectOfNone(fp, w, full, next);
    }
  }

  /**
   After a report that was applied and not recorded, whatever it said, the next one leaves the two servers with
   the same inventory if and only if it is not an omission, or the unrecorded one changed nothing that the agent
   remembers: it had no list to send, or sent the list that is now omitted.
   */
  lemma LostAckBreaksRefinementIff(fp: Fingerprinter, w: World, full: Store, lost: Event, next: Event)
    requires Simulates(fp, w, full) && WellFormed(fp, lost) && WellFormed(fp, next)
    requires Landed(lost) && !LandedAndRecorded(lost) && Landed(next)
    ensures SameStore(fp, Step(fp, Step(fp, w, lost), next).store, FullStep(fp, FullStep(fp, full, lost), next))
            <==> (Omits(fp, LoadState(w.stateFile), next) ==>
                    || lost.collection.Unavailable?
                    || (lost.collection.Reported? && fp(lost.collection.software) == fp(next.collection.software)))
  {
    var moved, fullMoved := Step(fp, w, lost), FullStep(fp, full, lost);
    UnrecordedStep(fp, w, full, lost);
    NextStores(fp, moved, fullMoved, next);
    if Omits(fp, LoadState(w.stateFile), next) {
      UnrecordedMemory(fp, w, lost, fp(next.collection.software));
    }
  }

  /**
   Which lists the two are left with: one moves from `a` to `b` in a report the agent never sees accepted, and
   back to `a` in a report that omits it.
   */
  lemma LostAckBreaksRefinement(fp: Fingerprinter, w: World, full: Store, lost: Event, next: Event)
    requires Simulates(fp, w, full) && WellFormed(fp, lost) && WellFormed(fp, next)
    requires Collected(lost) && lost.fate.AckLost?
    requires Collected(next) && Landed(next)
    requires fp(lost.collection.software) != fp(next.collection.software)
    requires LoadState(w.stateFile).softwareDelta
    requires LoadState(w.stateFile).softwareHash == Some(fp(next.collection.software))
    ensures StoresList(fp, lost.collection.software, Step(fp, Step(fp, w, lost), next).store)
    ensures StoresList(fp, next.collection.software, FullStep(fp, FullStep(fp, full, lost), next))
  {
    var s := LoadState(w.stateFile);
    var moved := Step(fp, w, lost);
    NewServerObeysTheDirective(fp, Outgoing(fp, s, lost.collection, lost.facts).0.value, w.store);
    assert Describes(fp, fp(lost.collection.software), moved.store);
    NewServerObeysTheDirective(fp, Outgoing(fp, s, next.collection, next.facts).0.value, moved.store);
    NewServerObeysTheDirective(fp, FullReport(fp, lost.collection, lost.facts).value, full);
    NewServerObeysTheDirective(fp, FullReport(fp, next.collection, next.facts).value, FullStep(fp, full, lost));
  }

  /** Against the current build nothing but a `disabled` report can take a stored list away. */
  lemma {:induction false} OnlyDisabledEmptiesTheInventory(fp: Fingerprinter, w: World, es: seq<Event>)
    requires w.version.New? && Consistent(fp, w.store)
    requires w.store.Node? && w.store.specs.Some? && w.store.specs.value.software.Packages?
    requires forall e :: e in es ==> WellFormed(fp, e) && !e.Rollback? && !e.RewriteStore?
    requires forall e :: e in es && Landed(e) ==> !e.collection.Disabled?
    ensures
      var v := Steps(fp, w, es);
      && v.version.New? && Consistent(fp, v.store)
      && v.store.Node? && v.store.specs.Some? && v.store.specs.value.software.Packages?
  {
    if es != [] {
      var init, e := es[..|es| - 1], es[|es| - 1];
      OnlyDisabledEmptiesTheInventory(fp, w, init);
      assert e in es;
      var v := Steps(fp, w, init);
      if Landed(e) {
        var r := Outgoing(fp, LoadState(v.stateFile), e.collection, e.facts).0.value;
        NewServerObeysTheDirective(fp, r, v.store);
        IngestKeepsConsistent(fp, New, r, v.store);
      }
    }
  }
}
