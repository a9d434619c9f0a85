/**
 What the delta is for: against the current build, a list that stays the same is sent at most twice, whatever
 the agent remembered and the server held to begin with.
 */
module DeltaSaving {
  import opened Options
  import opened Text
  import opened SoftwareDelta
  import opened InfraReport
  import opened AgentFiles
  import opened DeltaProtocol
  import opened DeltaHistory

  /** What the current build's answer asks for, if it can be read. */
  ghost predicate AskedAgain(fp: Fingerprinter, w: World, e: Event, r: Report) {
    e.Run? && e.fate.Acked? && e.fate.parsed && w.version.New? && IngestNew(fp, r, w.store).1
  }

  lemma WellFormedIsSent(fp: Fingerprinter, w: World, e: Event)
    requires e.Run? && WellFormed(fp, e)
    ensures SentAndCached(fp, w, e).0.Some?
  {
    var s := LoadState(w.stateFile);
    OmissionIffCorroborable(fp, e.collection, s.softwareHash, s.softwareDelta);
  }

  /**
   All that a recorded run leaves in the agent's memory: the time, whether the answer proved the capability, and
   the fingerprint of the list collected, or none if the answer asked for that list or the collector is off.
   */
  lemma MemoryAfterARun(fp: Fingerprinter, w: World, e: Event)
    requires WellFormed(fp, e) && LandedAndRecorded(e)
    ensures SentAndCached(fp, w, e).0.Some?
    ensures
      var r, after := SentAndCached(fp, w, e).0.value, LoadState(Step(fp, w, e).stateFile);
      && after.lastSuccessMs == Some(e.nowMs)
      && (after.softwareDelta <==> e.fate.parsed && w.version.New?)
      && after.softwareHash == if AskedAgain(fp, w, e, r) || e.collection.Disabled? then None
                               else if e.collection.Reported? then Some(fp(e.collection.software))
                               else LoadState(w.stateFile).softwareHash
  {
    WellFormedIsSent(fp, w, e);
    var (sent, cache) := SentAndCached(fp, w, e);
    StateRoundTrip(w.stateFile, Recorded(e.nowMs, cache, AckRead(fp, w, sent.value, e.fate.parsed)));
    AckSays(fp, w.version, sent.value, w.store);
  }

  /** Lost or unreadable, the memory is empty, and the next list collected is sent whole; nothing else is touched. */
  lemma LossIsForgetting(fp: Fingerprinter, w: World, loss: Event, e: Event)
    requires loss.LoseState? || loss.CorruptState?
    requires Collected(e)
    ensures LoadState(Step(fp, w, loss).stateFile) == NOTHING_KNOWN
    ensures Step(fp, w, loss).(stateFile := w.stateFile) == w
    ensures !LeavesListOut(fp, Step(fp, w, loss), e)
  {
    OmissionIffCorroborable(fp, e.collection, None, false);
  }

  /** An upgrade and a rollback change the build that answers, and nothing that it or the agent holds. */
  lemma BuildsChangeAlone(fp: Fingerprinter, w: World, e: Event)
    requires e.Upgrade? || e.Rollback?
    ensures Step(fp, w, e).version.New? <==> e.Upgrade?
    ensures Step(fp, w, e).(version := w.version) == w
  {
  }

  /** A run that collects a list with fingerprint `h`, arrives, is recorded, and reads its answer. */
  ghost predicate Reports(fp: Fingerprinter, e: Event, h: string) {
    && WellFormed(fp, e) && Collected(e) && LandedAndRecorded(e) && e.fate.parsed
    && fp(e.collection.software) == h
  }

  /** Agent and server agree on the list with fingerprint `h`, and each knows that the other can. */
  ghost predicate Settled(fp: Fingerprinter, w: World, h: string) {
    && w.version.New? && Describes(fp, h, w.store)
    && LoadState(w.stateFile).softwareDelta && LoadState(w.stateFile).softwareHash == Some(h)
  }

  lemma RunSettlesUnlessAsked(fp: Fingerprinter, w: World, e: Event, h: string)
    requires Consistent(fp, w.store) && w.version.New? && Reports(fp, e, h)
    ensures var s, after := LoadState(w.stateFile), Step(fp, w, e);
            && Consistent(fp, after.store) && after.version.New? && LoadState(after.stateFile).softwareDelta
            && (LeavesListOut(fp, w, e) <==> s.softwareDelta && s.softwareHash == Some(h))
            && (Settled(fp, after, h) || (LeavesListOut(fp, w, e) && LoadState(after.stateFile).softwareHash == None))
  {
    MemoryAfterARun(fp, w, e);
    var r := SentAndCached(fp, w, e).0.value;
    IngestKeepsConsistent(fp, w.version, r, w.store);
    TrimKeepsTrimmed(h);
    NotAskedAgain(fp, r, w.store, e.collection.software);
    if r.software.Some? {
      NewServerObeysTheDirective(fp, r, w.store);
    }
  }

  lemma SettledStays(fp: Fingerprinter, w: World, e: Event, h: string)
    requires Consistent(fp, w.store) && Settled(fp, w, h) && Reports(fp, e, h) && |h| <= SOFTWARE_HASH_MAX
    ensures LeavesListOut(fp, w, e) && Settled(fp, Step(fp, w, e), h)
  {
    RunSettlesUnlessAsked(fp, w, e, h);
    MemoryAfterARun(fp, w, e);
    TrimKeepsTrimmed(h);
    ResendIffUncorroborated(fp, SentAndCached(fp, w, e).0.value, w.store);
  }

  lemma TwoRunsSettle(fp: Fingerprinter, w: World, first: Event, second: Event, h: string)
    requires Consistent(fp, w.store) && w.version.New? && |h| <= SOFTWARE_HASH_MAX
    requires Reports(fp, first, h) && Reports(fp, second, h)
    ensures Settled(fp, Step(fp, Step(fp, w, first), second), h)
  {
    var mid := Step(fp, w, first);
    RunSettlesUnlessAsked(fp, w, first, h);
    RunSettlesUnlessAsked(fp, mid, second, h);
    if Settled(fp, mid, h) {
      SettledStays(fp, mid, second, h);
    }
  }

  lemma {:induction false} SettledAfterTwo(fp: Fingerprinter, w: World, es: seq<Event>, h: string)
    requires Consistent(fp, w.store) && w.version.New? && |h| <= SOFTWARE_HASH_MAX
    requires |es| >= 2 && forall e :: e in es ==> Reports(fp, e, h)
    ensures Settled(fp, Steps(fp, w, es), h)
  {
    var init, last := es[..|es| - 1], es[|es| - 1];
    if |es| == 2 {
      StepsSnoc(fp, w, [], es[0]);
      assert init == [] + [es[0]];
      TwoRunsSettle(fp, w, es[0], last, h);
    } else {
      SettledAfterTwo(fp, w, init, h);
      assert AllWellFormed(fp, init);
      AlwaysConsistent(fp, w, init);
      SettledStays(fp, Steps(fp, w, init), last, h);
    }
  }

  /**
   From any memory and any consistent store: while the current build answers and the list keeps its fingerprint,
   every report after the second leaves the list out, and the server has it.
   */
  lemma SentAtMostTwice(fp: Fingerprinter, w: World, es: seq<Event>, e: Event, h: string)
    requires Consistent(fp, w.store) && w.version.New? && |h| <= SOFTWARE_HASH_MAX
    requires |es| >= 2 && forall d :: d in es ==> Reports(fp, d, h)
    requires Reports(fp, e, h)
    ensures LeavesListOut(fp, Steps(fp, w, es), e)
    ensures StoresList(fp, e.collection.software, Steps(fp, w, es + [e]).store)
  {
    SettledAfterTwo(fp, w, es, h);
    assert AllWellFormed(fp, es);
    AlwaysConsistent(fp, w, es);
    SettledStays(fp, Steps(fp, w, es), e, h);
    StepsSnoc(fp, w, es, e);
  }

  /** A fingerprint the schema drops is the one exception: such an omission is asked for every time. */
  lemma TooLongIsNeverSettled(fp: Fingerprinter, w: World, e: Event, h: string)
    requires Consistent(fp, w.store) && Settled(fp, w, h) && Reports(fp, e, h) && |h| > SOFTWARE_HASH_MAX
    ensures LeavesListOut(fp, w, e) && LoadState(Step(fp, w, e).stateFile).softwareHash == None
  {
    RunSettlesUnlessAsked(fp, w, e, h);
    MemoryAfterARun(fp, w, e);
    TrimKeepsTrimmed(h);
    ResendIffUncorroborated(fp, SentAndCached(fp, w, e).0.value, w.store);
  }
}
