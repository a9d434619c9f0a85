/**
 What a whole history proves about one run: the evidence behind every omission, the number of reports an
 old server can be harmed by, and where the policy of a run comes from.
 */
module DeltaHistory {
  import opened Options
  import opened Json
  import opened SoftwareDelta
  import opened InfraReport
  import opened AgentPolicy
  import opened AgentFiles
  import opened DeltaProtocol

  /** The policy one run started from, and the one its acknowledgement carried, if any was usable. */
  datatype RunRecord = RunRecord(used: Policy, acknowledged: Option<Policy>)

  /** What an observer writes down beside the world. None of it is read by a step. */
  datatype Ledger = Ledger(
    recordedAck: Option<Json>, recordedCache: Option<string>,
    exposures: nat, rollbacks: nat, unrecorded: nat, runs: seq<RunRecord>)

  datatype Trace = Trace(world: World, ledger: Ledger)

  function SentAndCached(fp: Fingerprinter, w: World, e: Event): (Option<Report>, Option<string>)
    requires e.Run?
  {
    Outgoing(fp, LoadState(w.stateFile), e.collection, e.facts)
  }

  /** The report leaves a collected list out. */
  predicate LeavesListOut(fp: Fingerprinter, w: World, e: Event)
    requires e.Run?
  {
    var sent := SentAndCached(fp, w, e).0;
    sent.Some? && e.collection.Reported? && sent.value.software.None?
  }

  function NextLedger(fp: Fingerprinter, t: Trace, e: Event): Ledger {
    var l := t.ledger;
    if e.Rollback? && t.world.version.New? then l.(rollbacks := l.rollbacks + 1)
    else if !e.Run? then l
    else
      var (sent, cache) := SentAndCached(fp, t.world, e);
      var applied := sent.Some? && !e.fate.Unsent?;
      var recorded := applied && e.fate.Acked? && e.fate.stateWritten;
      l.(
        recordedAck := if recorded then Some(AckRead(fp, t.world, sent.value, e.fate.parsed)) else l.recordedAck,
        recordedCache := if recorded then cache else l.recordedCache,
        exposures := l.exposures + (if applied && t.world.version.Old? && LeavesListOut(fp, t.world, e) then 1 else 0),
        unrecorded := l.unrecorded + (if applied && !recorded then 1 else 0),
        runs := l.runs + [RunRecord(LoadCachedPolicy(t.world.policyFile),
                                    if applied && e.fate.Acked? then PolicyRead(e.served, e.fate.parsed) else None)])
  }

  function NextTrace(fp: Fingerprinter, t: Trace, e: Event): Trace {
    Trace(Step(fp, t.world, e), NextLedger(fp, t, e))
  }

  function Traced(fp: Fingerprinter, w: World, es: seq<Event>): Trace {
    if es == [] then Trace(w, Ledger(None, None, 0, 0, 0, []))
    else NextTrace(fp, Traced(fp, w, es[..|es| - 1]), es[|es| - 1])
  }

  lemma {:induction false} TracedWorld(fp: Fingerprinter, w: World, es: seq<Event>)
    ensures Traced(fp, w, es).world == Steps(fp, w, es)
  {
    if es != [] {
      TracedWorld(fp, w, es[..|es| - 1]);
    }
  }

  // ----- evidence before withholding -----

  ghost predicate MemoryHasEvidence(t: Trace) {
    var s, l := LoadState(t.world.stateFile), t.ledger;
    && (s.softwareDelta ==> l.recordedAck.Some? && ServerUnderstandsSoftwareDelta(l.recordedAck.value))
    && (s.softwareHash.Some? ==> l.recordedCache == s.softwareHash)
  }

  lemma NextHasEvidence(fp: Fingerprinter, t: Trace, e: Event)
    requires MemoryHasEvidence(t)
    ensures MemoryHasEvidence(NextTrace(fp, t, e))
  {
    if e.Run? {
      var (sent, cache) := SentAndCached(fp, t.world, e);
      if sent.Some? && LandedAndRecorded(e) {
        StateRoundTrip(t.world.stateFile, Recorded(e.nowMs, cache, AckRead(fp, t.world, sent.value, e.fate.parsed)));
        LoadRecorded(Recorded(e.nowMs, cache, AckRead(fp, t.world, sent.value, e.fate.parsed)));
      }
    }
  }

  /** Reading back what was recorded can only forget, never invent. */
  lemma LoadRecorded(s: AgentState)
    ensures LoadState(Holds(EncodeState(s))).softwareDelta == s.softwareDelta
    ensures LoadState(Holds(EncodeState(s))).softwareHash in {s.softwareHash, None}
  {
    StateRoundTrip(Missing, s.(lastSuccessMs := None));
    assert "lastSuccessMs"[0] == 'l' && "softwareHash"[8] == 'H' && "softwareDelta"[8] == 'D';
  }

  lemma {:induction false} EvidenceThroughout(fp: Fingerprinter, w: World, es: seq<Event>)
    requires !w.stateFile.Holds?
    ensures MemoryHasEvidence(Traced(fp, w, es))
  {
    if es != [] {
      EvidenceThroughout(fp, w, es[..|es| - 1]);
      NextHasEvidence(fp, Traced(fp, w, es[..|es| - 1]), es[|es| - 1]);
    }
  }

  /**
   In every history of an agent that began with no readable state, a collected list is left out only if
   the last acknowledgement recorded proved the capability and the fingerprint recorded with it is the
   fingerprint of the list just collected.
   */
  lemma NoOmissionWithoutEvidence(fp: Fingerprinter, w: World, es: seq<Event>, e: Event)
    requires !w.stateFile.Holds?
    requires e.Run? && LeavesListOut(fp, Traced(fp, w, es).world, e)
    ensures
      var l := Traced(fp, w, es).ledger;
      && l.recordedAck.Some? && ServerUnderstandsSoftwareDelta(l.recordedAck.value)
      && l.recordedCache == Some(fp(e.collection.software))
  {
    EvidenceThroughout(fp, w, es);
  }

  // ----- bounded exposure -----

  /** Every exposure is paid for by a rollback, or by an applied report the agent failed to record. */
  ghost predicate ExposuresArePaidFor(t: Trace) {
    var armed := if LoadState(t.world.stateFile).softwareDelta && t.world.version.Old? then 1 else 0;
    t.ledger.exposures + armed <= t.ledger.rollbacks + t.ledger.unrecorded
  }

  lemma NextIsPaidFor(fp: Fingerprinter, t: Trace, e: Event)
    requires ExposuresArePaidFor(t)
    ensures ExposuresArePaidFor(NextTrace(fp, t, e))
  {
    if e.Run? {
      var (sent, cache) := SentAndCached(fp, t.world, e);
      if sent.Some? && LandedAndRecorded(e) {
        LoadRecorded(Recorded(e.nowMs, cache, AckRead(fp, t.world, sent.value, e.fate.parsed)));
        AckSays(fp, t.world.version, sent.value, t.world.store);
      }
    }
  }

  /**
   Starting with no readable state, the reports in which an old server loses its list to an omission
   number at most the rollbacks plus the applied reports that were never recorded.
   */
  lemma {:induction false} ExposureIsBounded(fp: Fingerprinter, w: World, es: seq<Event>)
    requires !w.stateFile.Holds?
    ensures ExposuresArePaidFor(Traced(fp, w, es))
    ensures Traced(fp, w, es).ledger.exposures
            <= Traced(fp, w, es).ledger.rollbacks + Traced(fp, w, es).ledger.unrecorded
  {
    if es != [] {
      ExposureIsBounded(fp, w, es[..|es| - 1]);
      NextIsPaidFor(fp, Traced(fp, w, es[..|es| - 1]), es[|es| - 1]);
    }
  }

  /** When every applied report is recorded, rollbacks alone bound the exposure. */
  lemma {:induction false} NothingUnrecorded(fp: Fingerprinter, w: World, es: seq<Event>)
    requires forall e :: e in es && Landed(e) ==> LandedAndRecorded(e)
    ensures Traced(fp, w, es).ledger.unrecorded == 0
  {
    if es != [] {
      NothingUnrecorded(fp, w, es[..|es| - 1]);
      assert es[|es| - 1] in es;
    }
  }

  lemma RollbacksBoundExposure(fp: Fingerprinter, w: World, es: seq<Event>)
    requires !w.stateFile.Holds?
    requires forall e :: e in es && Landed(e) ==> LandedAndRecorded(e)
    ensures Traced(fp, w, es).ledger.exposures <= Traced(fp, w, es).ledger.rollbacks
  {
    ExposureIsBounded(fp, w, es);
    NothingUnrecorded(fp, w, es);
  }

  // ----- where a run's policy comes from -----

  /** `p` was carried by the acknowledgement of one of the first `n` runs. */
  ghost predicate AcknowledgedBefore(runs: seq<RunRecord>, n: nat, p: Policy) {
    exists j :: 0 <= j < n <= |runs| && runs[j].acknowledged == Some(p)
  }

  ghost predicate PoliciesHaveProvenance(t: Trace) {
    var runs := t.ledger.runs;
    && (forall i :: 0 <= i < |runs| ==> runs[i].used == DEFAULT || AcknowledgedBefore(runs, i, runs[i].used))
    && (LoadCachedPolicy(t.world.policyFile) == DEFAULT
        || AcknowledgedBefore(runs, |runs|, LoadCachedPolicy(t.world.policyFile)))
  }

  lemma AcknowledgedStays(runs: seq<RunRecord>, more: seq<RunRecord>, n: nat, p: Policy)
    requires AcknowledgedBefore(runs, n, p)
    ensures forall m :: n <= m <= |runs + more| ==> AcknowledgedBefore(runs + more, m, p)
  {
    var j :| 0 <= j < n <= |runs| && runs[j].acknowledged == Some(p);
    assert (runs + more)[j].acknowledged == Some(p);
  }

  lemma NextHasProvenance(fp: Fingerprinter, t: Trace, e: Event)
    requires PoliciesHaveProvenance(t)
    ensures PoliciesHaveProvenance(NextTrace(fp, t, e))
  {
    if e.Run? {
      var runs, after := t.ledger.runs, NextLedger(fp, t, e).runs;
      var record := after[|runs|];
      assert after == runs + [record];
      forall i | 0 <= i < |after| ensures after[i].used == DEFAULT || AcknowledgedBefore(after, i, after[i].used) {
        if after[i].used != DEFAULT {
          AcknowledgedStays(runs, [record], i, after[i].used);
        }
      }
      var loaded := LoadCachedPolicy(NextTrace(fp, t, e).world.policyFile);
      if NextTrace(fp, t, e).world.policyFile != t.world.policyFile {
        PolicyRoundTrip(e.served.value);
        assert after[|runs|].acknowledged == Some(loaded);
      } else if loaded != DEFAULT {
        AcknowledgedStays(runs, [record], |runs|, loaded);
      }
    }
  }

  /**
   With a kill allowed between any two effects, every run starts from the default policy or from a policy
   the schema accepted in the acknowledgement of a strictly earlier run.
   */
  lemma {:induction false} EveryPolicyHasProvenance(fp: Fingerprinter, w: World, es: seq<Event>)
    requires !w.policyFile.Holds?
    ensures PoliciesHaveProvenance(Traced(fp, w, es))
  {
    if es != [] {
      EveryPolicyHasProvenance(fp, w, es[..|es| - 1]);
      NextHasProvenance(fp, Traced(fp, w, es[..|es| - 1]), es[|es| - 1]);
    }
  }

  /**
   The converse. After any history a run starts from the policy of the last run that left one, unless the file
   was damaged since; and what the ledger calls acknowledged is what the schema accepted of an answer that was read.
   */
  lemma RunsUseTheLastPolicyServed(fp: Fingerprinter, w: World, es: seq<Event>, k: nat, e: Event)
    requires k < |es| && Adopts(fp, Steps(fp, w, es[..k]), es[k]) && PolicyUntouchedFrom(fp, w, es, k + 1)
    requires e.Run?
    ensures var runs := Traced(fp, w, es + [e]).ledger.runs;
            runs != [] && ParsePolicy(es[k].served.value) == Some(runs[|runs| - 1].used)
  {
    PolicyInForce(fp, w, es, k);
    TracedWorld(fp, w, es);
    assert (es + [e])[..|es|] == es;
  }

  lemma AcknowledgedMeans(fp: Fingerprinter, t: Trace, e: Event, p: Policy)
    requires e.Run?
    ensures var runs := NextLedger(fp, t, e).runs;
            && |runs| == |t.ledger.runs| + 1
            && (runs[|runs| - 1].acknowledged == Some(p) <==>
                  && SentAndCached(fp, t.world, e).0.Some? && e.fate.Acked? && e.fate.parsed
                  && e.served.Some? && ParsePolicy(e.served.value) == Some(p))
  {
  }
}
