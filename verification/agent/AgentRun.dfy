/** One run of the agent as the ordered effects it has: send, then the state file, then the policy file. */
module AgentRun {
  import opened Options
  import opened Json
  import opened SoftwareDelta
  import opened InfraReport
  import opened AgentPolicy
  import opened AgentFiles
  import opened DeltaProtocol

  /** The instance: which build it runs and the one node this host reports to. */
  class Instance {
    var version: Version
    var store: Store

    /** Applies one report to the node and answers it. */
    method Ingest(fp: Fingerprinter, r: Report) returns (ack: Json)
      modifies this`store
      ensures store == InfraReport.Ingest(fp, version, r, old(store))
      ensures ack == AckBody(fp, version, r, old(store))
    {
      ack := AckBody(fp, version, r, store);
      if version.Old? {
        store := IngestOld(r);
      } else {
        var (next, _) := IngestNew(fp, r, store);
        store := next;
      }
    }
  }

  /** What the network does with the request, and what the client sees of the answer. */
  datatype Delivery = Unreachable(applied: bool) | RejectedStatus | Accepted(parsed: bool)

  /** How one run is cut short: how far each write gets, and whether the process dies in between. */
  datatype Trip = Trip(delivery: Delivery, state: Progress, policy: Progress, killedBeforePolicy: bool)

  function FateOf(t: Trip): Fate {
    match t.delivery
    case Unreachable(applied) => if applied then AckLost else Unsent
    case RejectedStatus => Unsent
    case Accepted(parsed) => Acked(parsed, t.state.Completed?, !t.killedBeforePolicy && t.policy.Completed?)
  }

  class Host {
    const stateFile: PrivateFile<Json>
    const policyFile: PrivateFile<PolicyDoc>

    constructor ()
      ensures fresh(stateFile) && fresh(policyFile)
      ensures stateFile.target == Missing && policyFile.target == Missing
    {
      stateFile := new PrivateFile<Json>(Missing);
      policyFile := new PrivateFile<PolicyDoc>(Missing);
    }

    ghost function View(server: Instance): World
      reads this, server, stateFile, policyFile
    {
      World(server.version, server.store, stateFile.target, policyFile.target)
    }

    /** The two writes after an accepted report, the state file first. */
    method Record(state: AgentState, policy: Option<Policy>, trip: Trip)
      requires policy.Some? ==> PolicyToWrite(policy.value) == Some(PolicyDoc(policy.value, true))
      modifies stateFile, policyFile
      ensures stateFile.target == if trip.state.Completed? then Holds(EncodeState(state)) else old(stateFile.target)
      ensures policyFile.target
        == if policy.Some? && !trip.killedBeforePolicy && trip.policy.Completed?
           then Holds(PolicyDoc(policy.value, true))
           else old(policyFile.target)
    {
      var _ := stateFile.WritePrivate(EncodeState(state), trip.state);
      if trip.killedBeforePolicy { return; }
      if policy.Some? {
        var doc := PolicyToWrite(policy.value);
        if doc.Some? {
          var _ := policyFile.WritePrivate(doc.value, trip.policy);
        }
      }
    }

    /** Sends one report; `ack` is what the client can read of the answer to an accepted one. */
    method Send(fp: Fingerprinter, server: Instance, r: InfraReport.Report, delivery: Delivery)
      returns (accepted: bool, ack: Json)
      modifies server`store
      ensures accepted <==> delivery.Accepted?
      ensures server.store == if delivery.RejectedStatus? || delivery == Unreachable(false) then old(server.store)
                              else InfraReport.Ingest(fp, server.version, r, old(server.store))
      ensures accepted
        ==> ack == if delivery.parsed then AckBody(fp, server.version, r, old(server.store)) else Null
    {
      accepted, ack := false, Null;
      match delivery {
        case RejectedStatus => return;
        case Unreachable(applied) =>
          if applied { var _ := server.Ingest(fp, r); }
          return;
        case Accepted(parsed) =>
          var body := server.Ingest(fp, r);
          if parsed { ack := body; }
      }
      accepted := true;
    }

    /** An early failure skips every write after it; a failed write skips only itself. */
    method Report(fp: Fingerprinter, server: Instance, collection: Collection, facts: Facts, nowMs: real,
                  served: Option<PolicyDoc>, trip: Trip)
      returns (reported: bool)
      modifies server`store, stateFile, policyFile
      ensures View(server) == Step(fp, old(View(server)), Run(collection, facts, nowMs, served, FateOf(trip)))
      ensures reported
        <==> trip.delivery.Accepted? && Outgoing(fp, LoadState(old(stateFile.target)), collection, facts).0.Some?
    {
      reported := false;
      var state := LoadState(stateFile.target);
      var (sent, cache) := Outgoing(fp, state, collection, facts);
      if sent.None? { return; }

      var ack: Json;
      reported, ack := Send(fp, server, sent.value, trip.delivery);
      if !reported { return; }

      var policy := PolicyRead(served, trip.delivery.parsed);
      if policy.Some? {
        PolicyRoundTrip(served.value);
      }
      Record(Recorded(nowMs, cache, ack), policy, trip);
    }
  }
}
