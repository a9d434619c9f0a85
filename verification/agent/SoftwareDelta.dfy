/**
 The agent's half of the software delta: what one report says about the installed packages, and what
 the agent may remember once that report has been accepted.
 */
module SoftwareDelta {
  import opened Options
  import opened Json
  import opened Text

  datatype Package = Package(name: string, version: Option<string>, source: Option<string>)
  type Software = seq<Package>

  /**
   Everything below holds for every fingerprint function whose results are non-empty and open and close
   with something other than white space. Fingerprint.dfy models the shipped one.
   */
  type Fingerprinter = f: Software -> string | forall l: Software :: f(l) != "" && Trimmed(f(l))
    ghost witness (l: Software) => "x"

  /** What the collector managed to do in this run. */
  datatype Collection = Reported(software: Software) | Unavailable | Disabled

  datatype SoftwareState = SaysReported | SaysUnchanged | SaysUnavailable | SaysDisabled

  /** The software fields of one report, and the fingerprint to keep if it is accepted. */
  datatype WireFields = WireFields(software: Option<Software>, state: SoftwareState, hash: Option<string>)

  /** Only a literal `true` proves the capability; no body, a string or a number proves nothing. */
  predicate ServerUnderstandsSoftwareDelta(ack: Json) {
    Field(ack, "softwareDelta") == Some(Bool(true))
  }

  function SoftwareWireFields(fp: Fingerprinter, collection: Collection, cachedHash: Option<string>,
                              serverUnderstandsDelta: bool): (WireFields, Option<string>)
  {
    match collection
    case Disabled => (WireFields(None, SaysDisabled, None), None)
    case Unavailable => (WireFields(None, SaysUnavailable, None), cachedHash)
    case Reported(software) =>
      var hash := fp(software);
      if serverUnderstandsDelta && cachedHash == Some(hash) then
        (WireFields(None, SaysUnchanged, Some(hash)), Some(hash))
      else
        (WireFields(Some(software), SaysReported, Some(hash)), Some(hash))
  }

  /** A collected list stays off the wire exactly when it matches the cache and the server can read that. */
  lemma OmissionIffCorroborable(fp: Fingerprinter, collection: Collection, cached: Option<string>, proven: bool)
    ensures
      var (fields, cache) := SoftwareWireFields(fp, collection, cached, proven);
      && (fields.software.Some? ==> collection == Reported(fields.software.value) && fields.state.SaysReported?)
      && (collection.Reported? ==>
            && (fields.software.None? <==> proven && cached == Some(fp(collection.software)))
            && (fields.software.None? <==> fields.state.SaysUnchanged?)
            && fields.hash == cache == Some(fp(collection.software)))
      && (collection.Unavailable? ==> fields == WireFields(None, SaysUnavailable, None) && cache == cached)
      && (collection.Disabled? ==> fields == WireFields(None, SaysDisabled, None) && cache == None)
  {
  }

  // ----- what a reader makes of a stream of reports -----

  /** One run: what it collected, and whether the server had proved by then that it reads omissions. */
  datatype Tick = Tick(collection: Collection, proven: bool)

  /** A report as read by someone who holds a list: an unchanged list is the one held. */
  function Read(fields: WireFields, held: Software): Collection {
    if fields.software.Some? then Reported(fields.software.value)
    else if fields.state.SaysUnchanged? then Reported(held)
    else if fields.state.SaysDisabled? then Disabled
    else Unavailable
  }

  function HeldAfter(answer: Collection, held: Software): Software {
    match answer
    case Reported(software) => software
    case Unavailable => held
    case Disabled => []
  }

  /** What the reader makes of each report, when every one of them arrives and is recorded. */
  function ReadAll(fp: Fingerprinter, ticks: seq<Tick>, cached: Option<string>, held: Software): (r: seq<Collection>)
    ensures |r| == |ticks|
  {
    if ticks == [] then []
    else
      var (fields, cache) := SoftwareWireFields(fp, ticks[0].collection, cached, ticks[0].proven);
      var answer := Read(fields, held);
      [answer] + ReadAll(fp, ticks[1..], cache, HeldAfter(answer, held))
  }

  /** Lists that the fingerprint does not tell apart are one answer. */
  ghost predicate SameAnswer(fp: Fingerprinter, a: Collection, b: Collection) {
    a == b || (a.Reported? && b.Reported? && fp(a.software) == fp(b.software))
  }

  ghost predicate AllRecovered(fp: Fingerprinter, answers: seq<Collection>, ticks: seq<Tick>) {
    |answers| == |ticks| && forall k :: 0 <= k < |ticks| ==> SameAnswer(fp, answers[k], ticks[k].collection)
  }

  /** The first run that has anything to say leaves out a list that the reader does not hold. */
  predicate LeavesOutUnheld(fp: Fingerprinter, ticks: seq<Tick>, cached: Option<string>, held: Software) {
    ticks != [] &&
    match ticks[0].collection
    case Unavailable => LeavesOutUnheld(fp, ticks[1..], cached, held)
    case Disabled => false
    case Reported(software) => ticks[0].proven && cached == Some(fp(software)) && cached != Some(fp(held))
  }

  /** A remembered fingerprint is that of the list held. */
  ghost predicate Truthful(fp: Fingerprinter, cached: Option<string>, held: Software) {
    cached.Some? ==> cached.value == fp(held)
  }

  lemma RecoveredFromTheFirst(fp: Fingerprinter, answers: seq<Collection>, ticks: seq<Tick>)
    requires |answers| == |ticks| > 0
    ensures AllRecovered(fp, answers, ticks)
            <==> SameAnswer(fp, answers[0], ticks[0].collection) && AllRecovered(fp, answers[1..], ticks[1..])
  {
    if SameAnswer(fp, answers[0], ticks[0].collection) && AllRecovered(fp, answers[1..], ticks[1..]) {
      forall k | 0 <= k < |ticks| ensures SameAnswer(fp, answers[k], ticks[k].collection) {
        if k > 0 {
          assert SameAnswer(fp, answers[1..][k - 1], ticks[1..][k - 1].collection);
        }
      }
    }
    if AllRecovered(fp, answers, ticks) {
      forall k | 0 <= k < |ticks| - 1 ensures SameAnswer(fp, answers[1..][k], ticks[1..][k].collection) {
        assert SameAnswer(fp, answers[k + 1], ticks[k + 1].collection);
      }
    }
  }

  /** A memory that is true of the list held stays so, and loses nothing. */
  lemma {:induction false} TruthfulMemoryRecovers(
      fp: Fingerprinter, ticks: seq<Tick>, cached: Option<string>, held: Software)
    requires Truthful(fp, cached, held)
    ensures AllRecovered(fp, ReadAll(fp, ticks, cached, held), ticks)
  {
    if ticks != [] {
      var (fields, cache) := SoftwareWireFields(fp, ticks[0].collection, cached, ticks[0].proven);
      var answer := Read(fields, held);
      OmissionIffCorroborable(fp, ticks[0].collection, cached, ticks[0].proven);
      TruthfulMemoryRecovers(fp, ticks[1..], cache, HeldAfter(answer, held));
      RecoveredFromTheFirst(fp, ReadAll(fp, ticks, cached, held), ticks);
    }
  }

  /**
   Whatever an agent remembers and a reader holds: the reader recovers every collection, up to lists with the
   same fingerprint, if and only if the first run with anything to say does not leave out a list it lacks.
   */
  lemma {:induction false} ReaderRecoversIff(
      fp: Fingerprinter, ticks: seq<Tick>, cached: Option<string>, held: Software)
    ensures AllRecovered(fp, ReadAll(fp, ticks, cached, held), ticks)
            <==> !LeavesOutUnheld(fp, ticks, cached, held)
  {
    if ticks != [] {
      var (fields, cache) := SoftwareWireFields(fp, ticks[0].collection, cached, ticks[0].proven);
      var answer := Read(fields, held);
      OmissionIffCorroborable(fp, ticks[0].collection, cached, ticks[0].proven);
      RecoveredFromTheFirst(fp, ReadAll(fp, ticks, cached, held), ticks);
      if ticks[0].collection.Unavailable? {
        ReaderRecoversIff(fp, ticks[1..], cached, held);
      } else if !LeavesOutUnheld(fp, ticks, cached, held) {
        TruthfulMemoryRecovers(fp, ticks[1..], cache, HeldAfter(answer, held));
      }
    }
  }
}
