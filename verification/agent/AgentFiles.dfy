/** The two small files the agent keeps between runs, and the write that replaces one of them. */
module AgentFiles {
  import opened Options
  import opened Json
  import opened AgentPolicy

  /** What a read of one file finds: nothing, text that does not parse, or a parsed document. */
  datatype File<+T> = Missing | Garbage | Holds(content: T)

  datatype AgentState = AgentState(lastSuccessMs: Option<real>, softwareHash: Option<string>, softwareDelta: bool)

  const NOTHING_KNOWN := AgentState(None, None, false)

  /** Each field is validated on its own; anything unreadable means nothing is known. */
  function LoadState(f: File<Json>): AgentState {
    if !f.Holds? then NOTHING_KNOWN
    else
      var clock := Field(f.content, "lastSuccessMs");
      var hash := Field(f.content, "softwareHash");
      AgentState(
        if clock.Some? && clock.value.Num? && clock.value.n > 0.0 then Some(clock.value.n) else None,
        if hash.Some? && hash.value.Str? && hash.value.s != "" then Some(hash.value.s) else None,
        Field(f.content, "softwareDelta") == Some(Bool(true)))
  }

  /** The document written: a key per known field, and no key for an unknown one. */
  function EncodeState(s: AgentState): Json {
    var clock := if s.lastSuccessMs.Some? then map["lastSuccessMs" := Num(s.lastSuccessMs.value)] else map[];
    var hash := if s.softwareHash.Some? then map["softwareHash" := Str(s.softwareHash.value)] else map[];
    var delta := if s.softwareDelta then map["softwareDelta" := Bool(true)] else map[];
    Obj(clock + hash + delta)
  }

  predicate ValidState(s: AgentState) {
    (s.lastSuccessMs.Some? ==> s.lastSuccessMs.value > 0.0) && s.softwareHash != Some("")
  }

  /** What is read is always valid, and a valid state written out is read back as it was. */
  lemma StateRoundTrip(f: File<Json>, s: AgentState)
    ensures ValidState(LoadState(f))
    ensures LoadState(Holds(EncodeState(s))) == s <==> ValidState(s)
  {
    assert "lastSuccessMs"[0] == 'l' && "softwareHash"[8] == 'H' && "softwareDelta"[8] == 'D';
    assert |"softwareHash"| == 12 && |"softwareDelta"| == 13 && |"lastSuccessMs"| == 13;
  }

  function LoadCachedPolicy(f: File<PolicyDoc>): Policy {
    if f.Holds? && ParsePolicy(f.content).Some? then ParsePolicy(f.content).value else DEFAULT
  }

  /** A policy the schema rejects never reaches the disk; one it accepts is what the next run loads. */
  function PolicyToWrite(p: Policy): Option<PolicyDoc> {
    var parsed := ParsePolicy(PolicyDoc(p, true));
    if parsed.Some? then Some(PolicyDoc(parsed.value, true)) else None
  }

  lemma PolicyRoundTrip(doc: PolicyDoc)
    requires ParsePolicy(doc).Some?
    ensures PolicyToWrite(ParsePolicy(doc).value) == Some(PolicyDoc(ParsePolicy(doc).value, true))
    ensures LoadCachedPolicy(Holds(PolicyDoc(ParsePolicy(doc).value, true))) == ParsePolicy(doc).value
  {
    ParseWritten(ParsePolicy(doc).value);
  }

  /** What reaches the disk is read back as it is, and a policy the schema rejects does not reach it. */
  lemma OnlyUsablePoliciesAreWritten(p: Policy)
    ensures PolicyToWrite(p).None? <==> ParsePolicy(PolicyDoc(p, true)).None?
    ensures PolicyToWrite(p).Some?
      ==> PolicyToWrite(p).value == PolicyDoc(LoadCachedPolicy(Holds(PolicyToWrite(p).value)), true)
  {
    if ParsePolicy(PolicyDoc(p, true)).Some? {
      PolicyRoundTrip(PolicyDoc(p, true));
    }
  }

  /** Whatever is on disk, the next run has a policy within the bounds: the one there if it is one, or the default. */
  lemma UnusableCacheReadsAsDefault(f: File<PolicyDoc>)
    ensures ValidPolicy(LoadCachedPolicy(f))
    ensures f.Holds? && ParsePolicy(f.content).Some? ==> ParsePolicy(f.content) == Some(LoadCachedPolicy(f))
    ensures f.Missing? || f.Garbage? || ParsePolicy(f.content).None? ==> LoadCachedPolicy(f) == DEFAULT
  {
  }

  /** How far a write gets before it fails or the run is killed. */
  datatype Progress = BeforeAnything | InsideTemporary | BeforePermissions | BeforeRename | Completed

  /** One file beside its temporary sibling. A run only ever reads `target`. */
  class PrivateFile<T> {
    var target: File<T>
    var temporary: File<T>

    constructor (target: File<T>)
      ensures this.target == target && temporary == Missing
    {
      this.target := target;
      temporary := Missing;
    }

    /** Wherever it stops, the next read finds the whole old document or the whole new one. */
    method WritePrivate(content: T, progress: Progress) returns (done: bool)
      modifies this
      ensures done <==> progress.Completed?
      ensures target == if done then Holds(content) else old(target)
      ensures done ==> temporary == Missing
    {
      done := false;
      if progress.BeforeAnything? { return; }
      temporary := Garbage;
      if progress.InsideTemporary? { return; }
      temporary := Holds(content);
      if progress.BeforePermissions? || progress.BeforeRename? { return; }
      target, temporary := temporary, Missing;
      done := true;
    }
  }
}
