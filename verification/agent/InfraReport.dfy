/**
 The server's half: how a report's software answer changes the inventory blob stored on a node, and
 what the acknowledgement says back. Two builds are modelled, one from before the delta contract and
 the current one.
 */
module InfraReport {
  import opened Options
  import opened Json
  import opened Text
  import opened SoftwareDelta

  const SOFTWARE_HASH_MAX := 64
  const SOFTWARE_LIST_MAX := 5000

  /** Host facts: the part a repeat report is compared on, and the per-report clock readings. */
  datatype Facts = Facts(compared: string, volatile: string)

  datatype Report = Report(
    facts: Facts, software: Option<Software>, state: Option<SoftwareState>, hash: Option<string>)

  /** The `software` key of a stored blob. A hand-edited row can hold something that is not a list. */
  datatype StoredSoftware = NoKey | NotAList | Packages(list: Software)

  datatype Specs = Specs(facts: Facts, software: StoredSoftware, hash: Option<string>)

  /** `Node(None)` is a node whose blob is missing or is not an object. */
  datatype Store = NoNode | Node(specs: Option<Specs>)

  /** The shared report schema: a bound on the list, and a fingerprint that is dropped when unusable. */
  function ParseHash(h: string): Option<string> {
    var t := Trim(h);
    if 1 <= |t| <= SOFTWARE_HASH_MAX then Some(t) else None
  }

  function ParseReport(r: Report): Option<Report> {
    if r.software.Some? && |r.software.value| > SOFTWARE_LIST_MAX then None
    else Some(r.(hash := if r.hash.Some? then ParseHash(r.hash.value) else None))
  }

  /**
   The agent and the server both parse; the second parse changes nothing more. What the schema does to the
   packages of the list is in PackageSchema.
   */
  lemma ParseIdempotent(r: Report)
    requires ParseReport(r).Some?
    ensures ParseReport(ParseReport(r).value) == ParseReport(r)
  {
    if r.hash.Some? {
      TrimIdempotent(r.hash.value);
    }
  }

  datatype Directive =
    | Replace(software: Software, hash: string)
    | Preserve(claimsUnchanged: bool, claimedHash: Option<string>)
    | Clear

  function SoftwareDirective(fp: Fingerprinter, r: Report): Directive {
    if r.software.Some? then Replace(r.software.value, fp(r.software.value))
    else if r.state.None? || r.state == Some(SaysDisabled) then Clear
    else Preserve(r.state == Some(SaysUnchanged), r.hash)
  }

  predicate HasSoftware(specs: Option<Specs>) {
    specs.Some? && !specs.value.software.NoKey?
  }

  function StoredHash(specs: Option<Specs>): Option<string> {
    if specs.Some? then specs.value.hash else None
  }

  predicate SoftwareResendWanted(d: Directive, specs: Option<Specs>) {
    match d
    case Preserve(claims, None) => claims
    case Preserve(_, Some(h)) => !HasSoftware(specs) || StoredHash(specs) != Some(h)
    case _ => false
  }

  /** The blob to write over a known node's, or `None` when what is stored already says exactly this. */
  function PlanSpecsWrite(facts: Facts, d: Directive, specs: Option<Specs>): Option<Specs> {
    var storedHash := StoredHash(specs);
    var hash :=
      if d.Replace? then Some(d.hash)
      else if d.Preserve? && HasSoftware(specs) then storedHash
      else None;
    var restEqual := specs.Some? && specs.value.facts.compared == facts.compared && storedHash == hash;
    var softwareEqual :=
      match d
      case Preserve(_, _) => true
      case Clear => !HasSoftware(specs)
      case Replace(_, h) => HasSoftware(specs) && Some(h) == storedHash;
    if restEqual && softwareEqual then None
    else if d.Replace? then Some(Specs(facts, Packages(d.software), hash))
    else if d.Clear? || !HasSoftware(specs) then Some(Specs(facts, NoKey, hash))
    else if specs.value.software.NotAList? then None
    else Some(Specs(facts, specs.value.software, hash))
  }

  datatype Version = Old | New

  /** The current build: a new node takes whatever the report carried, a known one takes the plan. */
  function IngestNew(fp: Fingerprinter, r: Report, store: Store): (Store, bool) {
    var d := SoftwareDirective(fp, r);
    match store
    case NoNode =>
      var specs := if d.Replace? then Specs(r.facts, Packages(d.software), Some(d.hash))
                   else Specs(r.facts, NoKey, None);
      (Node(Some(specs)), SoftwareResendWanted(d, None))
    case Node(specs) =>
      var write := PlanSpecsWrite(r.facts, d, specs);
      (if write.Some? then Node(write) else store, SoftwareResendWanted(d, specs))
  }

  /** The build from before the contract strips the fields it does not know and writes the rest whole. */
  function IngestOld(r: Report): Store {
    Node(Some(Specs(r.facts, if r.software.Some? then Packages(r.software.value) else NoKey, None)))
  }

  function Ingest(fp: Fingerprinter, v: Version, r: Report, store: Store): Store {
    if v.Old? then IngestOld(r) else IngestNew(fp, r, store).0
  }

  /** The part of an acknowledgement that concerns software. */
  function AckBody(fp: Fingerprinter, v: Version, r: Report, store: Store): Json {
    var base := map["accepted" := Bool(true)];
    if v.Old? then Obj(base)
    else if IngestNew(fp, r, store).1 then Obj(base["softwareDelta" := Bool(true)]["softwareResend" := Bool(true)])
    else Obj(base["softwareDelta" := Bool(true)])
  }

  lemma AckSays(fp: Fingerprinter, v: Version, r: Report, store: Store)
    ensures ServerUnderstandsSoftwareDelta(AckBody(fp, v, r, store)) <==> v.New?
    ensures Field(AckBody(fp, v, r, store), "softwareResend") == Some(Bool(true))
            <==> v.New? && IngestNew(fp, r, store).1
  {
    assert |"accepted"| == 8 && |"softwareDelta"| == 13 && |"softwareResend"| == 14;
  }

  /** A fingerprint beside a stored list is that list's fingerprint, and there is none without a list. */
  ghost predicate ConsistentSpecs(fp: Fingerprinter, s: Specs) {
    s.hash.Some? ==> s.software.Packages? && fp(s.software.list) == s.hash.value
  }

  ghost predicate Consistent(fp: Fingerprinter, store: Store) {
    store.Node? && store.specs.Some? ==> ConsistentSpecs(fp, store.specs.value)
  }

  /** The node holds a list with this fingerprint and can corroborate it. */
  ghost predicate Describes(fp: Fingerprinter, h: string, store: Store) {
    && store.Node? && store.specs.Some?
    && store.specs.value.software.Packages?
    && fp(store.specs.value.software.list) == h
    && store.specs.value.hash == Some(h)
  }

  /** The node holds `list`, up to lists the fingerprint does not tell apart. */
  ghost predicate StoresList(fp: Fingerprinter, list: Software, store: Store) {
    && store.Node? && store.specs.Some?
    && store.specs.value.software.Packages?
    && fp(store.specs.value.software.list) == fp(list)
  }

  lemma IngestKeepsConsistent(fp: Fingerprinter, v: Version, r: Report, store: Store)
    requires Consistent(fp, store)
    ensures Consistent(fp, Ingest(fp, v, r, store))
  {
  }

  /** What each answer does to the stored list in the current build, skipped write or not. */
  lemma NewServerObeysTheDirective(fp: Fingerprinter, r: Report, store: Store)
    requires Consistent(fp, store)
    ensures
      var d := SoftwareDirective(fp, r);
      var after := IngestNew(fp, r, store).0;
      && after.Node?
      && (d.Replace? ==> Describes(fp, fp(d.software), after))
      && (d.Clear? ==> !HasSoftware(after.specs) && StoredHash(after.specs) == None)
      && (d.Preserve? && store.Node? && HasSoftware(store.specs) ==>
            && after.specs.Some?
            && after.specs.value.software == store.specs.value.software
            && after.specs.value.hash == store.specs.value.hash)
      && (d.Preserve? && !(store.Node? && HasSoftware(store.specs)) ==>
            !HasSoftware(after.specs) && StoredHash(after.specs) == None)
  {
  }

  /** An omission is answered by a resend request exactly when the server cannot corroborate it. */
  lemma ResendIffUncorroborated(fp: Fingerprinter, r: Report, store: Store)
    requires Consistent(fp, store)
    requires r.software.None? && r.state == Some(SaysUnchanged)
    ensures !IngestNew(fp, r, store).1 <==> r.hash.Some? && Describes(fp, r.hash.value, store)
  {
  }

  /** The same for every answer: a list and a clearing ask for nothing, any other only for what is not corroborated. */
  lemma ResendIff(fp: Fingerprinter, r: Report, store: Store)
    requires Consistent(fp, store)
    ensures IngestNew(fp, r, store).1
      <==> && r.software.None? && r.state.Some? && r.state != Some(SaysDisabled)
           && if r.hash.Some? then !Describes(fp, r.hash.value, store) else r.state == Some(SaysUnchanged)
  {
  }

  /**
   Whatever is written carries the facts of the report that came; with them goes the list that came, or, where the
   answer preserves, what the blob held; and nothing, where there is no list to preserve or the answer clears.
   */
  lemma WrittenBlobIs(fp: Fingerprinter, r: Report, specs: Option<Specs>)
    requires PlanSpecsWrite(r.facts, SoftwareDirective(fp, r), specs).Some?
    ensures var b := PlanSpecsWrite(r.facts, SoftwareDirective(fp, r), specs).value;
            && b.facts == r.facts
            && if r.software.Some? then b.software == Packages(r.software.value) && b.hash == Some(fp(r.software.value))
               else if r.state.None? || r.state == Some(SaysDisabled) || specs.None? || specs.value.software.NoKey?
                 then b.software.NoKey? && b.hash == None
               else b.software == specs.value.software && b.hash == specs.value.hash
  {
  }

  /** So the node has the facts of the report, unless the write was skipped; the old build never skips it. */
  lemma FactsAreThoseReported(fp: Fingerprinter, v: Version, r: Report, store: Store)
    ensures var after := Ingest(fp, v, r, store);
            && after.Node? && after.specs.Some?
            && (after.specs.value.facts == r.facts || (v.New? && after == store))
            && (v.Old? ==> after.specs.value.hash == None
                           && after.specs.value.software
                              == if r.software.Some? then Packages(r.software.value) else NoKey)
            && (store.NoNode? ==> after.specs.value.facts == r.facts)
  {
    if v.New? && store.Node? && PlanSpecsWrite(r.facts, SoftwareDirective(fp, r), store.specs).Some? {
      WrittenBlobIs(fp, r, store.specs);
    }
  }

  /** What is stored already says what this answer would have it say. */
  predicate AlreadySays(d: Directive, specs: Specs) {
    match d
    case Replace(_, hash) => !specs.software.NoKey? && specs.hash == Some(hash)
    case Clear => specs.software.NoKey? && specs.hash.None?
    case Preserve(_, _) => specs.software.NoKey? ==> specs.hash.None?
  }

  /**
   Over every stored blob: the current build skips a write exactly when the compared facts are those stored and
   the blob already says what the answer comes to, or when a preserving answer meets a `software` key that is not
   a list. A fingerprint beside anything else than its list can make it skip a list that is not stored.
   */
  lemma WriteIsSkippedIff(fp: Fingerprinter, r: Report, specs: Specs)
    ensures
      var d := SoftwareDirective(fp, r);
      PlanSpecsWrite(r.facts, d, Some(specs)) == None
      <==> || (d.Preserve? && specs.software.NotAList?)
           || (specs.facts.compared == r.facts.compared && AlreadySays(d, specs))
  {
  }

  /** Where the stored fingerprint is that of the stored list, a skipped list is the one stored. */
  lemma SkippedWriteLosesNothing(fp: Fingerprinter, r: Report, specs: Specs)
    requires r.software.Some? && PlanSpecsWrite(r.facts, SoftwareDirective(fp, r), Some(specs)) == None
    ensures ConsistentSpecs(fp, specs) <==> Describes(fp, fp(r.software.value), Node(Some(specs)))
    ensures specs.hash == Some(fp(r.software.value)) && !specs.software.NoKey?
  {
    WriteIsSkippedIff(fp, r, specs);
  }
}
