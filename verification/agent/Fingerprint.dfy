/**
 The shipped fingerprint of a package list: a canonical text, independent of the order the packages were
 listed in, reduced by three 32-bit hashes. Every string comparison is by character.
 */
module Fingerprint {
  import opened Options
  import opened Text
  import opened Splitting
  import opened Permutations
  import opened SoftwareDelta
  import opened InfraReport

  const FIELD_SEPARATOR := '\U{1F}'
  const FIELD_ABSENT := "\U{0}"
  const ENTRY_SEPARATOR := '\U{1E}'

  // ----- the canonical text -----

  function FieldText(value: Option<string>): string {
    if value.Some? then value.value else FIELD_ABSENT
  }

  function Entry(p: Package): string {
    Join([p.name, FieldText(p.version), FieldText(p.source)], FIELD_SEPARATOR)
  }

  function Entries(l: Software): seq<string> {
    Map(Entry, l)
  }

  /** Character order, a proper prefix first. */
  predicate AtMost(a: string, b: string) {
    if a == [] then true
    else if b == [] then false
    else if a[0] == b[0] then AtMost(a[1..], b[1..])
    else a[0] < b[0]
  }

  function Insert(e: string, es: seq<string>): (r: seq<string>)
    ensures multiset(r) == multiset(es) + multiset{e}
  {
    if es == [] then [e]
    else if AtMost(e, es[0]) then [e] + es
    else
      assert es == [es[0]] + es[1..];
      [es[0]] + Insert(e, es[1..])
  }

  function Sort(es: seq<string>): (r: seq<string>)
    ensures multiset(r) == multiset(es)
  {
    if es == [] then []
    else
      assert es == [es[0]] + es[1..];
      Insert(es[0], Sort(es[1..]))
  }

  function CanonicalText(l: Software): string {
    if l == [] then "" else
      assert |multiset(Sort(Entries(l)))| == |l|;
      Join(Sort(Entries(l)), ENTRY_SEPARATOR)
  }

  // ----- the hashes -----

  function CodeUnit(c: char): bv32 {
    c as int as bv32
  }

  function MixStep(h: bv32, unit: bv32): bv32 {
    (h ^ unit) * 16777619
  }

  function Mix(text: string, h: bv32): bv32 {
    if text == [] then h else Mix(text[1..], MixStep(h, CodeUnit(text[0])))
  }

  function XorShift16(h: bv32): bv32 {
    h ^ (h >> 16)
  }

  function XorShift13(h: bv32): bv32 {
    h ^ (h >> 13)
  }

  function FirstFactor(h: bv32): bv32 {
    h * 2246822507
  }

  function SecondFactor(h: bv32): bv32 {
    h * 3266489909
  }

  function Finish(h: bv32): bv32 {
    XorShift16(SecondFactor(XorShift13(FirstFactor(XorShift16(h)))))
  }

  function Hash32(text: string, seed: bv32): bv32 {
    Finish(Mix(text, seed))
  }

  function Digit(n: nat): (c: char)
    requires n < 36
    ensures !IsSpace(c)
  {
    if n < 10 then '0' + n as char else 'a' + (n - 10) as char
  }

  lemma DividingShrinks(n: nat, base: nat)
    requires n > 0 && base >= 2
    ensures n / base < n
  {
  }

  /** Digits of `n` in a base, padded with zeros to `width` of them. */
  function Digits(n: nat, base: nat, width: nat): (s: string)
    requires 2 <= base <= 36
    ensures |s| >= width
    ensures width > 0 ==> s != "" && !IsSpace(s[|s| - 1])
    decreases n, width
  {
    if n == 0 then
      if width == 0 then "" else Digits(0, base, width - 1) + [Digit(0)]
    else
      DividingShrinks(n, base);
      Digits(n / base, base, if width == 0 then 0 else width - 1) + [Digit(n % base)]
  }

  function Fingerprint(l: Software): string {
    var text := CanonicalText(l);
    "1-" + Digits(|l|, 36, 1) + "-"
    + Digits(Hash32(text, 0x811c9dc5) as nat, 16, 8)
    + Digits(Hash32(text, 0x01000193) as nat, 16, 8)
    + Digits(Hash32(text, 0x9e3779b9) as nat, 16, 8)
  }

  // ----- the sorted form is unique -----

  lemma {:induction false} AtMostTotal(a: string, b: string)
    ensures AtMost(a, b) || AtMost(b, a)
    ensures AtMost(a, b) && AtMost(b, a) ==> a == b
  {
    if a != [] && b != [] && a[0] == b[0] {
      AtMostTotal(a[1..], b[1..]);
      assert a == [a[0]] + a[1..] && b == [b[0]] + b[1..];
    }
  }

  lemma {:induction false} AtMostTransitive(a: string, b: string, c: string)
    requires AtMost(a, b) && AtMost(b, c)
    ensures AtMost(a, c)
  {
    if a != [] && a[0] == b[0] && b[0] == c[0] {
      AtMostTransitive(a[1..], b[1..], c[1..]);
    }
  }

  ghost predicate Sorted(es: seq<string>) {
    es != [] ==> (forall e :: e in es[1..] ==> AtMost(es[0], e)) && Sorted(es[1..])
  }

  lemma {:induction false} InsertKeepsSorted(e: string, es: seq<string>)
    requires Sorted(es)
    ensures Sorted(Insert(e, es))
  {
    if es != [] {
      if AtMost(e, es[0]) {
        forall x | x in es ensures AtMost(e, x) {
          if x != es[0] { AtMostTransitive(e, es[0], x); }
        }
        assert ([e] + es)[1..] == es;
      } else {
        AtMostTotal(e, es[0]);
        InsertKeepsSorted(e, es[1..]);
        var rest := Insert(e, es[1..]);
        forall x | x in rest ensures AtMost(es[0], x) {
          assert x in multiset(rest);
          assert x == e || x in multiset(es[1..]);
        }
        assert ([es[0]] + rest)[1..] == rest;
      }
    }
  }

  lemma {:induction false} SortSorts(es: seq<string>)
    ensures Sorted(Sort(es))
  {
    if es != [] {
      SortSorts(es[1..]);
      InsertKeepsSorted(es[0], Sort(es[1..]));
    }
  }

  lemma {:induction false} SortedIsUnique(a: seq<string>, b: seq<string>)
    requires Sorted(a) && Sorted(b) && multiset(a) == multiset(b)
    ensures a == b
  {
    SameMultisetSameLength(a, b);
    if a != [] {
      SameLeast(a, b);
      RemoveSame(a, 0, b, 0);
      assert RemoveAt(a, 0) == a[1..] && RemoveAt(b, 0) == b[1..];
      SortedIsUnique(a[1..], b[1..]);
      assert a == [a[0]] + a[1..] && b == [b[0]] + b[1..];
    }
  }

  lemma SameLeast(a: seq<string>, b: seq<string>)
    requires Sorted(a) && Sorted(b) && a != [] && b != [] && multiset(a) == multiset(b)
    ensures a[0] == b[0]
  {
    AtMostTotal(a[0], b[0]);
    assert a[0] in multiset(b) && b[0] in multiset(a);
    assert a == [a[0]] + a[1..] && b == [b[0]] + b[1..];
  }

  // ----- order independence -----

  /** Listing the same packages in another order changes neither the text nor the fingerprint. */
  lemma FingerprintIgnoresOrder(a: Software, b: Software)
    requires multiset(a) == multiset(b)
    ensures CanonicalText(a) == CanonicalText(b) && Fingerprint(a) == Fingerprint(b)
  {
    assert |a| == |multiset(a)| == |multiset(b)| == |b|;
    MapPermutes(Entry, a, b);
    SortSorts(Entries(a));
    SortSorts(Entries(b));
    SortedIsUnique(Sort(Entries(a)), Sort(Entries(b)));
  }

  // ----- the text tells different inventories apart -----

  /** No separator inside a string, and no present field that looks like an absent one. */
  predicate PlainString(s: string) {
    FIELD_SEPARATOR !in s && ENTRY_SEPARATOR !in s
  }

  predicate PlainPackage(p: Package) {
    && PlainString(p.name)
    && (p.version.Some? ==> PlainString(p.version.value) && p.version.value != FIELD_ABSENT)
    && (p.source.Some? ==> PlainString(p.source.value) && p.source.value != FIELD_ABSENT)
  }

  lemma EntryText(p: Package)
    ensures Entry(p) == p.name + [FIELD_SEPARATOR] + FieldText(p.version) + [FIELD_SEPARATOR] + FieldText(p.source)
  {
    var parts := [p.name, FieldText(p.version), FieldText(p.source)];
    assert parts[1..] == [FieldText(p.version), FieldText(p.source)];
    assert parts[1..][1..] == [FieldText(p.source)];
    assert Join(parts[1..], FIELD_SEPARATOR) == FieldText(p.version) + [FIELD_SEPARATOR] + FieldText(p.source);
  }

  lemma EntrySplits(p: Package)
    ensures Split(Entry(p), FIELD_SEPARATOR)
      == Split(p.name, FIELD_SEPARATOR) + Split(FieldText(p.version), FIELD_SEPARATOR)
         + Split(FieldText(p.source), FIELD_SEPARATOR)
  {
    EntryText(p);
    SplitAround(p.name + [FIELD_SEPARATOR] + FieldText(p.version), FieldText(p.source), FIELD_SEPARATOR);
    SplitAround(p.name, FieldText(p.version), FIELD_SEPARATOR);
  }

  lemma PlainEntrySplits(p: Package)
    requires PlainPackage(p)
    ensures Split(Entry(p), FIELD_SEPARATOR) == [p.name, FieldText(p.version), FieldText(p.source)]
  {
    EntrySplits(p);
    SplitWhole(p.name, FIELD_SEPARATOR);
    SplitWhole(FieldText(p.version), FIELD_SEPARATOR);
    SplitWhole(FieldText(p.source), FIELD_SEPARATOR);
  }

  lemma EntryIsInjective(p: Package, q: Package)
    requires PlainPackage(p) && PlainPackage(q) && Entry(p) == Entry(q)
    ensures p == q
  {
    PlainEntrySplits(p);
    PlainEntrySplits(q);
    var parts := Split(Entry(p), FIELD_SEPARATOR);
    assert parts[0] == q.name && parts[1] == FieldText(q.version) && parts[2] == FieldText(q.source);
  }

  lemma EntryIsPlain(p: Package)
    requires PlainPackage(p)
    ensures Entry(p) != "" && ENTRY_SEPARATOR !in Entry(p)
  {
    var parts := [p.name, FieldText(p.version), FieldText(p.source)];
    assert Entry(p) == parts[0] + [FIELD_SEPARATOR] + Join(parts[1..], FIELD_SEPARATOR);
    assert Join(parts[1..], FIELD_SEPARATOR) == parts[1] + [FIELD_SEPARATOR] + Join(parts[2..], FIELD_SEPARATOR);
  }

  lemma SortedEntriesArePlain(l: Software)
    requires forall p :: p in l ==> PlainPackage(p)
    ensures forall e :: e in Sort(Entries(l)) ==> e != "" && ENTRY_SEPARATOR !in e
    ensures |Sort(Entries(l))| == |l|
  {
    SameMultisetSameLength(Sort(Entries(l)), Entries(l));
    forall e | e in Sort(Entries(l)) ensures e != "" && ENTRY_SEPARATOR !in e {
      assert e in multiset(Entries(l));
      var i :| 0 <= i < |l| && Entries(l)[i] == e;
      assert l[i] in l;
      EntryIsPlain(l[i]);
    }
  }

  /** A joined list of non-empty pieces is never empty, so the empty text is the empty list's alone. */
  lemma TextGivesEntriesBack(l: Software)
    requires forall p :: p in l ==> PlainPackage(p)
    ensures Sort(Entries(l)) == if CanonicalText(l) == "" then [] else Split(CanonicalText(l), ENTRY_SEPARATOR)
  {
    SortedEntriesArePlain(l);
    if l != [] {
      var s := Sort(Entries(l));
      SplitJoin(s, ENTRY_SEPARATOR);
      assert s[0] in s;
    }
  }

  lemma SameTextSameEntries(a: Software, b: Software)
    requires forall p :: p in a ==> PlainPackage(p)
    requires forall p :: p in b ==> PlainPackage(p)
    requires CanonicalText(a) == CanonicalText(b)
    ensures multiset(Entries(a)) == multiset(Entries(b))
  {
    TextGivesEntriesBack(a);
    TextGivesEntriesBack(b);
    assert multiset(Sort(Entries(a))) == multiset(Entries(a));
    assert multiset(Sort(Entries(b))) == multiset(Entries(b));
  }

  lemma PlainCount(l: Software, x: Package)
    requires PlainPackage(x) && forall p :: p in l ==> PlainPackage(p)
    ensures multiset(Entries(l))[Entry(x)] == multiset(l)[x]
  {
    forall i | 0 <= i < |l| && Entry(l[i]) == Entry(x) ensures l[i] == x {
      EntryIsInjective(l[i], x);
    }
    MapCount(Entry, l, x);
  }

  /** For packages free of the separators, two lists share a text exactly when they list the same packages. */
  lemma TextIdentifiesInventory(a: Software, b: Software)
    requires forall p :: p in a ==> PlainPackage(p)
    requires forall p :: p in b ==> PlainPackage(p)
    ensures CanonicalText(a) == CanonicalText(b) <==> multiset(a) == multiset(b)
  {
    if multiset(a) == multiset(b) {
      FingerprintIgnoresOrder(a, b);
    }
    if CanonicalText(a) == CanonicalText(b) {
      SameTextSameEntries(a, b);
      forall x ensures multiset(a)[x] == multiset(b)[x] {
        if PlainPackage(x) {
          PlainCount(a, x);
          PlainCount(b, x);
        } else {
          assert x !in a && x !in b;
        }
      }
    }
  }

  // ----- lists with the same entries -----

  lemma ReplacedDiffers<T>(s: seq<T>, k: nat, x: T)
    requires k < |s| && x != s[k]
    ensures multiset(s[k := x]) != multiset(s)
  {
    assert multiset(s[k := x])[x] == multiset(s)[x] + 1;
  }

  lemma SameEntries(a: Software, b: Software)
    requires |a| == |b| && forall i :: 0 <= i < |a| ==> Entry(a[i]) == Entry(b[i])
    ensures CanonicalText(a) == CanonicalText(b) && Fingerprint(a) == Fingerprint(b)
  {
    assert Entries(a) == Entries(b);
  }

  lemma SortTwo(e: string, g: string)
    requires e != "" && g != "" && e[0] < g[0]
    ensures Sort([e, g]) == [e, g] && Join([e, g], ENTRY_SEPARATOR) == e + [ENTRY_SEPARATOR] + g
  {
    assert [e, g][1..] == [g] && [g][1..] == [];
    assert Sort([g]) == [g];
    assert Insert(e, [g]) == [e] + [g] == [e, g];
  }

  lemma TextOfTwo(p: Package, q: Package)
    requires p.name != "" && q.name != "" && p.name[0] < q.name[0]
    ensures CanonicalText([p, q]) == Entry(p) + [ENTRY_SEPARATOR] + Entry(q)
  {
    OpensWithName(p);
    OpensWithName(q);
    assert Entries([p, q]) == [Entry(p), Entry(q)];
    SortTwo(Entry(p), Entry(q));
  }

  lemma OpensWithName(p: Package)
    requires p.name != ""
    ensures Entry(p) != "" && Entry(p)[0] == p.name[0]
  {
    EntryText(p);
  }

  // ----- the shipped fingerprint is one the protocol's results apply to -----

  function Power(base: nat, e: nat): nat {
    if e == 0 then 1 else base * Power(base, e - 1)
  }

  lemma {:induction false} DigitsAreShort(n: nat, base: nat, width: nat, bound: nat)
    requires 2 <= base <= 36 && n < Power(base, bound) && width <= bound
    ensures |Digits(n, base, width)| <= bound
    decreases bound
  {
    if !(n == 0 && width == 0) {
      assert bound > 0;
      QuotientBound(n, base, Power(base, bound - 1));
      DigitsAreShort(n / base, base, if width == 0 then 0 else width - 1, bound - 1);
    }
  }

  lemma QuotientBound(n: nat, base: nat, p: nat)
    requires base >= 2 && n < base * p
    ensures n / base < p
  {
  }

  lemma FingerprintIsUsable(l: Software)
    ensures Fingerprint(l) != "" && Trimmed(Fingerprint(l))
  {
    var f := Fingerprint(l);
    assert f[0] == '1';
    var last := Digits(Hash32(CanonicalText(l), 0x9e3779b9) as nat, 16, 8);
    assert f[|f| - 1] == last[|last| - 1];
  }

  lemma HexFits(h: bv32)
    ensures |Digits(h as nat, 16, 8)| <= 8
  {
    assert Power(16, 2) == 256;
    assert Power(16, 4) == 0x1_0000;
    assert Power(16, 6) == 0x100_0000;
    assert Power(16, 8) == 0x1_0000_0000;
    DigitsAreShort(h as nat, 16, 8, 8);
  }

  lemma CountFits(n: nat)
    requires n <= SOFTWARE_LIST_MAX
    ensures |Digits(n, 36, 1)| <= 3
  {
    assert Power(36, 1) == 36;
    assert Power(36, 3) == 46656;
    DigitsAreShort(n, 36, 1, 3);
  }

  /** On every list the report schema admits, the fingerprint fits the schema's bound unchanged. */
  lemma FingerprintSurvivesTheSchema(l: Software)
    requires |l| <= SOFTWARE_LIST_MAX
    ensures ParseHash(Fingerprint(l)) == Some(Fingerprint(l))
  {
    FingerprintIsUsable(l);
    TrimKeepsTrimmed(Fingerprint(l));
    var text := CanonicalText(l);
    CountFits(|l|);
    HexFits(Hash32(text, 0x811c9dc5));
    HexFits(Hash32(text, 0x01000193));
    HexFits(Hash32(text, 0x9e3779b9));
  }

  /** The shipped fingerprint, as the kind of function every protocol result is stated for. */
  ghost function Shipped(): (fp: Fingerprinter)
    ensures forall l: Software :: fp(l) == Fingerprint(l)
  {
    forall l: Software {
      FingerprintIsUsable(l);
    }
    (l: Software) => Fingerprint(l)
  }
}
