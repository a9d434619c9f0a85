/**
 The two editor helpers that complete an open token, and their round trip with the scanners that later read
 what they wrote. The scanners are applied to the edited text itself; how Markdown cuts a text into text
 nodes is not part of this model.
 */
module Editor {
  import opened Options
  import opened Text
  import opened Hast
  import opened Patterns
  import opened Scanner
  import opened Tokens

  datatype Picker = LinkPicker | ChipPicker

  datatype Edit = Edit(value: string, caret: nat)

  const TRIGGER := "{{ " + SECRET

  function Trigger(p: Picker): (t: string)
    ensures |t| >= 2
  {
    match p
    case LinkPicker => "[["
    case ChipPicker => TRIGGER
  }

  function Closing(p: Picker): string {
    match p
    case LinkPicker => "]]"
    case ChipPicker => " }}"
  }

  /** A character that means the token is closed or broken. */
  predicate Breaks(p: Picker, c: char) {
    || c == '\n' || c == '\r'
    || (match p
        case LinkPicker => c == ']' || c == '['
        case ChipPicker => c == '{' || c == '}')
  }

  predicate Unbroken(p: Picker, s: string) {
    forall k :: 0 <= k < |s| ==> !Breaks(p, s[k])
  }

  /** Where the token the caret sits in was opened. */
  function OpenAt(p: Picker, text: string, caret: nat): (at: Option<nat>)
    ensures at.Some? ==> HasAt(text, Trigger(p), at.value)
  {
    match LastIndexOf(text, Trigger(p), caret - 1)
    case None => None
    case Some(open) => if Unbroken(p, Slice(text, open + |Trigger(p)|, caret)) then Some(open) else None
  }

  function ActiveQuery(p: Picker, text: string, caret: nat): Option<string> {
    match OpenAt(p, text, caret)
    case None => None
    case Some(open) => Some(Slice(text, open + |Trigger(p)|, caret))
  }

  function Insertion(p: Picker, choice: string): string {
    Trigger(p) + choice + Closing(p)
  }

  function Apply(p: Picker, text: string, caret: nat, choice: string): Option<Edit> {
    match OpenAt(p, text, caret)
    case None => None
    case Some(open) =>
      Some(Edit(text[..open] + Insertion(p, choice) + Slice(text, caret, |text|), open + |Insertion(p, choice)|))
  }

  lemma LastIs(s: string, piece: string, at: nat, k: nat)
    requires k <= at && HasAt(s, piece, k)
    requires forall j :: k < j <= at ==> !HasAt(s, piece, j)
    ensures LastAt(s, piece, at) == Some(k)
  {
  }

  /** The last place before the caret where a token opens; with the caret at the very start, that place itself. */
  ghost predicate LastTriggerBefore(p: Picker, text: string, caret: nat, k: nat) {
    && (k < caret || k == caret == 0)
    && HasAt(text, Trigger(p), k)
    && forall j :: k < j < caret ==> !HasAt(text, Trigger(p), j)
  }

  /**
   For every text and caret: the caret is in a token that opened at `k` exactly when that is the last trigger
   before the caret, and nothing from its end to the caret is a line break or a bracket, or brace, of its kind.
   */
  lemma OpenAtIff(p: Picker, text: string, caret: nat, k: nat)
    ensures OpenAt(p, text, caret) == Some(k)
      <==> LastTriggerBefore(p, text, caret, k)
           && forall j :: k + |Trigger(p)| <= j < |text| && j < caret
                          ==> text[j] !in if p.LinkPicker? then "\n\r[]" else "\n\r{}"
  {
    if LastTriggerBefore(p, text, caret, k) {
      LastIs(text, Trigger(p), if caret == 0 then 0 else caret - 1, k);
    }
    if LastIndexOf(text, Trigger(p), caret - 1) == Some(k) {
      UnbrokenSlice(p, text, k + |Trigger(p)|, caret);
    }
  }

  lemma UnbrokenSlice(p: Picker, text: string, lo: nat, hi: nat)
    ensures Unbroken(p, Slice(text, lo, hi))
      <==> forall j :: lo <= j < |text| && j < hi ==> text[j] !in if p.LinkPicker? then "\n\r[]" else "\n\r{}"
  {
    var between := Slice(text, lo, hi);
    if Unbroken(p, between) {
      forall j | lo <= j < |text| && j < hi ensures text[j] !in if p.LinkPicker? then "\n\r[]" else "\n\r{}" {
        assert between[j - lo] == text[j];
      }
    }
    forall k | 0 <= k < |between| ensures between[k] == text[lo + k] {
    }
  }

  /** What a picker can offer: a slug without the characters that mean something in a link, or a handle. */
  predicate Offered(p: Picker, choice: string) {
    && choice != ""
    && (match p
        case LinkPicker => forall k :: 0 <= k < |choice| ==> choice[k] !in {'[', ']', '|', '#'}
        case ChipPicker => All(Handle, choice))
  }

  /**
   An edit removes the trigger and the query the reader has typed, and nothing else, exactly when the caret
   is not inside the trigger; the code does not exclude a caret that is.
   */
  lemma ReplacesTheTokenIffCaretIsPastTheTrigger(p: Picker, text: string, caret: nat)
    requires caret <= |text| && OpenAt(p, text, caret).Some?
    ensures var open := OpenAt(p, text, caret).value;
            text == text[..open] + Trigger(p) + ActiveQuery(p, text, caret).value + text[caret..]
            <==> open + |Trigger(p)| <= caret
  {
    CutsMeetIff(text, Trigger(p), OpenAt(p, text, caret).value, caret);
  }

  lemma CutsMeetIff(text: string, trigger: string, open: nat, caret: nat)
    requires HasAt(text, trigger, open) && caret <= |text|
    ensures text == text[..open] + trigger + Slice(text, open + |trigger|, caret) + text[caret..]
      <==> open + |trigger| <= caret
  {
    var end := open + |trigger|;
    if end <= caret {
      assert text == text[..open] + text[open..end] + text[end..caret] + text[caret..];
    }
  }

  /** A caret that the code does not exclude: between the two brackets, one of them stays behind the link. */
  lemma CaretInsideTheTrigger(slug: string)
    ensures Apply(LinkPicker, "[[", 1, slug) == Some(Edit("[[" + slug + "]]" + "[", 4 + |slug|))
  {
    assert LastIndexOf("[[", "[[", 0) == Some(0);
    assert Slice("[[", 2, 1) == "" && Slice("[[", 1, 2) == "[";
    assert OpenAt(LinkPicker, "[[", 1) == Some(0);
    assert "[["[..0] + Insertion(LinkPicker, slug) == "[[" + slug + "]]";
  }

  // ----- what was inserted is one token, and carries the choice -----

  function PassOf(p: Picker, slugify: string -> string): Pass {
    match p
    case LinkPicker => WikiLinks(slugify)
    case ChipPicker => SecretChips
  }

  /** The element that shows `choice`; a link is labelled with the choice without white space at its ends. */
  function Shown(p: Picker, slugify: string -> string, choice: string): Node {
    match p
    case LinkPicker =>
      Element(WikiLink, map["slug" := Str(slugify(choice)), "label" := Str(Trim(choice))], [Node.Text(Trim(choice))])
    case ChipPicker => Element(SecretChip, map["handle" := Str(choice)], [Node.Text(Insertion(p, choice))])
  }

  lemma LinkMints(slugify: string -> string, slug: string)
    requires Offered(LinkPicker, slug) && slugify(slug) != ""
    ensures Matches(WikiPattern(), Insertion(LinkPicker, slug))
    ensures Mint(WikiLinks(slugify), Insertion(LinkPicker, slug)) == Some(Shown(LinkPicker, slugify, slug))
  {
    assert NoBrackets(slug);
    LinkCaptures(slugify, slug);
    assert BodyOf(slug, "", None) == slug;
    LinkMeans(slugify, slug, "", None);
  }

  lemma ChipMints(slugify: string -> string, handle: string)
    requires Offered(ChipPicker, handle)
    ensures Matches(ChipPattern(), Insertion(ChipPicker, handle))
    ensures Mint(SecretChips, Insertion(ChipPicker, handle)) == Some(Shown(ChipPicker, slugify, handle))
  {
    assert Insertion(ChipPicker, handle) == ChipText(" ", handle, " ");
    ChipMatches(" ", handle, " ");
    ChipMeans(" ", handle, " ");
  }

  lemma InsertionMints(p: Picker, slugify: string -> string, choice: string)
    requires Offered(p, choice) && (p.LinkPicker? ==> slugify(choice) != "")
    ensures Matches(PatternOf(PassOf(p, slugify)), Insertion(p, choice))
    ensures Mint(PassOf(p, slugify), Insertion(p, choice)) == Some(Shown(p, slugify, choice))
  {
    match p
    case LinkPicker => LinkMints(slugify, choice);
    case ChipPicker => ChipMints(slugify, choice);
  }

  /**
   Whatever surrounds it, stray or unclosed brackets included, the accepted suggestion is read back by the
   scanner as one element, at the place it was written, that shows exactly the choice.
   */
  lemma AcceptedChoiceIsReadBack(p: Picker, slugify: string -> string, text: string, caret: nat, choice: string)
    requires OpenAt(p, text, caret).Some? && Offered(p, choice) && (p.LinkPicker? ==> slugify(choice) != "")
    ensures var open, edit := OpenAt(p, text, caret).value, Apply(p, text, caret, choice).value;
            Cut(open, edit.caret, Some(Shown(p, slugify, choice))) in Cuts(RuleOf(PassOf(p, slugify)), edit.value)
  {
    var r := RuleOf(PassOf(p, slugify));
    var open, edit := OpenAt(p, text, caret).value, Apply(p, text, caret, choice).value;
    InsertionMints(p, slugify, choice);
    assert edit.value[open..edit.caret] == Insertion(p, choice);
    ScanFinds(r.pattern, edit.value, open, edit.caret);
    assert Usable(r, edit.value, open, edit.caret);
    var k := MintedAt(r, edit.value, open, edit.caret);
    assert Cuts(r, edit.value)[k] == Cut(open, edit.caret, Some(Shown(p, slugify, choice)));
  }

  // ----- the new caret -----

  function Opener(p: Picker): char {
    if p.LinkPicker? then '[' else '{'
  }

  lemma TriggerOpens(p: Picker)
    ensures Trigger(p)[0] == Opener(p) && Trigger(p)[1] == Opener(p)
    ensures forall k :: 2 <= k < |Trigger(p)| ==> Trigger(p)[k] != Opener(p)
  {
    forall k | 3 <= k < |TRIGGER|
      ensures TRIGGER[k] != '{'
    {
      SecretIsPlain(k - 3);
      assert TRIGGER[k] == SECRET[k - 3];
    }
  }

  lemma CharacterAt(s: string, piece: string, at: nat, k: nat)
    requires HasAt(s, piece, at) && k < |piece|
    ensures s[at + k] == piece[k]
  {
    assert s[at..at + |piece|][k] == s[at + k];
  }

  lemma Joined(front: string, trigger: string, query: string, back: string)
    ensures var text := front + trigger + query + back;
            && HasAt(text, trigger, |front|) && text[..|front|] == front
            && Slice(text, |front| + |trigger|, |front + trigger + query|) == query
            && Slice(text, |front + trigger + query|, |text|) == back
            && (forall i :: 0 <= i < |trigger| ==> text[|front| + i] == trigger[i])
            && (forall i :: 0 <= i < |query| ==> text[|front| + |trigger| + i] == query[i])
            && (back != "" ==> text[|front + trigger + query|] == back[0])
  {
  }

  lemma NoTriggerInQuery(p: Picker, front: string, query: string, back: string, j: nat)
    requires Opener(p) !in query
    requires p.LinkPicker? && query == "" && back != "" ==> back[0] != '['
    requires |front| < j < |front + Trigger(p) + query|
    ensures !HasAt(front + Trigger(p) + query + back, Trigger(p), j)
  {
    var text := front + Trigger(p) + query + back;
    if HasAt(text, Trigger(p), j) {
      Joined(front, Trigger(p), query, back);
      TriggerOpens(p);
      CharacterAt(text, Trigger(p), j, 0);
      CharacterAt(text, Trigger(p), j, 1);
    }
  }

  lemma OpenedAt(p: Picker, text: string, caret: nat, k: nat)
    requires k < caret && LastTriggerBefore(p, text, caret, k)
    requires Unbroken(p, Slice(text, k + |Trigger(p)|, caret))
    ensures OpenAt(p, text, caret) == Some(k)
  {
    LastIs(text, Trigger(p), caret - 1, k);
  }

  lemma TypedQueryOpens(p: Picker, front: string, query: string, back: string)
    requires Unbroken(p, query)
    requires p.LinkPicker? && query == "" && back != "" ==> back[0] != '['
    ensures OpenAt(p, front + Trigger(p) + query + back, |front + Trigger(p) + query|) == Some(|front|)
  {
    var text, caret := front + Trigger(p) + query + back, |front + Trigger(p) + query|;
    Joined(front, Trigger(p), query, back);
    forall j | |front| < j < caret ensures !HasAt(text, Trigger(p), j) {
      NoTriggerInQuery(p, front, query, back, j);
    }
    OpenedAt(p, text, caret, |front|);
  }

  /**
   What has been typed behind a trigger, without a line break or a bracket, or brace, is the query, whatever
   surrounds it; and accepting a choice writes it there. Only behind a bare `[[` must no third bracket stand.
   */
  lemma TypedQueryIsOffered(p: Picker, front: string, query: string, back: string, choice: string)
    requires forall k :: 0 <= k < |query| ==> query[k] !in if p.LinkPicker? then "\n\r[]" else "\n\r{}"
    requires p.LinkPicker? && query == "" && back != "" ==> back[0] != '['
    ensures var text, caret := front + Trigger(p) + query + back, |front + Trigger(p) + query|;
            && ActiveQuery(p, text, caret) == Some(query)
            && Apply(p, text, caret, choice)
               == Some(Edit(front + Insertion(p, choice) + back, |front + Insertion(p, choice)|))
  {
    var text, caret := front + Trigger(p) + query + back, |front + Trigger(p) + query|;
    Joined(front, Trigger(p), query, back);
    TypedQueryOpens(p, front, query, back);
  }

  /** The exception: with the caret behind two of three brackets it is the last two that open. */
  lemma ThirdBracketOpens(front: string, back: string)
    requires back != "" && back[0] == '['
    ensures OpenAt(LinkPicker, front + "[[" + back, |front| + 2) == Some(|front| + 1)
  {
    var text := front + "[[" + back;
    assert text[|front| + 1..|front| + 3] == "[[";
    LastIs(text, "[[", |front| + 1, |front| + 1);
  }

  lemma ClosingBreaks(p: Picker)
    ensures Closing(p) != "" && Breaks(p, Closing(p)[|Closing(p)| - 1])
    ensures forall k :: 0 <= k < |Closing(p)| ==> Closing(p)[k] != Opener(p)
  {
  }

  lemma OpensOnlyAtItsStart(p: Picker, choice: string, k: nat)
    requires Offered(p, choice) && 2 <= k < |Insertion(p, choice)|
    ensures Insertion(p, choice)[k] != Opener(p)
  {
    TriggerOpens(p);
    ClosingBreaks(p);
    var front := |Trigger(p)|;
    if k < front {
      assert Insertion(p, choice)[k] == Trigger(p)[k];
    } else if k < front + |choice| {
      assert Insertion(p, choice)[k] == choice[k - front];
    } else {
      assert Insertion(p, choice)[k] == Closing(p)[k - front - |choice|];
    }
  }

  lemma NoLaterTrigger(p: Picker, value: string, open: nat, choice: string, j: nat)
    requires Offered(p, choice) && HasAt(value, Insertion(p, choice), open)
    requires open < j < open + |Insertion(p, choice)|
    ensures !HasAt(value, Trigger(p), j)
  {
    var ins := Insertion(p, choice);
    if HasAt(value, Trigger(p), j) {
      TriggerOpens(p);
      CharacterAt(value, Trigger(p), j, 0);
      CharacterAt(value, Trigger(p), j, 1);
      var k := if j == open + 1 then 2 else j - open;
      if k < |ins| {
        CharacterAt(value, ins, open, k);
      }
      OpensOnlyAtItsStart(p, choice, k);
    }
  }

  lemma PartsAt(value: string, a: string, b: string, at: nat)
    requires HasAt(value, a + b, at)
    ensures HasAt(value, a, at) && value[at + |a|..at + |a| + |b|] == b
  {
    var end := at + |a + b|;
    SliceOfSlice(value, at, end, 0, |a|);
    SliceOfSlice(value, at, end, |a|, |a + b|);
    assert (a + b)[0..|a|] == a && (a + b)[|a|..|a + b|] == b;
  }

  lemma InsertionStarts(p: Picker, value: string, open: nat, choice: string)
    requires HasAt(value, Insertion(p, choice), open)
    ensures HasAt(value, Trigger(p), open)
    ensures value[open + |Trigger(p)|..open + |Insertion(p, choice)|] == choice + Closing(p)
  {
    assert Insertion(p, choice) == Trigger(p) + (choice + Closing(p));
    PartsAt(value, Trigger(p), choice + Closing(p), open);
  }

  lemma ClosedTokenIsNotOpen(p: Picker, value: string, open: nat, choice: string)
    requires Offered(p, choice) && HasAt(value, Insertion(p, choice), open)
    ensures OpenAt(p, value, open + |Insertion(p, choice)|) == None
  {
    var caret := open + |Insertion(p, choice)|;
    InsertionStarts(p, value, open, choice);
    forall j | open < j <= caret - 1
      ensures !HasAt(value, Trigger(p), j)
    {
      NoLaterTrigger(p, value, open, choice, j);
    }
    LastIs(value, Trigger(p), caret - 1, open);
    ClosingBreaks(p);
    var between := choice + Closing(p);
    assert between[|between| - 1] == Closing(p)[|Closing(p)| - 1];
  }

  lemma InsertionIsThere(front: string, ins: string, back: string)
    ensures HasAt(front + ins + back, ins, |front|)
  {
  }

  /** After the edit the caret is in no open token of its kind, so nothing is offered again. */
  lemma NewCaretIsOutside(p: Picker, text: string, caret: nat, choice: string)
    requires OpenAt(p, text, caret).Some? && Offered(p, choice)
    ensures var edit := Apply(p, text, caret, choice).value; ActiveQuery(p, edit.value, edit.caret) == None
  {
    var open := OpenAt(p, text, caret).value;
    var front, back := text[..open], Slice(text, caret, |text|);
    InsertionIsThere(front, Insertion(p, choice), back);
    ClosedTokenIsNotOpen(p, front + Insertion(p, choice) + back, open, choice);
  }
}
