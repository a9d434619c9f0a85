/**
 The dev bootstrap's edits of the two `.env` files, applied one after another. Each edit of a key is followed
 through `About`, the lines that have to do with that key; edits of other keys do not change it.
 */
module DevEnv {
  import opened Filtering
  import opened EnvLines

  predicate Concerns(line: string, key: string) {
    Settable(line, key) || Active(line, key)
  }

  function ConcernsKey(key: string): string -> bool {
    line => Concerns(line, key)
  }

  /** The lines that set the key, would set it, or mention it behind a comment sign, in order. */
  function About(lines: seq<string>, key: string): seq<string> {
    Filter(lines, ConcernsKey(key))
  }

  lemma BlankConcernsNothing(key: string)
    requires IsKey(key)
    ensures !Concerns("", key)
  {
  }

  lemma AboutAppended(lines: seq<string>, line: string, key: string)
    requires IsKey(key) && lines != []
    ensures About(lines + Gap(lines) + [line], key) == About(lines, key) + About([line], key)
  {
    BlankConcernsNothing(key);
    FilterOne("", ConcernsKey(key));
    FilterConcat(lines, Gap(lines), ConcernsKey(key));
    FilterConcat(lines + Gap(lines), [line], ConcernsKey(key));
  }

  // ----- edits of other keys -----

  /** Setting one key leaves the lines of every other key as they were. */
  lemma SetKeepsOthers(lines: seq<string>, j: string, value: string, k: string)
    requires IsKey(j) && IsKey(k) && j != k && lines != []
    ensures About(SetKey(lines, j, value), k) == About(lines, k)
  {
    var i, line := FirstSettable(lines, j), Assignment(j, value);
    AssignmentSets(j, value);
    OneKeyPerLine(line, j, k);
    FilterOne(line, ConcernsKey(k));
    if i < |lines| {
      OneKeyPerLine(lines[i], j, k);
      ReplaceDropped(lines, i, line, ConcernsKey(k));
    } else {
      AboutAppended(lines, line, k);
    }
  }

  /** Commenting one key out leaves the lines of every other key as they were. */
  lemma {:induction false} CommentKeepsOthers(lines: seq<string>, j: string, k: string)
    requires IsKey(j) && IsKey(k) && j != k
    ensures About(CommentOut(lines, j), k) == About(lines, k)
  {
    if lines != [] {
      CommentKeepsOthers(lines[1..], j, k);
      if Active(lines[0], j) {
        CommentedLine(lines[0], j);
        OneKeyPerLine(lines[0], j, k);
        OneKeyPerLine(CommentLine(lines[0], j), j, k);
      }
    }
  }

  // ----- an edit of the key itself -----

  /** The lines about a key once it is set: the first that could be set is replaced, or one is added at the end. */
  lemma SetIsAbout(lines: seq<string>, key: string, value: string)
    requires IsKey(key) && lines != []
    ensures var about, line := About(lines, key), Assignment(key, value);
            var i := FirstSettable(about, key);
            About(SetKey(lines, key, value), key) == if i < |about| then about[i := line] else about + [line]
  {
    var line := Assignment(key, value);
    AssignmentSets(key, value);
    FilterOne(line, ConcernsKey(key));
    FirstInFilter(lines, ConcernsKey(key), SetsKey(key));
    if FirstSettable(lines, key) < |lines| {
      ReplaceInFilter(lines, line, ConcernsKey(key), SetsKey(key));
    } else {
      AboutAppended(lines, line, key);
    }
  }

  /** Setting a key to the value it has changes nothing. */
  lemma SetStays(lines: seq<string>, key: string, value: string)
    requires IsKey(key) && lines != []
    requires var about := About(lines, key); var i := FirstSettable(about, key);
             i < |about| && about[i] == Assignment(key, value)
    ensures SetKey(lines, key, value) == lines
  {
    FirstInFilter(lines, ConcernsKey(key), SetsKey(key));
  }

  lemma SetIsSet(lines: seq<string>, key: string, value: string)
    requires IsKey(key) && lines != []
    ensures var about := About(SetKey(lines, key, value), key); var i := FirstSettable(about, key);
            i < |about| && about[i] == Assignment(key, value)
  {
    var about, line := About(lines, key), Assignment(key, value);
    var i := FirstSettable(about, key);
    SetIsAbout(lines, key, value);
    AssignmentSets(key, value);
    var after := About(SetKey(lines, key, value), key);
    FirstIndexIs(after, SetsKey(key), i);
  }

  /** Setting a key twice to the same value is setting it once. */
  lemma SetIdempotent(lines: seq<string>, key: string, value: string)
    requires IsKey(key) && lines != []
    ensures SetKey(SetKey(lines, key, value), key, value) == SetKey(lines, key, value)
  {
    SetIsSet(lines, key, value);
    SetStays(SetKey(lines, key, value), key, value);
  }

  predicate NoneActive(lines: seq<string>, key: string) {
    forall k :: 0 <= k < |lines| ==> !Active(lines[k], key)
  }

  /** Once a key is commented out no line sets it, and commenting it out again changes nothing. */
  lemma CommentedOut(lines: seq<string>, key: string)
    requires IsKey(key)
    ensures NoneActive(CommentOut(lines, key), key)
    ensures CommentOut(CommentOut(lines, key), key) == CommentOut(lines, key)
  {
    CommentedEach(lines, key);
    CommentedEach(CommentOut(lines, key), key);
    forall k | 0 <= k < |lines|
      ensures !Active(CommentLine(lines[k], key), key)
    {
      if Active(lines[k], key) {
        CommentedLine(lines[k], key);
      }
    }
  }

  lemma {:induction false} NoneActiveAbout(lines: seq<string>, key: string)
    ensures NoneActive(lines, key) <==> NoneActive(About(lines, key), key)
  {
    if lines != [] {
      NoneActiveAbout(lines[1..], key);
      var about := About(lines, key);
      if Concerns(lines[0], key) {
        assert about[0] == lines[0] && about[1..] == About(lines[1..], key);
      }
      assert NoneActive(lines, key) <==> !Active(lines[0], key) && NoneActive(lines[1..], key);
    }
  }

  // ----- how many lines set a key -----

  function SettingLines(lines: seq<string>, key: string): seq<string> {
    Filter(lines, ActiveKey(key))
  }

  function ActiveKey(key: string): string -> bool {
    line => Active(line, key)
  }

  lemma {:induction false} NoneSetting(lines: seq<string>, key: string)
    ensures SettingLines(lines, key) == [] <==> NoneActive(lines, key)
  {
    if lines != [] {
      NoneSetting(lines[1..], key);
    }
  }

  lemma SettingAfterReplace(lines: seq<string>, i: nat, key: string, value: string)
    requires IsKey(key) && i < |lines|
    ensures |SettingLines(lines[i := Assignment(key, value)], key)| == 1
      <==> NoneActive(lines[..i], key) && NoneActive(lines[i + 1..], key)
  {
    AssignmentSets(key, value);
    FilterOne(Assignment(key, value), ActiveKey(key));
    FilterAround(lines, i, Assignment(key, value), ActiveKey(key));
    NoneSetting(lines[..i], key);
    NoneSetting(lines[i + 1..], key);
  }

  lemma SettingAfterAppend(lines: seq<string>, key: string, value: string)
    requires IsKey(key) && lines != []
    ensures |SettingLines(lines + Gap(lines) + [Assignment(key, value)], key)| == 1 <==> NoneActive(lines, key)
  {
    AssignmentSets(key, value);
    BlankConcernsNothing(key);
    FilterOne(Assignment(key, value), ActiveKey(key));
    FilterOne("", ActiveKey(key));
    FilterConcat(lines, Gap(lines), ActiveKey(key));
    FilterConcat(lines + Gap(lines), [Assignment(key, value)], ActiveKey(key));
    NoneSetting(lines, key);
  }

  lemma NoneActiveAround(lines: seq<string>, i: nat, key: string)
    requires i < |lines|
    ensures NoneActive(lines[..i], key) && NoneActive(lines[i + 1..], key)
      <==> forall k :: 0 <= k < |lines| && k != i ==> !Active(lines[k], key)
  {
    var tail := lines[i + 1..];
    assert forall k :: i < k < |lines| ==> lines[k] == tail[k - i - 1];
    assert forall k :: 0 <= k < |tail| ==> tail[k] == lines[k + i + 1];
  }

  /**
   After a key is set exactly one line sets it, if and only if no line other than the one that was replaced did
   so before. A line of its own that is indented, or that stands after the replaced one, stays.
   */
  lemma OneLineSetsIff(lines: seq<string>, key: string, value: string)
    requires IsKey(key) && lines != []
    ensures |SettingLines(SetKey(lines, key, value), key)| == 1
      <==> forall k :: 0 <= k < |lines| && k != FirstSettable(lines, key) ==> !Active(lines[k], key)
  {
    var i := FirstSettable(lines, key);
    if i < |lines| {
      SettingAfterReplace(lines, i, key, value);
      NoneActiveAround(lines, i, key);
    } else {
      SettingAfterAppend(lines, key, value);
    }
  }

  /** An indented line is not replaced, and a line after a commented one is not either. */
  lemma TwoLinesCanSet(key: string, a: string, b: string)
    requires IsKey(key)
    ensures |SettingLines(SetKey([" " + Assignment(key, a)], key, b), key)| != 1
  {
    var line := " " + Assignment(key, a);
    IndentedIsActive(key, a);
    OneLineSetsIff([line], key, b);
    assert FirstSettable([line], key) == 1;
    assert Active([line][0], key);
  }

  lemma IndentedIsActive(key: string, a: string)
    requires IsKey(key)
    ensures Active(" " + Assignment(key, a), key) && !Settable(" " + Assignment(key, a), key)
  {
    var line := " " + Assignment(key, a);
    AssignmentSets(key, a);
    SignAndSpace();
    assert line[1..] == Assignment(key, a);
    assert line[1] == key[0];
    LeadingIs(line, 1);
    KeyBehind(" ", Assignment(key, a), key, 0);
    assert line[0..|key|][0] == ' ';
  }
}
