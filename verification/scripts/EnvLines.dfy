/**
 The two edits of an `.env` text, line by line. `Settable` is the pattern by which a line is replaced and
 `Active` the one by which a line is commented out; they differ on an indented line.
 */
module EnvLines {
  import opened Options
  import opened Text
  import opened Filtering

  /** A key name: no white space, no `=` and no `#`. */
  ghost predicate IsKey(key: string) {
    key != "" && forall k :: 0 <= k < |key| ==> !IsSpace(key[k]) && key[k] != '=' && key[k] != '#'
  }

  /** `key`, optional white space and `=` at position `i`. */
  predicate KeyAt(line: string, key: string, i: nat) {
    && HasAt(line, key, i)
    && (var eq := i + |key| + LeadingSpace(line[i + |key|..]); eq < |line| && line[eq] == '=')
  }

  /** Where the key would stand behind a leading comment sign. */
  function Commented(line: string): Option<nat> {
    var hash := LeadingSpace(line);
    if hash < |line| && line[hash] == '#' then Some(hash + 1 + LeadingSpace(line[hash + 1..])) else None
  }

  predicate Settable(line: string, key: string) {
    KeyAt(line, key, 0) || (Commented(line).Some? && KeyAt(line, key, Commented(line).value))
  }

  predicate Active(line: string, key: string) {
    KeyAt(line, key, LeadingSpace(line))
  }

  function Assignment(key: string, value: string): string {
    key + "=" + value
  }

  function SetsKey(key: string): string -> bool {
    line => Settable(line, key)
  }

  function FirstSettable(lines: seq<string>, key: string): (i: nat)
    ensures i <= |lines|
  {
    FirstIndex(lines, SetsKey(key))
  }

  /** A blank line before what is appended, when the text does not end in one already. */
  function Gap(lines: seq<string>): seq<string>
    requires lines != []
  {
    if lines[|lines| - 1] == "" then [] else [""]
  }

  function SetKey(lines: seq<string>, key: string, value: string): (out: seq<string>)
    requires lines != []
    ensures out != []
  {
    var i := FirstSettable(lines, key);
    if i < |lines| then lines[i := Assignment(key, value)] else lines + Gap(lines) + [Assignment(key, value)]
  }

  function CommentLine(line: string, key: string): string {
    if Active(line, key) then "# " + TrimStart(line) else line
  }

  function CommentOut(lines: seq<string>, key: string): (out: seq<string>)
    ensures |out| == |lines|
  {
    if lines == [] then [] else [CommentLine(lines[0], key)] + CommentOut(lines[1..], key)
  }

  lemma {:induction false} CommentedAt(lines: seq<string>, key: string, k: nat)
    requires k < |lines|
    ensures CommentOut(lines, key)[k] == CommentLine(lines[k], key)
  {
    if k > 0 {
      CommentedAt(lines[1..], key, k - 1);
    }
  }

  lemma CommentedEach(lines: seq<string>, key: string)
    ensures forall k :: 0 <= k < |lines| ==> CommentOut(lines, key)[k] == CommentLine(lines[k], key)
  {
    forall k | 0 <= k < |lines|
      ensures CommentOut(lines, key)[k] == CommentLine(lines[k], key)
    {
      CommentedAt(lines, key, k);
    }
  }

  // ----- lines and keys -----

  /** One position carries at most one key. */
  lemma OneKeyPerPlace(line: string, j: string, k: string, i: nat)
    requires IsKey(j) && IsKey(k) && KeyAt(line, j, i) && KeyAt(line, k, i)
    ensures j == k
  {
    if |j| < |k| {
      KeyIsNotLonger(line, j, k, i);
    } else if |k| < |j| {
      KeyIsNotLonger(line, k, j, i);
    }
  }

  lemma KeyIsNotLonger(line: string, j: string, k: string, i: nat)
    requires IsKey(k) && KeyAt(line, j, i) && HasAt(line, k, i)
    ensures |k| <= |j|
  {
  }

  lemma KeyStartsLine(line: string, key: string)
    requires IsKey(key) && KeyAt(line, key, 0)
    ensures LeadingSpace(line) == 0 && Commented(line) == None
  {
    assert line[0] == line[0..|key|][0] == key[0];
  }

  lemma AssignmentSets(key: string, value: string)
    requires IsKey(key)
    ensures Settable(Assignment(key, value), key) && Active(Assignment(key, value), key)
    ensures LeadingSpace(Assignment(key, value)) == 0
  {
    var line := Assignment(key, value);
    assert line[|key|..][0] == '=';
    assert KeyAt(line, key, 0);
    KeyStartsLine(line, key);
  }

  /** A line that an edit of `j` may touch is nothing to another key. */
  lemma OneKeyPerLine(line: string, j: string, k: string)
    requires IsKey(j) && IsKey(k) && j != k && (Settable(line, j) || Active(line, j))
    ensures !Settable(line, k) && !Active(line, k)
  {
    var here := LeadingSpace(line);
    if KeyAt(line, j, 0) {
      KeyStartsLine(line, j);
    }
    if KeyAt(line, k, 0) {
      KeyStartsLine(line, k);
    }
    if Commented(line).Some? {
      HashIsNoKey(line, j, here);
      HashIsNoKey(line, k, here);
      if KeyAt(line, j, Commented(line).value) && KeyAt(line, k, Commented(line).value) {
        OneKeyPerPlace(line, j, k, Commented(line).value);
      }
    } else if KeyAt(line, j, here) && KeyAt(line, k, here) {
      OneKeyPerPlace(line, j, k, here);
    }
  }

  lemma HashIsNoKey(line: string, key: string, i: nat)
    requires IsKey(key) && i < |line| && line[i] == '#'
    ensures !KeyAt(line, key, i)
  {
  }

  lemma LeadingIs(s: string, n: nat)
    requires n < |s| && !IsSpace(s[n]) && forall k :: 0 <= k < n ==> IsSpace(s[k])
    ensures LeadingSpace(s) == n
  {
  }

  lemma SignAndSpace()
    ensures !IsSpace('#') && IsSpace(' ')
  {
  }

  lemma CommentSignFirst(sign: string, rest: string)
    requires sign == "# " && rest != "" && !IsSpace(rest[0])
    ensures LeadingSpace(sign + rest) == 0 && Commented(sign + rest) == Some(2)
  {
    var t := sign + rest;
    SignAndSpace();
    LeadingIs(t, 0);
    assert t[1..][0] == ' ' && t[1..][1] == rest[0];
    LeadingIs(t[1..], 1);
  }

  lemma KeyBehind(front: string, line: string, key: string, i: nat)
    requires KeyAt(line, key, i)
    ensures KeyAt(front + line[i..], key, |front|)
  {
    var t := front + line[i..];
    assert t[|front|..|front| + |key|] == line[i..i + |key|];
    assert t[|front| + |key|..] == line[i + |key|..];
  }

  /** A line that was commented out is no longer active, and stays one that can be set. */
  lemma CommentedLine(line: string, key: string)
    requires IsKey(key) && Active(line, key)
    ensures !Active(CommentLine(line, key), key) && Settable(CommentLine(line, key), key)
  {
    var i := LeadingSpace(line);
    CommentSignFirst("# ", line[i..]);
    KeyBehind("# ", line, key, i);
    HashIsNoKey("# " + line[i..], key, 0);
  }
}
