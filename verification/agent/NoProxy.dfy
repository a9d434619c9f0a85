/** `NO_PROXY`: the list is matched on characters, and what it means is said in domain labels. */
module NoProxy {
  import opened Options
  import opened Text
  import opened Splitting

  predicate IsSeparator(c: char) {
    c == ',' || IsSpace(c)
  }

  /** How many characters of `s` come before the first separator. */
  function WordLength(s: string): (n: nat)
    ensures n <= |s|
    ensures forall i :: 0 <= i < n ==> !IsSeparator(s[i])
    ensures n < |s| ==> IsSeparator(s[n])
  {
    if s == [] || IsSeparator(s[0]) then 0 else 1 + WordLength(s[1..])
  }

  /** The entries of the list, without the empty ones that `split` leaves at either end. */
  function Words(s: string): (ws: seq<string>)
    decreases |s|
  {
    if s == [] then []
    else if IsSeparator(s[0]) then Words(s[1..])
    else [s[..WordLength(s)]] + Words(s[WordLength(s)..])
  }

  /** The last colon, or the length when there is none. */
  function LastColon(s: string): (i: nat)
    ensures i <= |s|
    ensures i < |s| ==> s[i] == ':' && forall j :: i < j < |s| ==> s[j] != ':'
    ensures i == |s| ==> forall j :: 0 <= j < |s| ==> s[j] != ':'
  {
    if s == [] then 0
    else if s[|s| - 1] == ':' then |s| - 1
    else
      var i := LastColon(s[..|s| - 1]);
      if i == |s| - 1 then |s| else i
  }

  predicate HostHit(entry: string, host: string) {
    if StartsWith(entry, ".") then EndsWith(host, entry) else host == entry || EndsWith(host, "." + entry)
  }

  function EntryHost(entry: string): string {
    entry[..LastColon(entry)]
  }

  function EntryPort(entry: string): string {
    if LastColon(entry) == |entry| then "" else entry[LastColon(entry) + 1..]
  }

  /** One entry, already in lower case, against a host in lower case. */
  predicate Bypasses(entry: string, host: string, port: string) {
    || entry == "*"
    || (&& (EntryPort(entry) == "" || EntryPort(entry) == port)
        && EntryHost(entry) != ""
        && HostHit(EntryHost(entry), host))
  }

  ghost predicate AnyBypasses(words: seq<string>, host: string, port: string) {
    exists k :: 0 <= k < |words| && Bypasses(ToLower(words[k]), host, port)
  }

  ghost predicate Matches(noProxy: Option<string>, hostname: string, port: string) {
    noProxy.Some? && AnyBypasses(Words(noProxy.value), ToLower(hostname), port)
  }

  lemma NextWord(words: seq<string>, k: nat, host: string, port: string)
    requires k < |words|
    ensures AnyBypasses(words[k..], host, port)
      <==> Bypasses(ToLower(words[k]), host, port) || AnyBypasses(words[k + 1..], host, port)
  {
    var rest, tail := words[k..], words[k + 1..];
    assert rest[0] == words[k];
    assert forall j :: 0 <= j < |tail| ==> tail[j] == rest[j + 1];
    assert forall j :: 1 <= j < |rest| ==> rest[j] == tail[j - 1];
  }

  method NoProxyMatches(noProxy: Option<string>, hostname: string, port: string) returns (hit: bool)
    ensures hit <==> Matches(noProxy, hostname, port)
  {
    if noProxy.None? {
      return false;
    }
    var list := Trim(noProxy.value);
    WordsOfTrimmed(noProxy.value);
    if list == "" {
      return false;
    }
    var host := ToLower(hostname);
    var words := Words(list);
    var k := 0;
    assert words[k..] == words;
    while k < |words|
      invariant k <= |words|
      invariant AnyBypasses(words, host, port) <==> AnyBypasses(words[k..], host, port)
    {
      NextWord(words, k, host, port);
      var entry := ToLower(words[k]);
      k := k + 1;
      if entry == "*" {
        return true;
      }
      var entryHost, entryPort := EntryHost(entry), EntryPort(entry);
      if entryPort != "" && entryPort != port {
        continue;
      }
      if entryHost == "" {
        continue;
      }
      if HostHit(entryHost, host) {
        return true;
      }
    }
    return false;
  }

  // ----- the list -----

  lemma {:induction false} WordsOfConcat(a: string, sep: char, b: string)
    requires IsSeparator(sep)
    ensures Words(a + [sep] + b) == Words(a) + Words(b)
    decreases |a|
  {
    var s := a + [sep] + b;
    if a == [] {
      assert s[1..] == b;
    } else if IsSeparator(a[0]) {
      WordsOfConcat(a[1..], sep, b);
      assert s[1..] == a[1..] + [sep] + b;
    } else {
      var n := WordLength(a);
      WordLengthIs(s, n);
      WordsOfConcat(a[n..], sep, b);
      assert s[..n] == a[..n] && s[n..] == a[n..] + [sep] + b;
      ConcatAssoc([a[..n]], Words(a[n..]), Words(b));
    }
  }

  lemma {:induction false} WordLengthIs(s: string, n: nat)
    requires n < |s| && IsSeparator(s[n]) && forall i :: 0 <= i < n ==> !IsSeparator(s[i])
    ensures WordLength(s) == n
  {
    if n > 0 {
      WordLengthIs(s[1..], n - 1);
    }
  }

  lemma {:induction false} WordsAfterSpace(s: string, n: nat)
    requires n <= |s| && forall i :: 0 <= i < n ==> IsSpace(s[i])
    ensures Words(s[n..]) == Words(s)
  {
    if n > 0 {
      WordsAfterSpace(s[1..], n - 1);
      assert s[1..][n - 1..] == s[n..];
    }
  }

  lemma {:induction false} WordsBeforeSpace(s: string, n: nat)
    requires n <= |s| && forall i :: n <= i < |s| ==> IsSpace(s[i])
    ensures Words(s[..n]) == Words(s)
    decreases |s|
  {
    if n == |s| {
      assert s[..n] == s;
    } else {
      var t := s[..|s| - 1];
      WordsBeforeSpace(t, n);
      WordsOfConcat(t, s[|s| - 1], "");
      assert t + [s[|s| - 1]] + "" == s && t[..n] == s[..n];
    }
  }

  lemma WordsOfTrimmed(s: string)
    ensures Words(Trim(s)) == Words(s)
  {
    WordsAfterSpace(s, LeadingSpace(s));
    var t := TrimStart(s);
    WordsBeforeSpace(t, |TrimEnd(t)|);
  }

  /** Two lists one after the other bypass exactly what either of them bypasses, so adding entries only adds hosts. */
  lemma MoreEntriesBypassMore(list: string, sep: char, more: string, hostname: string, port: string)
    requires sep == ',' || IsSpace(sep)
    ensures Matches(Some(list + [sep] + more), hostname, port)
      <==> Matches(Some(list), hostname, port) || Matches(Some(more), hostname, port)
  {
    WordsOfConcat(list, sep, more);
    var a, b, both := Words(list), Words(more), Words(list + [sep] + more);
    assert forall k :: 0 <= k < |a| ==> both[k] == a[k];
    assert forall k :: 0 <= k < |b| ==> both[|a| + k] == b[k];
  }

  lemma {:induction false} OneWord(s: string, n: nat)
    requires n <= |s| && forall i :: n <= i < |s| ==> !IsSeparator(s[i])
    ensures WordLength(s[n..]) == |s| - n
    decreases |s| - n
  {
    if n < |s| {
      OneWord(s, n + 1);
      assert s[n..][1..] == s[n + 1..];
    }
  }

  lemma OneWordList(entry: string)
    requires entry != "" && forall i :: 0 <= i < |entry| ==> !IsSeparator(entry[i])
    ensures Words(entry) == [entry]
  {
    OneWord(entry, 0);
    assert entry[0..] == entry && entry[..|entry|] == entry && entry[|entry|..] == "";
  }

  /** A list of one entry bypasses what that entry does, in any case; an empty one and one that is not set, nothing. */
  lemma OneEntryMeans(entry: string, hostname: string, port: string)
    requires forall i :: 0 <= i < |entry| ==> entry[i] != ',' && !IsSpace(entry[i])
    ensures Matches(Some(entry), hostname, port) <==> entry != "" && Bypasses(ToLower(entry), ToLower(hostname), port)
    ensures !Matches(None, hostname, port)
  {
    if entry != "" {
      OneWordList(entry);
      assert Words(entry)[0] == entry;
    }
  }

  // ----- what an entry means -----

  function Labels(host: string): seq<string> {
    Split(host, '.')
  }

  predicate IsSuffix<T(==)>(tail: seq<T>, s: seq<T>) {
    |tail| <= |s| && s[|s| - |tail|..] == tail
  }

  lemma {:induction false} JoinConcat(a: seq<string>, b: seq<string>, sep: char)
    requires a != [] && b != []
    ensures Join(a + b, sep) == Join(a, sep) + [sep] + Join(b, sep)
  {
    var all := a + b;
    if |a| == 1 {
      assert all[1..] == b;
    } else {
      JoinConcat(a[1..], b, sep);
      assert all[1..] == a[1..] + b;
      JoinAssoc(a[0], [sep], Join(a[1..], sep), [sep] + Join(b, sep));
      JoinAssoc(a[0] + [sep], [], Join(a[1..], sep), [sep] + Join(b, sep));
    }
  }

  lemma JoinAssoc(a: string, b: string, c: string, d: string)
    ensures a + b + (c + d) == (a + b + c) + d
  {
  }

  /** Ending in a dot and `tail` is having the labels of `tail` last, and more before them. */
  lemma EndsWithDotIff(host: string, tail: string)
    ensures EndsWith(host, "." + tail) <==> |Labels(tail)| < |Labels(host)| && IsSuffix(Labels(tail), Labels(host))
  {
    if EndsWith(host, "." + tail) {
      SuffixHasLabels(host, tail);
    }
    if |Labels(tail)| < |Labels(host)| && IsSuffix(Labels(tail), Labels(host)) {
      LabelsMakeSuffix(host, tail);
    }
  }

  lemma SuffixHasLabels(host: string, tail: string)
    requires EndsWith(host, "." + tail)
    ensures |Labels(tail)| < |Labels(host)| && IsSuffix(Labels(tail), Labels(host))
  {
    var front := host[..|host| - 1 - |tail|];
    assert host == front + ['.'] + tail;
    SplitAround(front, tail, '.');
  }

  lemma LabelsMakeSuffix(host: string, tail: string)
    requires |Labels(tail)| < |Labels(host)| && IsSuffix(Labels(tail), Labels(host))
    ensures EndsWith(host, "." + tail)
  {
    JoinSplit(host, '.');
    JoinSplit(tail, '.');
    var front := JoinedSuffix(Labels(host), Labels(tail));
    EndsAfter(front, "." + tail);
  }

  lemma JoinedSuffix(all: seq<string>, tail: seq<string>) returns (front: string)
    requires tail != [] && |tail| < |all| && IsSuffix(tail, all)
    ensures Join(all, '.') == front + ("." + Join(tail, '.'))
  {
    var before := all[..|all| - |tail|];
    assert all == before + tail;
    JoinConcat(before, tail, '.');
    front := Join(before, '.');
    ConcatAssoc(front, ".", Join(tail, '.'));
  }

  lemma EndsAfter(front: string, end: string)
    ensures EndsWith(front + end, end)
  {
  }

  /**
   An entry without a port bypasses exactly the hosts whose labels end in its labels: a leading dot asks for at
   least one label more, and without it the host itself counts too. No part of a label ever matches.
   */
  lemma EntryMeansLabelSuffix(entry: string, host: string, port: string)
    requires entry != "" && entry != "*" && forall k :: 0 <= k < |entry| ==> entry[k] != ':'
    ensures Bypasses(entry, host, port)
      <==> if entry[0] == '.' then
             |Labels(entry[1..])| < |Labels(host)| && IsSuffix(Labels(entry[1..]), Labels(host))
           else
             IsSuffix(Labels(entry), Labels(host))
  {
    assert EntryHost(entry) == entry && EntryPort(entry) == "";
    HostHitMeans(entry, host);
  }

  /** An entry with a port bypasses what it would without one, on that port only; without a name it bypasses nothing. */
  lemma EntryWithPortMeans(name: string, number: string, host: string, port: string)
    requires forall k :: 0 <= k < |number| ==> number[k] != ':'
    ensures Bypasses(name + ":" + number, host, port)
      <==> name != "" && (number == "" || port == number) && HostHit(name, host)
  {
    PartsOfEntry(name, number);
    assert (name + ":" + number)[|name|] == ':';
  }

  lemma PartsOfEntry(name: string, number: string)
    requires forall k :: 0 <= k < |number| ==> number[k] != ':'
    ensures EntryHost(name + ":" + number) == name && EntryPort(name + ":" + number) == number
  {
    var entry := name + ":" + number;
    assert entry[|name|] == ':';
    assert forall k :: |name| < k < |entry| ==> entry[k] == number[k - |name| - 1];
    assert LastColon(entry) == |name|;
    assert entry[..|name|] == name && entry[|name| + 1..] == number;
  }

  /** `*` bypasses every host on every port. */
  lemma StarBypassesAll(hostname: string, port: string)
    ensures Matches(Some("*"), hostname, port)
  {
    OneEntryMeans("*", hostname, port);
    assert ToLower("*") == "*";
  }

  lemma HostHitMeans(entry: string, host: string)
    requires entry != ""
    ensures HostHit(entry, host)
      <==> if entry[0] == '.' then
             |Labels(entry[1..])| < |Labels(host)| && IsSuffix(Labels(entry[1..]), Labels(host))
           else
             IsSuffix(Labels(entry), Labels(host))
  {
    assert entry[0..1] == "." <==> entry[0] == '.';
    if entry[0] == '.' {
      assert entry == "." + entry[1..];
      EndsWithDotIff(host, entry[1..]);
    } else {
      EndsWithDotIff(host, entry);
      if IsSuffix(Labels(entry), Labels(host)) && |Labels(entry)| == |Labels(host)| {
        JoinSplit(host, '.');
        JoinSplit(entry, '.');
      }
    }
  }

  // ----- which proxy one request goes through -----

  datatype Network = Network(httpsProxy: Option<string>, httpProxy: Option<string>, noProxy: Option<string>)

  type Variables = map<string, string>

  /** The spellings of one setting, in the order they are tried. */
  function Candidates(file: Variables, env: Variables, key: string): seq<Option<string>> {
    [Variable(env, ToLower(key)), Variable(env, key), Variable(file, ToLower(key)), Variable(file, key)]
  }

  function Variable(vars: Variables, key: string): Option<string> {
    if key in vars then Some(vars[key]) else None
  }

  /** A blank value reads as none. */
  function Value(raw: Option<string>): Option<string> {
    if raw.Some? && Trim(raw.value) != "" then Some(Trim(raw.value)) else None
  }

  function FirstSet(raws: seq<Option<string>>): (v: Option<string>)
    ensures v.Some?
      ==> exists k :: 0 <= k < |raws| && v == Value(raws[k]) && forall j :: 0 <= j < k ==> Value(raws[j]).None?
    ensures v.None? ==> forall k :: 0 <= k < |raws| ==> Value(raws[k]).None?
  {
    if raws == [] then None
    else if Value(raws[0]).Some? then Value(raws[0])
    else
      var v := FirstSet(raws[1..]);
      assert forall k :: 1 <= k < |raws| ==> raws[k] == raws[1..][k - 1];
      v
  }

  lemma FirstOfFour(a: Option<string>, b: Option<string>, c: Option<string>, d: Option<string>)
    ensures FirstSet([a, b, c, d])
      == if Value(a).Some? then Value(a)
         else if Value(b).Some? then Value(b)
         else if Value(c).Some? then Value(c)
         else Value(d)
  {
    assert [d][1..] == [] && [c, d][1..] == [d] && [b, c, d][1..] == [c, d] && [a, b, c, d][1..] == [b, c, d];
    assert FirstSet([d]) == Value(d);
    assert FirstSet([c, d]) == if Value(c).Some? then Value(c) else FirstSet([d]);
    assert FirstSet([b, c, d]) == if Value(b).Some? then Value(b) else FirstSet([c, d]);
  }

  /** The environment has a value for this setting, in either spelling. */
  predicate InEnvironment(env: Variables, key: string) {
    Value(Variable(env, ToLower(key))).Some? || Value(Variable(env, key)).Some?
  }

  lemma EnvironmentDecides(file: Variables, other: Variables, env: Variables, key: string)
    requires InEnvironment(env, key)
    ensures FirstSet(Candidates(file, env, key)) == FirstSet(Candidates(other, env, key))
  {
    FirstOfFour(Variable(env, ToLower(key)), Variable(env, key), Variable(file, ToLower(key)), Variable(file, key));
    FirstOfFour(Variable(env, ToLower(key)), Variable(env, key), Variable(other, ToLower(key)), Variable(other, key));
  }

  lemma FileDecides(env: Variables, key: string)
    requires !InEnvironment(env, key)
    ensures FirstSet(Candidates(map[key := "p"], env, key)) != FirstSet(Candidates(map[], env, key))
  {
    var file: Variables, none: Variables := map[key := "p"], map[];
    FirstOfFour(Variable(env, ToLower(key)), Variable(env, key), Variable(file, ToLower(key)), Variable(file, key));
    FirstOfFour(Variable(env, ToLower(key)), Variable(env, key), Variable(none, ToLower(key)), Variable(none, key));
    TrimKeepsTrimmed("p");
  }

  function NetworkFrom(file: Variables, env: Variables): Network {
    Network(FirstSet(Candidates(file, env, "HTTPS_PROXY")), FirstSet(Candidates(file, env, "HTTP_PROXY")),
            FirstSet(Candidates(file, env, "NO_PROXY")))
  }

  predicate AllInEnvironment(env: Variables) {
    InEnvironment(env, "HTTPS_PROXY") && InEnvironment(env, "HTTP_PROXY") && InEnvironment(env, "NO_PROXY")
  }

  lemma SameNetwork(file: Variables, other: Variables, env: Variables)
    requires AllInEnvironment(env)
    ensures NetworkFrom(file, env) == NetworkFrom(other, env)
  {
    EnvironmentDecides(file, other, env, "HTTPS_PROXY");
    EnvironmentDecides(file, other, env, "HTTP_PROXY");
    EnvironmentDecides(file, other, env, "NO_PROXY");
  }

  lemma OtherNetwork(env: Variables) returns (file: Variables)
    requires !AllInEnvironment(env)
    ensures NetworkFrom(file, env) != NetworkFrom(map[], env)
  {
    var key := if !InEnvironment(env, "HTTPS_PROXY") then "HTTPS_PROXY"
               else if !InEnvironment(env, "HTTP_PROXY") then "HTTP_PROXY"
               else "NO_PROXY";
    file := map[key := "p"];
    FileDecides(env, key);
  }

  /** What the config file says about the network is of no account, if and only if the environment says it all. */
  lemma FileIsIgnoredIff(env: Variables)
    ensures (forall file, other :: NetworkFrom(file, env) == NetworkFrom(other, env)) <==> AllInEnvironment(env)
  {
    if AllInEnvironment(env) {
      forall file, other ensures NetworkFrom(file, env) == NetworkFrom(other, env) {
        SameNetwork(file, other, env);
      }
    } else {
      var file := OtherNetwork(env);
    }
  }

  /** The variable is there and not blank. */
  predicate Says(vars: Variables, name: string) {
    name in vars && Trim(vars[name]) != ""
  }

  /** The environment before the file, and in each the lower-case spelling before the other. */
  function FirstSaid(file: Variables, env: Variables, name: string): Option<string> {
    if Says(env, ToLower(name)) then Some(Trim(env[ToLower(name)]))
    else if Says(env, name) then Some(Trim(env[name]))
    else if Says(file, ToLower(name)) then Some(Trim(file[ToLower(name)]))
    else if Says(file, name) then Some(Trim(file[name]))
    else None
  }

  lemma PickedIs(file: Variables, env: Variables, name: string)
    ensures FirstSet(Candidates(file, env, name)) == FirstSaid(file, env, name)
  {
    FirstOfFour(Variable(env, ToLower(name)), Variable(env, name), Variable(file, ToLower(name)), Variable(file, name));
  }

  /** Each of the three settings is what its own variable says first. */
  lemma NetworkMeans(file: Variables, env: Variables)
    ensures NetworkFrom(file, env).httpsProxy == FirstSaid(file, env, "HTTPS_PROXY")
    ensures NetworkFrom(file, env).httpProxy == FirstSaid(file, env, "HTTP_PROXY")
    ensures NetworkFrom(file, env).noProxy == FirstSaid(file, env, "NO_PROXY")
  {
    PickedIs(file, env, "HTTPS_PROXY");
    PickedIs(file, env, "HTTP_PROXY");
    PickedIs(file, env, "NO_PROXY");
  }

  /** The two proxies are not interchangeable, and a bypassed host is reached directly. */
  method ProxyForUrl(net: Network, https: bool, hostname: string, port: string) returns (proxy: Option<string>)
    ensures var own := if https then net.httpsProxy else net.httpProxy;
            var at := if port != "" then port else if https then "443" else "80";
            proxy == if Matches(net.noProxy, hostname, at) then None else own
  {
    proxy := if https then net.httpsProxy else net.httpProxy;
    if proxy.None? {
      return;
    }
    var at := if port != "" then port else if https then "443" else "80";
    var bypassed := NoProxyMatches(net.noProxy, hostname, at);
    if bypassed {
      proxy := None;
    }
  }
}
