/** Which rules can hit at all, and what the missing treatment of ports means. */
module DomainRules {
  import opened Text
  import opened DomainIndex

  // ---------- Lower-case text ----------

  predicate NoUpper(s: string) {
    forall i | 0 <= i < |s| :: !('A' <= s[i] <= 'Z')
  }

  lemma LowerFixed(s: string)
    requires NoUpper(s)
    ensures ToLower(s) == s
  {
  }

  lemma {:induction false} TrimLeftLower(s: string)
    requires NoUpper(s)
    ensures NoUpper(TrimLeft(s))
  {
    if s != "" && IsSpace(s[0]) {
      TrimLeftLower(s[1..]);
    }
  }

  lemma {:induction false} TrimRightLower(s: string)
    requires NoUpper(s)
    ensures NoUpper(TrimRight(s))
  {
    if s != "" && IsSpace(s[|s| - 1]) {
      TrimRightLower(s[..|s| - 1]);
    }
  }

  lemma NormalizedIsLower(s: string)
    ensures NoUpper(NormalizeHost(s)) && NoUpper(ToLower(s))
  {
    hide TrimLeft, TrimRight;
    TrimLeftLower(ToLower(s));
    TrimRightLower(TrimLeft(ToLower(s)));
  }

  /** Every label of a text consists of characters of it. */
  lemma {:induction false} LabelsLower(s: string)
    requires NoUpper(s)
    ensures forall i | 0 <= i < |Split(s, '.')| :: NoUpper(Split(s, '.')[i])
    decreases |s|
  {
    var first := Before(s, '.');
    if |first| < |s| {
      var rest := s[|first| + 1..];
      LabelsLower(rest);
      assert s == first + ['.'] + rest;
      SplitCons(first, '.', rest);
      hide Split, Before;
    } else {
      SplitSingle(s, '.');
    }
  }

  predicate IsLabel(l: string) {
    l != "" && '.' !in l && NoUpper(l)
  }

  predicate AreLabels(labels: seq<string>) {
    forall i | 0 <= i < |labels| :: IsLabel(labels[i])
  }

  lemma {:induction false} KeptAreLabels(labels: seq<string>)
    requires forall i | 0 <= i < |labels| :: '.' !in labels[i] && NoUpper(labels[i])
    ensures AreLabels(NonEmptyLabels(labels))
  {
    hide NoUpper;
    if labels != [] {
      KeptAreLabels(labels[1..]);
    }
  }

  // ---------- Hosts that are normal already ----------

  predicate Bare(h: string) {
    && h != "" && NoUpper(h) && !IsSpace(h[0]) && h[0] != '['
    && !IsSpace(h[|h| - 1]) && h[|h| - 1] != '.' && h[|h| - 1] != ']'
  }

  lemma BareIsNormal(h: string)
    requires Bare(h)
    ensures NormalizeHost(h) == h
  {
    LowerFixed(h);
    TrimNothing(h);
    hide TrimSpace, ToLower;
    assert h[|h| - 1..] != "." && h[..1] != "[" && h[|h| - 1..] != "]";
  }

  /** One closing bracket is dropped, which leaves any other text as it is. */
  lemma BracketDropped(h: string)
    requires h != "" && NoUpper(h) && !IsSpace(h[0]) && h[0] != '['
    ensures NormalizeHost(h + "]") == h
  {
    var s := h + "]";
    LowerFixed(s);
    TrimNothing(s);
    hide TrimSpace, ToLower;
    assert s[|s| - 1..] == "]" && s[|s| - 1..] != "." && s[..1] != "[" && s[..|s| - 1] == h;
  }

  function JoinDots(labels: seq<string>): string
    requires labels != []
  {
    if |labels| == 1 then labels[0] else labels[0] + ['.'] + JoinDots(labels[1..])
  }

  lemma {:induction false} JoinSplits(labels: seq<string>)
    requires labels != [] && AreLabels(labels)
    ensures Split(JoinDots(labels), '.') == labels && NoUpper(JoinDots(labels))
  {
    hide Split;
    if |labels| == 1 {
      SplitSingle(labels[0], '.');
      assert [labels[0]] == labels;
    } else {
      assert AreLabels(labels[1..]) by { assert forall i | 1 <= i < |labels| :: labels[1..][i - 1] == labels[i]; }
      JoinSplits(labels[1..]);
      SplitCons(labels[0], '.', JoinDots(labels[1..]));
      assert [labels[0]] + labels[1..] == labels;
    }
  }

  // ---------- Which rules can hit ----------

  ghost predicate CanHit(r: Rule) {
    exists host: string :: NaiveMatch([r], host)
  }

  lemma HitsAlone(r: Rule, host: string)
    ensures NaiveMatch([r], host) <==> NormalizeHost(host) != "" && Hits(r, NormalizeHost(host))
  {
    hide NormalizeHost, Hits;
    assert [r][0] == r;
  }

  /** A suffix rule with labels hits a host one label longer. */
  lemma SuffixCanHit(labels: seq<string>)
    requires labels != [] && AreLabels(labels)
    ensures CanHit(Suffix(labels))
  {
    var host := ["z"] + labels;
    assert AreLabels(host) by { assert forall i | 1 <= i < |host| :: host[i] == labels[i - 1]; }
    var h := JoinDots(host);
    JoinSplits(host);
    assert h[0] == 'z';
    BracketDropped(h);
    hide NormalizeHost, JoinDots, Split;
    HitsAlone(Suffix(labels), h + "]");
    assert host[|host| - |labels|..] == labels;
  }

  lemma KeywordCanHit(word: string)
    requires word != "" && NoUpper(word)
    ensures CanHit(Keyword(word))
  {
    var h := "z" + word + "z";
    BareIsNormal(h);
    assert h[1..1 + |word|] == word;
    assert OccursAt(h, word, 1);
    hide NormalizeHost;
    HitsAlone(Keyword(word), h);
  }

  /** Of the rules that lines are read as and that are counted, exactly the suffix rule without a
      label can hit no host. */
  lemma DeadRuleIff(raw: string)
    requires ParseRule(raw) != Ignored
    ensures CanHit(ParseRule(raw)) <==> ParseRule(raw) != Suffix([])
  {
    var r := ParseRule(raw);
    match r {
      case Keyword(word) =>
        KeywordIsLower(raw);
        KeywordCanHit(word);
      case Exact(host) =>
        var text := ExactText(raw);
        HitsAlone(r, text);
      case Suffix(labels) =>
        var text := SuffixText(raw);
        SuffixLabels(text);
        hide ParseRule, NormalizeHost;
        if labels != [] {
          SuffixCanHit(labels);
        } else {
          forall host: string
            ensures !NaiveMatch([r], host)
          {
            HitsAlone(r, host);
          }
        }
      case Ignored =>
    }
  }

  lemma KeywordIsLower(raw: string)
    requires ParseRule(raw).Keyword?
    ensures ParseRule(raw).word != "" && NoUpper(ParseRule(raw).word)
  {
    hide TrimSpace, NormalizeHost, Split, Before, HasPrefix;
  }

  lemma ExactText(raw: string) returns (text: string)
    requires ParseRule(raw).Exact?
    ensures NormalizeHost(text) != "" && ParseRule(raw) == Exact(NormalizeHost(text))
  {
    hide TrimSpace, NormalizeHost, Split, Before, ToLower;
    var line := TrimSpace(raw);
    var cut := if '#' in line then TrimSpace(Before(line, '#')) else line;
    text := cut[|"full:"|..];
  }

  lemma SuffixText(raw: string) returns (text: string)
    requires ParseRule(raw).Suffix?
    ensures ParseRule(raw) == SuffixRule(text) && SuffixRule(text).Suffix?
  {
    hide TrimSpace, NormalizeHost, Split, Before, ToLower, SuffixRule;
    var line := TrimSpace(raw);
    var cut := if '#' in line then TrimSpace(Before(line, '#')) else line;
    text := if HasPrefix(cut, "domain:") then cut[|"domain:"|..]
            else if HasPrefix(cut, "+.") then cut[2..]
            else if HasPrefix(cut, ".") then cut[1..]
            else cut;
  }

  lemma SuffixLabels(text: string)
    requires SuffixRule(text).Suffix?
    ensures AreLabels(SuffixRule(text).labels)
  {
    var h := NormalizeHost(text);
    NormalizedIsLower(text);
    hide NormalizeHost;
    LabelsLower(h);
    hide Split, NoUpper;
    KeptAreLabels(Split(h, '.'));
  }

  // ---------- Ports ----------

  predicate IsPort(port: string) {
    port != "" && forall i | 0 <= i < |port| :: '0' <= port[i] <= '9'
  }

  /** The last label carries the port. */
  lemma {:induction false} PortInLastLabel(labels: seq<string>, port: string)
    requires labels != [] && AreLabels(labels) && IsPort(port)
    ensures Split(JoinDots(labels) + ":" + port, '.') == labels[..|labels| - 1] + [labels[|labels| - 1] + ":" + port]
  {
    hide Split;
    if |labels| == 1 {
      SplitSingle(labels[0] + ":" + port, '.');
    } else {
      var rest := labels[1..];
      assert AreLabels(rest) by { assert forall i | 1 <= i < |labels| :: rest[i - 1] == labels[i]; }
      PortInLastLabel(rest, port);
      SplitCons(labels[0], '.', JoinDots(rest) + ":" + port);
      assert JoinDots(labels) + ":" + port == labels[0] + ['.'] + (JoinDots(rest) + ":" + port);
      assert [labels[0]] + rest[..|rest| - 1] == labels[..|labels| - 1];
    }
  }

  /** A host name is hit by its own suffix rule; with a port behind it it is not. */
  lemma PortHidesHost(labels: seq<string>, port: string)
    requires labels != [] && AreLabels(labels) && IsPort(port) && Bare(JoinDots(labels))
    ensures var h := JoinDots(labels);
      && SuffixRule(h) == Suffix(labels)
      && NaiveMatch([SuffixRule(h)], h) && !NaiveMatch([SuffixRule(h)], h + ":" + port)
  {
    hide NormalizeHost, JoinDots, Split, NonEmptyLabels, Bare, AreLabels, IsPort;
    var h := JoinDots(labels);
    var ported := h + ":" + port;
    JoinSplits(labels);
    PortInLastLabel(labels, port);
    PortedIsBare(h, port);
    BareIsNormal(h);
    BareIsNormal(ported);
    AllKept(labels);
    HitsAlone(Suffix(labels), h);
    HitsAlone(Suffix(labels), ported);
    LastDiffers(labels, labels[|labels| - 1] + ":" + port);
  }

  lemma PortedIsBare(h: string, port: string)
    requires Bare(h) && IsPort(port)
    ensures Bare(h + ":" + port) && h != "" && h + ":" + port != ""
  {
    var ported := h + ":" + port;
    assert ported[|ported| - 1] == port[|port| - 1] && ported[0] == h[0];
  }

  lemma LastDiffers(labels: seq<string>, last: string)
    requires labels != [] && |last| > |labels[|labels| - 1]|
    ensures IsSuffixOf(labels, labels) && !IsSuffixOf(labels, labels[..|labels| - 1] + [last])
  {
    var other := labels[..|labels| - 1] + [last];
    assert other[|other| - |labels|..] == other && other[|labels| - 1] == last;
  }

  lemma {:induction false} AllKept(labels: seq<string>)
    requires AreLabels(labels)
    ensures NonEmptyLabels(labels) == labels
  {
    if labels != [] {
      assert AreLabels(labels[1..]) by { assert forall i | 1 <= i < |labels| :: labels[1..][i - 1] == labels[i]; }
      AllKept(labels[1..]);
    }
  }
}
