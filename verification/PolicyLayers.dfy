/** What the six layers guarantee for every user configuration. */
module PolicyLayers {
  import opened Bytes
  import opened Common
  import opened Text
  import opened CidrIndex
  import opened Policy
  import DomainIndex

  // ---------- Reading back the built-in lines ----------

  predicate EdgesSolid(s: string) {
    s != "" && !IsSpace(s[0]) && !IsSpace(s[|s| - 1])
  }

  predicate Plain(s: string) {
    EdgesSolid(s) && ',' !in s
  }

  /** A line whose type and value are plain keeps them; its action ends at the next comma. */
  lemma {:induction false} LineWithRest(kind: string, value: string, rest: string)
    requires Plain(kind) && Plain(value) && EdgesSolid(rest)
    ensures ParseLine(Line(kind, value, rest)) ==
      var (act, eg) := ParseAction(TrimSpace(Before(rest, ',')));
      Some(Spec(ToUpper(kind), value, act, eg))
  {
    TrimNothing(kind);
    TrimNothing(value);
    SplitFirst(rest);
    LineSplit(kind, value, rest);
    hide TrimSpace, ParseAction, Before, Split, ToUpper, Line;
    var fields := Split(rest, ',');
    assert ([kind, value] + fields)[2] == fields[0];
  }

  lemma LineSplit(kind: string, value: string, rest: string)
    requires Plain(kind) && Plain(value) && EdgesSolid(rest)
    ensures Split(TrimSpace(Line(kind, value, rest)), ',') == [kind, value] + Split(rest, ',')
  {
    hide Split, TrimSpace;
    var line := Line(kind, value, rest);
    assert line == kind + [','] + (value + [','] + rest);
    assert line[0] == kind[0] && line[|line| - 1] == rest[|rest| - 1];
    TrimNothing(line);
    SplitCons(kind, ',', value + [','] + rest);
    SplitCons(value, ',', rest);
    assert [kind] + ([value] + Split(rest, ',')) == [kind, value] + Split(rest, ',');
  }

  lemma SplitFirst(s: string)
    ensures Split(s, ',') != [] && Split(s, ',')[0] == Before(s, ',')
  {
  }

  lemma PlainLine(kind: string, value: string, action: string)
    requires Plain(kind) && Plain(value) && Plain(action)
    ensures ParseLine(Line(kind, value, action)) ==
      Some(Spec(ToUpper(kind), value, ParseAction(action).0, ParseAction(action).1))
  {
    hide ParseLine, Line, TrimSpace, ParseAction, ToUpper;
    LineWithRest(kind, value, action);
    TrimNothing(action);
  }

  lemma FixedActions()
    ensures ParseAction("direct") == (Direct, "") && ParseAction("block") == (Block, "")
    ensures ParseAction("proxy") == (Proxy, "")
  {
    TrimNothing("direct");
    TrimNothing("block");
    TrimNothing("proxy");
  }

  lemma UpperFixed(s: string)
    requires forall i | 0 <= i < |s| :: !('a' <= s[i] <= 'z')
    ensures ToUpper(s) == s
  {
  }

  lemma LowerFixed(s: string)
    requires forall i | 0 <= i < |s| :: !('A' <= s[i] <= 'Z')
    ensures ToLower(s) == s
  {
  }

  // ---------- The layers as compiled rules ----------

  function Pre(net: Netip, sets: Sets): seq<Rule> {
    Compiled(net, sets, BuiltinPre())
  }

  function DoH(net: Netip, sets: Sets): seq<Rule> {
    Compiled(net, sets, BuiltinDoHBlock())
  }

  function User(net: Netip, sets: Sets, cfg: Config): seq<Rule> {
    Compiled(net, sets, cfg.rules)
  }

  function Ads(net: Netip, sets: Sets, cfg: Config): seq<Rule> {
    Compiled(net, sets, AdBlockLines(cfg))
  }

  function Google(net: Netip, sets: Sets, final: string): seq<Rule> {
    Compiled(net, sets, GoogleLines(final))
  }

  function Post(net: Netip, sets: Sets): seq<Rule> {
    Compiled(net, sets, BuiltinPost())
  }

  function Program(net: Netip, sets: Sets, cfg: Config): seq<Rule> {
    Compiled(net, sets, AllLines(cfg))
  }

  lemma {:induction false} Layered(net: Netip, sets: Sets, cfg: Config)
    ensures Program(net, sets, cfg) == Pre(net, sets) + (DoH(net, sets) + (User(net, sets, cfg)
      + (Ads(net, sets, cfg) + (Google(net, sets, cfg.final) + Post(net, sets)))))
  {
    hide Compiled, BuiltinPre, BuiltinDoHBlock, AdBlockLines, GoogleLines, BuiltinPost;
    var g := GoogleLines(cfg.final) + BuiltinPost();
    var a := AdBlockLines(cfg) + g;
    CompiledConcat(net, sets, GoogleLines(cfg.final), BuiltinPost());
    CompiledConcat(net, sets, AdBlockLines(cfg), g);
    CompiledConcat(net, sets, cfg.rules, a);
    CompiledConcat(net, sets, BuiltinDoHBlock(), cfg.rules + a);
    CompiledConcat(net, sets, BuiltinPre(), BuiltinDoHBlock() + (cfg.rules + a));
  }

  /** The five literals mean the five blocks. */
  predicate ReadsPrivate(net: Netip) {
    forall i | 0 <= i < 5 :: net.parsePrefix(PrivateRanges()[i]) == Some(PrivatePrefixes()[i])
  }

  lemma PlainRange(i: nat)
    requires i < 5
    ensures Plain(PrivateRanges()[i])
  {
  }

  lemma PlainWords()
    ensures Plain("IP-CIDR") && Plain("DOMAIN") && Plain("DOMAIN-SUFFIX") && Plain("RULE-SET") && Plain("GEOIP")
    ensures Plain("direct") && Plain("block") && Plain("proxy")
  {
  }

  lemma UpperKinds()
    ensures ToUpper("IP-CIDR") == "IP-CIDR" && ToUpper("DOMAIN") == "DOMAIN"
    ensures ToUpper("DOMAIN-SUFFIX") == "DOMAIN-SUFFIX"
    ensures ToUpper("RULE-SET") == "RULE-SET" && ToUpper("GEOIP") == "GEOIP"
  {
    UpperFixed("IP-CIDR");
    UpperFixed("DOMAIN");
    UpperFixed("DOMAIN-SUFFIX");
    UpperFixed("RULE-SET");
    UpperFixed("GEOIP");
  }

  predicate IsPreRule(r: Rule, i: nat)
    requires i < 5
  {
    r.kind == "IP-CIDR" && r.action == Direct && r.egress == "" && r.prefix == Some(Masked(PrivatePrefixes()[i]))
  }

  lemma {:induction false} PreLine(net: Netip, sets: Sets, i: nat)
    requires ReadsPrivate(net) && i < 5
    ensures var rs := LineRules(net, sets, Line("IP-CIDR", PrivateRanges()[i], "direct"));
      |rs| == 1 && IsPreRule(rs[0], i)
  {
    PlainRange(i);
    PlainWords();
    UpperKinds();
    FixedActions();
    hide Plain, ToUpper, ParseAction, ParseLine, Line, Masked, PrivateRanges, PrivatePrefixes;
    PlainLine("IP-CIDR", PrivateRanges()[i], "direct");
  }

  lemma {:induction false} PreRules(net: Netip, sets: Sets)
    requires ReadsPrivate(net)
    ensures |Pre(net, sets)| == 5 && forall i | 0 <= i < 5 :: IsPreRule(Pre(net, sets)[i], i)
  {
    hide Line, LineRules, IsPreRule, ReadsPrivate, Compiled;
    forall i: nat | i < 5
      ensures |LineRules(net, sets, BuiltinPre()[i])| == 1 && IsPreRule(LineRules(net, sets, BuiltinPre()[i])[0], i)
    {
      PreLine(net, sets, i);
    }
    assert |BuiltinPre()| == 5;
    hide BuiltinPre;
    OneRuleEach(net, sets, BuiltinPre());
  }

  /** Lines that contribute one rule each compile to those rules, in order. */
  lemma {:induction false} OneRuleEach(net: Netip, sets: Sets, lines: seq<string>)
    requires forall i | 0 <= i < |lines| :: |LineRules(net, sets, lines[i])| == 1
    ensures |Compiled(net, sets, lines)| == |lines|
    ensures forall i | 0 <= i < |lines| :: Compiled(net, sets, lines)[i] == LineRules(net, sets, lines[i])[0]
  {
    hide LineRules;
    if lines != [] {
      OneRuleEach(net, sets, lines[..|lines| - 1]);
    }
  }

  function DoHRule(i: nat): Rule {
    if i == 0 then Rule("DOMAIN-SUFFIX", "dns.google", Block, "", None, None, None)
    else Rule("DOMAIN", "dns.google.com", Block, "", None, None, None)
  }

  /** A domain line compiles to its rule. */
  lemma DomainLine(net: Netip, sets: Sets, kind: string, value: string, action: string)
    requires kind == "DOMAIN" || kind == "DOMAIN-SUFFIX" || kind == "DOMAIN-KEYWORD"
    requires Plain(kind) && ToUpper(kind) == kind && Plain(value) && Plain(action)
    ensures LineRules(net, sets, Line(kind, value, action))
      == [Rule(kind, value, ParseAction(action).0, ParseAction(action).1, None, None, None)]
  {
    hide Plain, ToUpper, ParseAction, ParseLine, Line;
    PlainLine(kind, value, action);
    assert value != "" by { NotEmpty(value); }
  }

  lemma NotEmpty(s: string)
    requires Plain(s)
    ensures s != ""
  {
  }

  lemma {:induction false} DoHRules(net: Netip, sets: Sets)
    ensures DoH(net, sets) == [DoHRule(0), DoHRule(1)]
  {
    hide DoHRule, LineRules, DoHSuffixLine, DoHDomainLine, Compiled;
    DoHLines(net, sets);
    CompiledPair(net, sets, DoHSuffixLine(), DoHDomainLine());
  }

  lemma CompiledPair(net: Netip, sets: Sets, a: string, b: string)
    ensures Compiled(net, sets, [a, b]) == LineRules(net, sets, a) + LineRules(net, sets, b)
  {
    hide LineRules;
    assert [a, b][..1] == [a] && [a][..0] == [];
    assert Compiled(net, sets, [a]) == LineRules(net, sets, a);
  }

  lemma {:induction false} DoHLines(net: Netip, sets: Sets)
    ensures LineRules(net, sets, DoHSuffixLine()) == [DoHRule(0)]
    ensures LineRules(net, sets, DoHDomainLine()) == [DoHRule(1)]
  {
    assert Plain("dns.google") && Plain("dns.google.com");
    PlainWords();
    UpperKinds();
    FixedActions();
    hide Plain, ToUpper, ParseAction, ParseLine, Line, LineRules;
    DomainLine(net, sets, "DOMAIN-SUFFIX", "dns.google", "block");
    DomainLine(net, sets, "DOMAIN", "dns.google.com", "block");
  }

  // ---------- First match across the layers ----------

  lemma FirstInFront(a: seq<Rule>, b: seq<Rule>, t: Target, resolved: seq<Addr>, i: nat)
    requires IsFirst(a, i, t, resolved)
    ensures IsFirst(a + b, i, t, resolved)
  {
    hide Matches;
  }

  /** If some rule of a front part matches, the decision is by a rule of that part. */
  lemma {:induction false} DecidedInFront(a: seq<Rule>, b: seq<Rule>, final: Decision, t: Target,
                                          resolved: seq<Addr>, d: Decision)
    requires Decides(a + b, final, t, resolved, d) && !NoneBefore(a, |a|, t, resolved)
    ensures exists i: nat :: IsFirst(a, i, t, resolved) && d == DecisionOf(a[i], i)
  {
    hide Matches;
    var i := FirstOf(a, t, resolved);
    FirstInFront(a, b, t, resolved, i);
    assert (a + b)[i] == a[i];
    DecisionIsUnique(a + b, final, t, resolved, d, DecisionOf(a[i], i));
  }

  lemma {:induction false} FirstOf(a: seq<Rule>, t: Target, resolved: seq<Addr>) returns (i: nat)
    requires !NoneBefore(a, |a|, t, resolved)
    ensures IsFirst(a, i, t, resolved)
  {
    hide Matches;
    i := 0;
    while !Matches(a[i], t, resolved)
      invariant i < |a| && NoneBefore(a, i, t, resolved)
      decreases |a| - i
    {
      i := i + 1;
    }
  }

  /** If no rule of a front part matches, the decision is by a later rule or the fallback. */
  lemma {:induction false} DecidedBehind(a: seq<Rule>, b: seq<Rule>, final: Decision, t: Target,
                                         resolved: seq<Addr>, d: Decision)
    requires Decides(a + b, final, t, resolved, d) && NoneBefore(a, |a|, t, resolved)
    ensures (exists i: nat :: i < |b| && IsFirst(b, i, t, resolved) && d == DecisionOf(b[i], |a| + i))
         || (NoneBefore(b, |b|, t, resolved) && d == final)
  {
    hide Matches;
    FrontClear(a, b, t, resolved);
    if exists k: nat :: IsFirst(a + b, k, t, resolved) && d == DecisionOf((a + b)[k], k) {
      var k: nat :| IsFirst(a + b, k, t, resolved) && d == DecisionOf((a + b)[k], k);
      var i := k - |a|;
      forall j | 0 <= j < i
        ensures !Matches(b[j], t, resolved)
      {
        assert (a + b)[|a| + j] == b[j];
      }
      assert IsFirst(b, i, t, resolved);
    }
  }

  // ---------- Private addresses ----------

  /** 10/8, 172.16/12, 192.168/16, 127/8 and 169.254/16, as address ranges. */
  predicate PrivateAddr(a: Addr) {
    a.V4? &&
    (|| 0x0A00_0000 <= a.n <= 0x0AFF_FFFF || 0xAC10_0000 <= a.n <= 0xAC1F_FFFF
     || 0xC0A8_0000 <= a.n <= 0xC0A8_FFFF || 0x7F00_0000 <= a.n <= 0x7FFF_FFFF
     || 0xA9FE_0000 <= a.n <= 0xA9FE_FFFF)
  }

  lemma PrivateBlocks(a: Addr)
    ensures PrivateAddr(a) <==> exists i | 0 <= i < 5 :: PrefixHolds(Masked(PrivatePrefixes()[i]), a)
  {
    hide Masked, PrefixHolds, Pow2;
    var p := PrivatePrefixes();
    forall i: nat | i < 5
      ensures PrefixHolds(Masked(p[i]), a) <==> a.V4? && p[i].addr <= a.n < p[i].addr + Size(p[i])
    {
      BlockIsRange(i, a);
    }
    BlockSizes();
    assert PrivateAddr(a) <==> (PrefixHolds(Masked(p[0]), a) || PrefixHolds(Masked(p[1]), a)
      || PrefixHolds(Masked(p[2]), a) || PrefixHolds(Masked(p[3]), a) || PrefixHolds(Masked(p[4]), a));
  }

  lemma {:induction false} BlockIsRange(i: nat, a: Addr)
    requires i < 5
    ensures var p := PrivatePrefixes()[i];
      PrefixHolds(Masked(p), a) <==> a.V4? && p.addr <= a.n < p.addr + Size(p)
  {
    var p := PrivatePrefixes()[i];
    BlockSizes();
    hide Pow2, Masked;
    assert p.v4 && p.addr % Size(p) == 0;
    hide PrivatePrefixes;
    MaskedFixed(p);
    if a.V4? {
      EntryRange(p, a.n);
    }
  }

  lemma BlockSizes()
    ensures Pow2(16) == 0x1_0000 && Pow2(20) == 0x10_0000 && Pow2(24) == 0x100_0000
  {
    assert Pow2(8) == 256 && Pow2(4) == 16;
    Pow2Split(8, 8);
    Pow2Split(8, 16);
    Pow2Split(4, 16);
  }

  lemma PreMatches(net: Netip, sets: Sets, t: Target, resolved: seq<Addr>)
    requires ReadsPrivate(net)
    ensures !NoneBefore(Pre(net, sets), |Pre(net, sets)|, t, resolved)
      <==> exists a :: a in Addresses(t, resolved) && PrivateAddr(a)
  {
    PreRules(net, sets);
    var rules, addrs := Pre(net, sets), Addresses(t, resolved);
    hide Pre, Addresses, PrivateAddr, PrefixHolds, Masked, PrivatePrefixes, ReadsPrivate;
    forall a
      ensures PrivateAddr(a) <==> exists i | 0 <= i < 5 :: PrefixHolds(Masked(PrivatePrefixes()[i]), a)
    {
      PrivateBlocks(a);
    }
    forall i | 0 <= i < 5
      ensures Matches(rules[i], t, resolved)
        <==> exists a :: a in addrs && PrefixHolds(Masked(PrivatePrefixes()[i]), a)
    {
    }
    hide Matches, IsPreRule;
  }

  /** A target with a private address, literal or resolved, is always direct, and only such
      targets are decided by the private layer. */
  lemma {:induction false} PrivateAlwaysDirect(net: Netip, sets: Sets, cfg: Config, t: Target, resolved: seq<Addr>,
                                               d: Decision)
    requires ReadsPrivate(net)
    requires Decides(Program(net, sets, cfg), RuntimeFinal(cfg, sets), t, resolved, d)
    ensures (exists a :: a in Addresses(t, resolved) && PrivateAddr(a)) <==> 0 <= d.index < 5
    ensures 0 <= d.index < 5 ==> d.action == Direct
  {
    hide Pre, DoH, User, Ads, Google, Post, Program, Addresses, PrivateAddr, NoneBefore, IsFirst, Decides, Matches;
    PreMatches(net, sets, t, resolved);
    PreRules(net, sets);
    Layered(net, sets, cfg);
    var rest := DoH(net, sets) + (User(net, sets, cfg)
      + (Ads(net, sets, cfg) + (Google(net, sets, cfg.final) + Post(net, sets))));
    if NoneBefore(Pre(net, sets), 5, t, resolved) {
      DecidedBehind(Pre(net, sets), rest, RuntimeFinal(cfg, sets), t, resolved, d);
    } else {
      DecidedInFront(Pre(net, sets), rest, RuntimeFinal(cfg, sets), t, resolved, d);
      FirstInside(Pre(net, sets), t, resolved);
    }
  }

  lemma FirstInside(a: seq<Rule>, t: Target, resolved: seq<Addr>)
    ensures forall i: nat :: IsFirst(a, i, t, resolved) ==> i < |a|
  {
  }

  // ---------- DNS-over-HTTPS hosts ----------

  predicate DoHHost(host: string) {
    host == "dns.google" || HasSuffix(host, ".dns.google") || host == "dns.google.com"
  }

  lemma {:induction false} DoHMatches(net: Netip, sets: Sets, t: Target, resolved: seq<Addr>)
    ensures !NoneBefore(DoH(net, sets), |DoH(net, sets)|, t, resolved) <==> t.literal.None? && DoHHost(t.host)
  {
    hide DoH, DoHRule, Matches, DoHHost;
    DoHRules(net, sets);
    DoHHits(t, resolved);
    var rules := DoH(net, sets);
    assert |rules| == 2 && rules[0] == DoHRule(0) && rules[1] == DoHRule(1);
  }

  lemma DoHHits(t: Target, resolved: seq<Addr>)
    ensures Matches(DoHRule(0), t, resolved) || Matches(DoHRule(1), t, resolved) <==> t.literal.None? && DoHHost(t.host)
  {
    hide ToLower, TrimPrefix, HasSuffix;
    SuffixHit(t.host, "dns.google");
    assert "." + "dns.google" == ".dns.google";
    LowerFixed("dns.google.com");
  }

  lemma SuffixHit(host: string, value: string)
    requires |value| > 0 && value[0] != '.' && forall i | 0 <= i < |value| :: !('A' <= value[i] <= 'Z')
    ensures SuffixHolds(host, value) <==> host == value || HasSuffix(host, "." + value)
  {
    assert value[..1] != ".";
    LowerFixed(value);
    hide ToLower, HasSuffix;
  }

  /** Everything behind the two leading built-in layers. */
  function Configured(net: Netip, sets: Sets, cfg: Config): seq<Rule> {
    User(net, sets, cfg) + (Ads(net, sets, cfg) + (Google(net, sets, cfg.final) + Post(net, sets)))
  }

  lemma {:induction false} BuiltinsFirst(net: Netip, sets: Sets, cfg: Config)
    ensures Program(net, sets, cfg) == (Pre(net, sets) + DoH(net, sets)) + Configured(net, sets, cfg)
  {
    hide Program, Pre, DoH, User, Ads, Google, Post;
    Layered(net, sets, cfg);
  }

  /** A DNS-over-HTTPS host without a private address is always blocked, whatever the user
      wrote, and nothing else is decided by that layer. */
  lemma {:induction false} DoHAlwaysBlocked(net: Netip, sets: Sets, cfg: Config, t: Target, resolved: seq<Addr>,
                                            d: Decision)
    requires ReadsPrivate(net)
    requires Decides(Program(net, sets, cfg), RuntimeFinal(cfg, sets), t, resolved, d)
    requires !exists a :: a in Addresses(t, resolved) && PrivateAddr(a)
    ensures t.literal.None? && DoHHost(t.host) <==> 5 <= d.index < 7
    ensures 5 <= d.index < 7 ==> d.action == Block
  {
    hide Pre, DoH, Configured, Program, Addresses, PrivateAddr, NoneBefore, IsFirst, Decides, Matches, DoHHost,
        HasSuffix,
      RuntimeFinal, ReadsPrivate;
    PreMatches(net, sets, t, resolved);
    PreRules(net, sets);
    DoHMatches(net, sets, t, resolved);
    DoHRules(net, sets);
    var front, rest := Pre(net, sets) + DoH(net, sets), Configured(net, sets, cfg);
    BuiltinsFirst(net, sets, cfg);
    FinalIndex(cfg, sets);
    FrontClear(Pre(net, sets), DoH(net, sets), t, resolved);
    if NoneBefore(DoH(net, sets), 2, t, resolved) {
      DecidedBehind(front, rest, RuntimeFinal(cfg, sets), t, resolved, d);
    } else {
      DecidedInFront(front, rest, RuntimeFinal(cfg, sets), t, resolved, d);
    }
  }

  /** Two clear parts make a clear whole; a first match behind a clear part lies in the other. */
  lemma FrontClear(a: seq<Rule>, b: seq<Rule>, t: Target, resolved: seq<Addr>)
    requires NoneBefore(a, |a|, t, resolved)
    ensures NoneBefore(a + b, |a + b|, t, resolved) <==> NoneBefore(b, |b|, t, resolved)
    ensures forall i: nat :: IsFirst(a + b, i, t, resolved) ==> |a| <= i < |a + b|
  {
    hide Matches;
    var both := a + b;
    assert forall j | 0 <= j < |a| :: both[j] == a[j];
    assert forall j | 0 <= j < |b| :: both[|a| + j] == b[j];
    assert forall j | 0 <= j < |a| :: !Matches(both[j], t, resolved);
    if NoneBefore(b, |b|, t, resolved) {
      assert forall j | |a| <= j < |both| :: both[j] == b[j - |a|];
    }
  }

  /** `IsBuiltinDoHBlocked`. */
  predicate IsBuiltinDoHBlocked(host: string) {
    var h := ToLower(TrimSuffix(TrimSpace(host), "."));
    h == "dns.google" || HasSuffix(h, ".dns.google") || h == "dns.google.com"
  }

  /** On the hosts targets carry, it names exactly those the blocking layer matches. */
  lemma {:induction false} DoHReportAgrees(net: Netip, sets: Sets, t: Target, resolved: seq<Addr>)
    requires t.literal.None? && ToLower(t.host) == t.host && TrimSpace(t.host) == t.host && !HasSuffix(t.host, ".")
    ensures IsBuiltinDoHBlocked(t.host) <==> !NoneBefore(DoH(net, sets), 2, t, resolved)
  {
    hide DoH, NoneBefore, TrimSpace, ToLower;
    DoHMatches(net, sets, t, resolved);
    DoHRules(net, sets);
  }

  // ---------- The fallback ----------

  /** A line of type FINAL among the user rules changes neither the rules nor the fallback. */
  lemma {:induction false} FinalLineInert(net: Netip, sets: Sets, cfg: Config, a: seq<string>, line: string,
                                          b: seq<string>)
    requires ParseLine(line).Some? && ParseLine(line).value.kind == "FINAL"
    ensures Program(net, sets, cfg.(rules := a + [line] + b)) == Program(net, sets, cfg.(rules := a + b))
    ensures RuntimeFinal(cfg.(rules := a + [line] + b), sets) == RuntimeFinal(cfg.(rules := a + b), sets)
  {
    var with, without := cfg.(rules := a + [line] + b), cfg.(rules := a + b);
    FinalCompilesToNothing(net, sets, line);
    hide Compiled, ParseLine, LineRules, Program, RuntimeFinal;
    CompiledSkips(net, sets, a, line, b);
    SameFallback(with, without, sets);
    SameProgram(net, sets, with, without);
  }

  lemma FinalCompilesToNothing(net: Netip, sets: Sets, line: string)
    requires ParseLine(line).Some? && ParseLine(line).value.kind == "FINAL"
    ensures LineRules(net, sets, line) == []
  {
    hide ParseLine;
  }

  /** Only the rules the user lines compile to matter. */
  lemma SameProgram(net: Netip, sets: Sets, cfg: Config, other: Config)
    requires other == cfg.(rules := other.rules) && Compiled(net, sets, other.rules) == Compiled(net, sets, cfg.rules)
    ensures Program(net, sets, other) == Program(net, sets, cfg)
  {
    hide Compiled, Program, Pre, DoH, Google, Post, AdBlockLines;
    Layered(net, sets, cfg);
    Layered(net, sets, other);
    SameAds(cfg, other);
  }

  lemma SameFallback(cfg: Config, other: Config, sets: Sets)
    requires other == cfg.(rules := other.rules)
    ensures RuntimeFinal(other, sets) == RuntimeFinal(cfg, sets)
  {
    hide ParseAction, Ready;
  }

  lemma SameAds(cfg: Config, other: Config)
    requires other == cfg.(rules := other.rules)
    ensures AdBlockLines(other) == AdBlockLines(cfg)
  {
  }

  lemma CompiledSkips(net: Netip, sets: Sets, a: seq<string>, line: string, b: seq<string>)
    requires LineRules(net, sets, line) == []
    ensures Compiled(net, sets, a + [line] + b) == Compiled(net, sets, a + b)
  {
    hide LineRules;
    assert Compiled(net, sets, [line]) == [] by { assert [line][..0] == []; }
    CompiledConcat(net, sets, a, b);
    CompiledConcat(net, sets, a + [line], b);
    CompiledConcat(net, sets, a, [line]);
    hide Compiled;
    assert Compiled(net, sets, a) + [] == Compiled(net, sets, a);
  }

  /** A proxied connection was sent there by a rule, or both domestic sets are loaded. */
  lemma {:induction false} ProxyNeedsRuleOrSets(net: Netip, sets: Sets, cfg: Config, t: Target,
                                                resolved: seq<Addr>, d: Decision)
    requires Decides(Program(net, sets, cfg), RuntimeFinal(cfg, sets), t, resolved, d)
    requires d.action == Proxy && !Ready(sets)
    ensures 0 <= d.index < |Program(net, sets, cfg)|
    ensures d.action == Program(net, sets, cfg)[d.index].action && d.egress == Program(net, sets, cfg)[d.index].egress
    ensures Matches(Program(net, sets, cfg)[d.index], t, resolved)
  {
    hide Program, Matches, NoneBefore, Ready, ParseAction;
    var i: nat :| IsFirst(Program(net, sets, cfg), i, t, resolved) && d == DecisionOf(Program(net, sets, cfg)[i], i);
  }

  // ---------- The Google block ----------

  lemma PlainDomain(i: nat)
    requires i < |GoogleDomains()|
    ensures Plain(GoogleDomains()[i]) && GoogleDomains()[i] != ""
  {
  }

  /** Trimmed text has solid edges. */
  lemma {:induction false} TrimRightSolid(s: string)
    ensures TrimRight(s) <= s
    ensures TrimRight(s) != "" ==> !IsSpace(TrimRight(s)[|TrimRight(s)| - 1])
  {
    if s != "" && IsSpace(s[|s| - 1]) {
      TrimRightSolid(s[..|s| - 1]);
    }
  }

  lemma {:induction false} TrimLeftSolid(s: string)
    ensures TrimLeft(s) != "" ==> !IsSpace(TrimLeft(s)[0])
  {
    if s != "" && IsSpace(s[0]) {
      TrimLeftSolid(s[1..]);
    }
  }

  lemma TrimmedSolid(s: string)
    ensures TrimSpace(s) != "" ==> EdgesSolid(TrimSpace(s))
  {
    hide TrimLeft, TrimRight;
    TrimLeftSolid(s);
    TrimRightSolid(TrimLeft(s));
  }

  /** A named fallback egress never ends in a space. */
  lemma EgressEnd(final: string)
    ensures var eg := ParseAction(final).1; eg != "" ==> !IsSpace(eg[|eg| - 1])
  {
    hide TrimSpace;
    TrimmedSolid(final);
  }

  /** The egress the Google lines carry: the fallback egress up to its first comma. */
  function GoogleEgress(final: string): string {
    var (act, eg) := ParseAction(final);
    if act == Proxy && eg != "" then TrimRight(Before(eg, ',')) else ""
  }

  lemma {:induction false} TrimRightBehind(head: string, s: string)
    requires head != "" && !IsSpace(head[|head| - 1])
    ensures TrimRight(head + s) == head + TrimRight(s)
  {
    if s == "" {
      assert head + s == head;
    } else if IsSpace(s[|s| - 1]) {
      assert (head + s)[..|head + s| - 1] == head + s[..|s| - 1];
      TrimRightBehind(head, s[..|s| - 1]);
    }
  }

  lemma {:induction false} BeforeBehind(head: string, s: string)
    requires ',' !in head
    ensures Before(head + s, ',') == head + Before(s, ',')
  {
    if head == "" {
      assert head + s == s;
    } else {
      assert (head + s)[1..] == head[1..] + s;
      BeforeBehind(head[1..], s);
    }
  }

  /** A named proxy action, read back from the third field of a line. */
  lemma {:induction false} NamedActionRead(eg: string)
    requires eg != "" && !IsSpace(eg[|eg| - 1])
    ensures EdgesSolid("proxy:" + eg)
    ensures ParseAction(TrimSpace(Before("proxy:" + eg, ','))) == (Proxy, TrimRight(Before(eg, ',')))
  {
    hide TrimRight, Before, TrimSpace, ParseAction, EdgesSolid;
    var head := "proxy:";
    ProxyHead();
    SolidBehind(head, eg);
    FieldRead(head, eg);
    TrimRightSolid(Before(eg, ','));
    SolidField(head, TrimRight(Before(eg, ',')));
  }

  lemma ProxyHead()
    ensures EdgesSolid("proxy:") && ',' !in "proxy:"
  {
  }

  lemma SolidBehind(head: string, s: string)
    requires EdgesSolid(head) && s != "" && !IsSpace(s[|s| - 1])
    ensures EdgesSolid(head + s)
  {
  }

  lemma {:induction false} FieldRead(head: string, eg: string)
    requires EdgesSolid(head) && ',' !in head
    ensures TrimSpace(Before(head + eg, ',')) == head + TrimRight(Before(eg, ','))
  {
    hide TrimRight, Before, TrimSpace, EdgesSolid;
    BeforeBehind(head, eg);
    TrimBehind(head, Before(eg, ','));
  }

  lemma TrimBehind(head: string, s: string)
    requires EdgesSolid(head)
    ensures TrimSpace(head + s) == head + TrimRight(s)
  {
    hide TrimRight;
    TrimRightBehind(head, s);
    assert (head + s)[0] == head[0];
  }

  lemma SolidField(head: string, rest: string)
    requires head == "proxy:" && (rest != "" ==> !IsSpace(rest[|rest| - 1]))
    ensures ParseAction(head + rest) == (Proxy, rest)
  {
    hide TrimSpace;
    var field := head + rest;
    assert field[0] == 'p' && field[1] == 'r' && field[5] == ':';
    TrimNothing(field);
    assert field[..6] == head && field[6..] == rest;
  }

  lemma {:induction false} GoogleLine(net: Netip, sets: Sets, final: string, i: nat)
    requires i < |GoogleDomains()|
    ensures LineRules(net, sets, Line("DOMAIN-SUFFIX", GoogleDomains()[i], GoogleAction(final)))
      == [Rule("DOMAIN-SUFFIX", GoogleDomains()[i], Proxy, GoogleEgress(final), None, None, None)]
  {
    hide Plain, EdgesSolid, GoogleDomains, ParseLine, Line, ParseAction, TrimRight, Before, ToUpper, TrimSpace, IsSpace;
    PlainDomain(i);
    PlainWords();
    UpperKinds();
    FixedActions();
    var (act, eg) := ParseAction(final);
    EgressEnd(final);
    if act == Proxy && eg != "" {
      NamedActionRead(eg);
      LineWithRest("DOMAIN-SUFFIX", GoogleDomains()[i], "proxy:" + eg);
    } else {
      PlainLine("DOMAIN-SUFFIX", GoogleDomains()[i], "proxy");
    }
  }

  lemma GoogleRules(net: Netip, sets: Sets, final: string)
    ensures |Google(net, sets, final)| == |GoogleDomains()|
    ensures forall i | 0 <= i < |GoogleDomains()| ::
      Google(net, sets, final)[i]
            == Rule("DOMAIN-SUFFIX", GoogleDomains()[i], Proxy, GoogleEgress(final), None, None, None)
  {
    forall i: nat | i < |GoogleDomains()|
      ensures LineRules(net, sets, GoogleLines(final)[i])
        == [Rule("DOMAIN-SUFFIX", GoogleDomains()[i], Proxy, GoogleEgress(final), None, None, None)]
    {
      GoogleLine(net, sets, final, i);
    }
    hide Line, LineRules, GoogleDomains, GoogleEgress, GoogleAction, GoogleLines, Compiled;
    OneRuleEach(net, sets, GoogleLines(final));
  }

  /** The Google lines follow a named fallback egress exactly when its name has no comma. */
  lemma GoogleFollowsFinal(final: string)
    requires ParseAction(final).0 == Proxy
    ensures GoogleEgress(final) == ParseAction(final).1 <==> ',' !in ParseAction(final).1
  {
    hide ParseAction, IsSpace, Before;
    var eg := ParseAction(final).1;
    EgressEnd(final);
    TrimRightSolid(Before(eg, ','));
  }

  /** An egress with a comma in its name is cut there in the Google lines. */
  lemma CommaCutsEgress(name: string, rest: string)
    requires EdgesSolid(name) && ',' !in name && rest != "" && !IsSpace(rest[|rest| - 1])
    ensures var eg := name + [','] + rest;
      ParseAction("proxy:" + eg) == (Proxy, eg) && GoogleEgress("proxy:" + eg) == name
  {
    hide ParseAction, Before, TrimRight, IsSpace;
    var eg := name + [','] + rest;
    assert eg != "" && !IsSpace(eg[|eg| - 1]);
    SolidField("proxy:", eg);
    CutAtComma(name, rest);
  }

  lemma CutAtComma(name: string, rest: string)
    requires EdgesSolid(name) && ',' !in name
    ensures TrimRight(Before(name + [','] + rest, ',')) == name
  {
    hide Before;
    BeforeField(name, ',', rest);
  }

  predicate SameButEgress(r: Rule, q: Rule) {
    q == r.(egress := q.egress)
  }

  lemma SameMatches(r: Rule, q: Rule, t: Target, resolved: seq<Addr>)
    requires SameButEgress(r, q)
    ensures Matches(r, t, resolved) == Matches(q, t, resolved)
  {
    hide SuffixHolds, SomeInPrefix, SomeInSet, DomainIndex.NaiveMatch, Text.Contains, Addresses;
  }

  /** Where the Google block starts in the compiled list. */
  function GoogleStart(net: Netip, sets: Sets, cfg: Config): nat {
    |Pre(net, sets)| + |DoH(net, sets)| + |User(net, sets, cfg)| + |Ads(net, sets, cfg)|
  }

  lemma {:induction false} ProgramsAlike(net: Netip, sets: Sets, cfg: Config, final: string)
    ensures var p, q := Program(net, sets, cfg), Program(net, sets, cfg.(final := final));
      |p| == |q| && forall i | 0 <= i < |p| ::
        SameButEgress(p[i], q[i]) &&
        (p[i] == q[i] || GoogleStart(net, sets, cfg) <= i < GoogleStart(net, sets, cfg) + |GoogleDomains()|)
  {
    var other := cfg.(final := final);
    Layered(net, sets, cfg);
    Layered(net, sets, other);
    GoogleAlike(net, sets, cfg.final, final);
    assert User(net, sets, cfg) == User(net, sets, other) && Ads(net, sets, cfg) == Ads(net, sets, other);
    hide Pre, DoH, User, Ads, Google, Post, Program, GoogleDomains, SameButEgress;
    Regroup(Pre(net, sets), DoH(net, sets), User(net, sets, cfg), Ads(net, sets, cfg), Google(net, sets,
        cfg.final), Post(net, sets));
    Regroup(Pre(net, sets), DoH(net, sets), User(net, sets, cfg), Ads(net, sets, cfg), Google(net, sets, final),
        Post(net, sets));
    AlikeInside(Pre(net, sets) + (DoH(net, sets) + (User(net, sets, cfg) + Ads(net, sets, cfg))),
      Google(net, sets, cfg.final), Google(net, sets, final), Post(net, sets));
  }

  lemma GoogleAlike(net: Netip, sets: Sets, final: string, other: string)
    ensures var g, h := Google(net, sets, final), Google(net, sets, other);
      |g| == |h| == |GoogleDomains()| && forall i | 0 <= i < |g| :: SameButEgress(g[i], h[i])
  {
    hide Google, GoogleDomains, GoogleEgress;
    GoogleRules(net, sets, final);
    GoogleRules(net, sets, other);
  }

  lemma Regroup(p: seq<Rule>, d: seq<Rule>, u: seq<Rule>, a: seq<Rule>, g: seq<Rule>, q: seq<Rule>)
    ensures p + (d + (u + (a + (g + q)))) == (p + (d + (u + a))) + (g + q)
  {
  }

  lemma AlikeInside(front: seq<Rule>, g: seq<Rule>, h: seq<Rule>, back: seq<Rule>)
    requires |g| == |h| && forall i | 0 <= i < |g| :: SameButEgress(g[i], h[i])
    ensures var p, q := front + (g + back), front + (h + back);
      forall i | 0 <= i < |p| ::
        SameButEgress(p[i], q[i]) && (p[i] == q[i] || |front| <= i < |front| + |g|)
  {
  }

  /** Two configurations that differ only in their fallback decide every target by the same
      rule or both by the fallback; they differ at most in the egress of a Google rule. */
  lemma {:induction false} FinalChangesOnlyFallback(net: Netip, sets: Sets, cfg: Config, final: string,
                                 t: Target, resolved: seq<Addr>, d: Decision, e: Decision)
    requires Decides(Program(net, sets, cfg), RuntimeFinal(cfg, sets), t, resolved, d)
    requires Decides(Program(net, sets, cfg.(final := final)), RuntimeFinal(cfg.(final := final), sets), t, resolved, e)
    ensures d.index == e.index
    ensures d.index >= 0 ==> d.action == e.action && d.rule == e.rule
    ensures d.index >= 0 && d != e ==>
      GoogleStart(net, sets, cfg) <= d.index < GoogleStart(net, sets, cfg) + |GoogleDomains()|
  {
    hide Program, Matches, GoogleStart, GoogleDomains, RuntimeFinal;
    ProgramsAlike(net, sets, cfg, final);
    var p, q := Program(net, sets, cfg), Program(net, sets, cfg.(final := final));
    forall i | 0 <= i < |p|
      ensures Matches(p[i], t, resolved) == Matches(q[i], t, resolved)
    {
      SameMatches(p[i], q[i], t, resolved);
    }
    if NoneBefore(p, |p|, t, resolved) {
      assert NoneBefore(q, |q|, t, resolved);
      FinalIndex(cfg, sets);
      FinalIndex(cfg.(final := final), sets);
    } else {
      var i := FirstOf(p, t, resolved);
      assert IsFirst(q, i, t, resolved);
      DecisionIsUnique(p, RuntimeFinal(cfg, sets), t, resolved, d, DecisionOf(p[i], i));
      DecisionIsUnique(q, RuntimeFinal(cfg.(final := final), sets), t, resolved, e, DecisionOf(q[i], i));
    }
  }

  lemma FinalIndex(cfg: Config, sets: Sets)
    ensures RuntimeFinal(cfg, sets).index == -1
  {
  }

  // ---------- The allow-list ----------

  predicate AllDirect(rules: seq<Rule>) {
    forall r | r in rules :: r.action == Direct
  }

  function AllowRule(d: string): Rule {
    Rule("DOMAIN-SUFFIX", d, Direct, "", None, None, None)
  }

  lemma {:induction false} AllowLinesDirect(net: Netip, sets: Sets, allowlist: seq<string>)
    ensures AllDirect(Compiled(net, sets, AllowLines(allowlist)))
  {
    if allowlist != [] {
      var front, last := allowlist[..|allowlist| - 1], allowlist[|allowlist| - 1];
      AllowLinesDirect(net, sets, front);
      AllowEntry(net, sets, last);
      hide Compiled, AllowEntryLines, AllDirect;
      CompiledConcat(net, sets, AllowLines(front), AllowEntryLines(last));
      BothDirect(Compiled(net, sets, AllowLines(front)), Compiled(net, sets, AllowEntryLines(last)));
    } else {
      assert Compiled(net, sets, AllowLines(allowlist)) == [];
    }
  }

  lemma {:induction false} AllowRuleListed(net: Netip, sets: Sets, allowlist: seq<string>, k: nat)
    requires k < |allowlist| && AllowedSuffix(allowlist[k]).Some?
    ensures AllowRule(AllowedSuffix(allowlist[k]).value) in Compiled(net, sets, AllowLines(allowlist))
  {
    hide Compiled, AllowEntryLines, AllDirect, AllowedSuffix, AllowRule;
    var front, last := allowlist[..|allowlist| - 1], allowlist[|allowlist| - 1];
    if k < |front| {
      AllowRuleListed(net, sets, front, k);
    } else {
      AllowEntry(net, sets, last);
    }
    CompiledConcat(net, sets, AllowLines(front), AllowEntryLines(last));
  }

  lemma BothDirect(a: seq<Rule>, b: seq<Rule>)
    requires AllDirect(a) && AllDirect(b)
    ensures AllDirect(a + b)
  {
  }

  lemma AllowedPlain(entry: string)
    requires AllowedSuffix(entry).Some?
    ensures Plain(AllowedSuffix(entry).value)
  {
    TrimmedSolid(TrimPrefix(TrimSpace(entry), "."));
    hide TrimSpace, TrimPrefix;
  }

  lemma {:induction false} AllowEntry(net: Netip, sets: Sets, entry: string)
    ensures var rules := Compiled(net, sets, AllowEntryLines(entry));
      AllDirect(rules) && (AllowedSuffix(entry).Some? ==> AllowRule(AllowedSuffix(entry).value) in rules)
  {
    if AllowedSuffix(entry).Some? {
      var d := AllowedSuffix(entry).value;
      AllowedPlain(entry);
      PlainWords();
      UpperKinds();
      FixedActions();
      hide AllowedSuffix, Plain, ToUpper, ParseAction, ParseLine, Line;
      PlainLine("DOMAIN-SUFFIX", d, "direct");
      assert AllowEntryLines(entry)[..0] == [];
      assert Compiled(net, sets, AllowEntryLines(entry)) == [AllowRule(d)];
    }
  }

  /** A host under a valid allow-list entry is never blocked by the ad-blocking layer. */
  lemma {:induction false} AllowListWins(net: Netip, sets: Sets, cfg: Config, t: Target, resolved: seq<Addr>,
                                         d: Decision, k: nat)
    requires cfg.adBlock && k < |cfg.allowlist| && AllowedSuffix(cfg.allowlist[k]).Some?
    requires t.literal.None? && SuffixHolds(t.host, AllowedSuffix(cfg.allowlist[k]).value)
    requires Decides(Program(net, sets, cfg), RuntimeFinal(cfg, sets), t, resolved, d)
    ensures 0 <= d.index < GoogleStart(net, sets, cfg)
    ensures d.index >= GoogleStart(net, sets, cfg) - |Ads(net, sets, cfg)| ==> d.action == Direct
  {
    var d0 := AllowedSuffix(cfg.allowlist[k]).value;
    var allow, block := Compiled(net, sets, AllowLines(cfg.allowlist)), Compiled(net, sets, [BlockLine()]);
    var front := Pre(net, sets) + (DoH(net, sets) + User(net, sets, cfg));
    AllowLinesDirect(net, sets, cfg.allowlist);
    AllowRuleListed(net, sets, cfg.allowlist, k);
    assert Matches(AllowRule(d0), t, resolved);
    Layered(net, sets, cfg);
    CompiledConcat(net, sets, AllowLines(cfg.allowlist), [BlockLine()]);
    hide Pre, DoH, User, Google, Post, Program, Matches, Compiled, AllowLines, AllowedSuffix, BlockLine, AllowRule;
    assert Ads(net, sets, cfg) == allow + block;
    var rest := block + (Google(net, sets, cfg.final) + Post(net, sets));
    AllowInFront(Pre(net, sets), DoH(net, sets), User(net, sets, cfg), allow, block, Google(net, sets,
        cfg.final) + Post(net, sets));
    hide Ads;
    SomeInFront(front, allow, AllowRule(d0), t, resolved);
    DecidedInFront(front + allow, rest, RuntimeFinal(cfg, sets), t, resolved, d);
    var i: nat :| IsFirst(front + allow, i, t, resolved) && d == DecisionOf((front + allow)[i], i);
    assert i >= |front| ==> (front + allow)[i] in allow;
  }

  lemma SomeInFront(front: seq<Rule>, allow: seq<Rule>, r: Rule, t: Target, resolved: seq<Addr>)
    requires r in allow && Matches(r, t, resolved)
    ensures !NoneBefore(front + allow, |front + allow|, t, resolved)
  {
    hide Matches;
    var j :| 0 <= j < |allow| && allow[j] == r;
    assert (front + allow)[|front| + j] == r;
  }

  lemma AllowInFront(p: seq<Rule>, d: seq<Rule>, u: seq<Rule>, a: seq<Rule>, b: seq<Rule>, g: seq<Rule>)
    ensures p + (d + (u + ((a + b) + g))) == ((p + (d + u)) + a) + (b + g)
  {
  }
}
