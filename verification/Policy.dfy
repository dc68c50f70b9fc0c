/** The ordered first-match engine, and how a configuration is compiled into it in six layers. */
module Policy {
  import opened Common
  import opened Text
  import opened CidrIndex
  import DomainIndex

  // ---------- Decisions, rules, targets ----------

  datatype Action = Direct | Proxy | Block

  datatype Decision = Decision(action: Action, egress: string, rule: string, index: int)

  /** A loaded address set: two sorted lists. */
  datatype RawLists = Lists(v4: seq<Prefix>, v6: seq<Prefix>)
  type CidrLists = l: RawLists | Sorted(l.v4) && Sorted(l.v6) witness Lists([], [])

  /** The named sets registered with the engine, each as its index answers for it. */
  datatype Sets = Sets(domains: map<string, seq<DomainIndex.Rule>>, cidrs: map<string, CidrLists>)

  datatype Rule = Rule(kind: string, value: string, action: Action, egress: string,
                       domains: Option<seq<DomainIndex.Rule>>, cidrs: Option<CidrLists>, prefix: Option<Prefix>)

  /** A connection target: a lower-case host, and its address when the host is a literal. */
  datatype Target = Target(host: string, literal: Option<Addr>)

  /** `Prefix.Contains`. */
  predicate PrefixHolds(p: Prefix, a: Addr) {
    !Zoned(a) && p.v4 == a.V4? && CidrIndex.Contains(p, a.n)
  }

  /** `CIDRSet.Match`. */
  ghost predicate CidrHolds(l: CidrLists, a: Addr) {
    var x := Unmap(a);
    !Zoned(x) && InWindow(if x.V6? then l.v6 else l.v4, x.n)
  }

  /** The addresses a rule looks at: the literal one and the resolved ones. */
  function Addresses(t: Target, resolved: seq<Addr>): seq<Addr> {
    (if t.literal.Some? then [t.literal.value] else []) + resolved
  }

  predicate SuffixHolds(host: string, value: string) {
    var v := ToLower(TrimPrefix(value, "."));
    host == v || HasSuffix(host, "." + v)
  }

  ghost predicate SomeInPrefix(p: Option<Prefix>, addrs: seq<Addr>) {
    p.Some? && exists a :: a in addrs && PrefixHolds(p.value, a)
  }

  ghost predicate SomeInSet(l: Option<CidrLists>, addrs: seq<Addr>) {
    l.Some? && exists a :: a in addrs && CidrHolds(l.value, a)
  }

  /** `Rule.matches`. */
  ghost predicate Matches(r: Rule, t: Target, resolved: seq<Addr>) {
    if r.kind == "DOMAIN" then t.literal.None? && t.host == ToLower(r.value)
    else if r.kind == "DOMAIN-SUFFIX" then t.literal.None? && SuffixHolds(t.host, r.value)
    else if r.kind == "DOMAIN-KEYWORD" then t.literal.None? && Text.Contains(t.host, ToLower(r.value))
    else if r.kind == "IP-CIDR" then SomeInPrefix(r.prefix, Addresses(t, resolved))
    else if r.kind == "GEOIP" then SomeInSet(r.cidrs, Addresses(t, resolved))
    else if r.kind == "RULE-SET" then
      || (t.literal.None? && r.domains.Some? && DomainIndex.NaiveMatch(r.domains.value, t.host))
      || SomeInSet(r.cidrs, Addresses(t, resolved))
    else false
  }

  function DecisionOf(r: Rule, i: nat): Decision {
    Decision(r.action, r.egress, r.kind + "," + r.value, i)
  }

  ghost predicate NoneBefore(rules: seq<Rule>, n: nat, t: Target, resolved: seq<Addr>) {
    forall j | 0 <= j < n && j < |rules| :: !Matches(rules[j], t, resolved)
  }

  ghost predicate IsFirst(rules: seq<Rule>, i: nat, t: Target, resolved: seq<Addr>) {
    i < |rules| && Matches(rules[i], t, resolved) && NoneBefore(rules, i, t, resolved)
  }

  /** What first match means. */
  ghost predicate Decides(rules: seq<Rule>, final: Decision, t: Target, resolved: seq<Addr>, d: Decision) {
    || (exists i: nat :: IsFirst(rules, i, t, resolved) && d == DecisionOf(rules[i], i))
    || (NoneBefore(rules, |rules|, t, resolved) && d == final)
  }

  lemma FirstIsUnique(rules: seq<Rule>, t: Target, resolved: seq<Addr>, i: nat, j: nat)
    requires IsFirst(rules, i, t, resolved) && IsFirst(rules, j, t, resolved)
    ensures i == j
  {
    hide Matches;
    FirstOrdered(rules, t, resolved, i, j);
    FirstOrdered(rules, t, resolved, j, i);
  }

  lemma FirstOrdered(rules: seq<Rule>, t: Target, resolved: seq<Addr>, i: nat, j: nat)
    requires IsFirst(rules, i, t, resolved) && IsFirst(rules, j, t, resolved)
    ensures i <= j
  {
    hide Matches;
  }

  /** The decision is determined. */
  lemma {:induction false} DecisionIsUnique(rules: seq<Rule>, final: Decision, t: Target, resolved: seq<Addr>,
                                            d: Decision, e: Decision)
    requires Decides(rules, final, t, resolved, d) && Decides(rules, final, t, resolved, e)
    ensures d == e
  {
    hide Matches;
    if exists i: nat :: IsFirst(rules, i, t, resolved) && d == DecisionOf(rules[i], i) {
      var i: nat :| IsFirst(rules, i, t, resolved) && d == DecisionOf(rules[i], i);
      var j: nat :| IsFirst(rules, j, t, resolved) && e == DecisionOf(rules[j], j);
      FirstIsUnique(rules, t, resolved, i, j);
    }
  }

  // ---------- Normalised answers ----------

  /** `normalizeAddrs`: unmapped, without the zero address, first occurrences only. */
  function NormalizeAddrs(answers: seq<Option<Addr>>): (r: seq<Addr>)
    ensures forall a :: a in r <==> exists i :: 0 <= i < |answers| && answers[i].Some? && Unmap(answers[i].value) == a
    ensures forall i, j | 0 <= i < j < |r| :: r[i] != r[j]
  {
    if answers == [] then []
    else
      var front, last := answers[..|answers| - 1], answers[|answers| - 1];
      var before := NormalizeAddrs(front);
      if last.None? || Unmap(last.value) in before then before else before + [Unmap(last.value)]
  }

  method NormalizeAnswers(answers: seq<Option<Addr>>) returns (out: seq<Addr>)
    ensures out == NormalizeAddrs(answers)
  {
    out := [];
    var seen: set<Addr> := {};
    for n := 0 to |answers|
      invariant out == NormalizeAddrs(answers[..n])
      invariant forall a :: a in seen <==> a in out
    {
      assert answers[..n + 1][..n] == answers[..n];
      if answers[n].None? {
        continue;
      }
      var a := Unmap(answers[n].value);
      if a in seen {
        continue;
      }
      seen := seen + {a};
      out := out + [a];
    }
    assert answers[..|answers|] == answers;
  }

  /** Only which addresses were answered matters, not their order or repetition. */
  lemma {:induction false} OrderIrrelevant(r: Rule, t: Target, xs: seq<Addr>, ys: seq<Addr>)
    requires forall a :: a in xs <==> a in ys
    ensures Matches(r, t, xs) == Matches(r, t, ys)
  {
    var ax, ay := Addresses(t, xs), Addresses(t, ys);
    assert forall a :: a in ax <==> a in ay;
    hide PrefixHolds, CidrHolds, DomainIndex.NaiveMatch, Text.Contains, SuffixHolds, Addresses;
  }

  // ---------- Reading a configuration line ----------

  /** `parseAction`. */
  function ParseAction(s: string): (Action, string) {
    var a := TrimSpace(s);
    if a == "direct" then (Direct, "")
    else if a == "block" || a == "reject" then (Block, "")
    else if a == "proxy" then (Proxy, "")
    else if HasPrefix(a, "proxy:") then (Proxy, TrimPrefix(a, "proxy:"))
    else (Proxy, a)
  }

  datatype Spec = Spec(kind: string, value: string, action: Action, egress: string)

  /** TYPE,VALUE,ACTION; further fields are ignored, fewer are an error. */
  function ParseLine(line: string): Option<Spec> {
    var parts := Split(TrimSpace(line), ',');
    if |parts| < 3 then None
    else
      var (act, eg) := ParseAction(TrimSpace(parts[2]));
      Some(Spec(ToUpper(TrimSpace(parts[0])), TrimSpace(parts[1]), act, eg))
  }

  datatype Outcome = Added(rule: Rule) | Final | Refused

  function Find<V>(m: map<string, V>, k: string): Option<V> {
    if k in m then Some(m[k]) else None
  }

  /** What `AddRule` makes of a parsed line. */
  function Compile(net: Netip, sets: Sets, s: Spec): Outcome {
    var bare := Rule(s.kind, s.value, s.action, s.egress, None, None, None);
    if s.kind == "IP-CIDR" then
      match net.parsePrefix(s.value)
      case None => Refused
      case Some(p) => Added(bare.(prefix := Some(Masked(p))))
    else if s.kind == "RULE-SET" then
      if s.value !in sets.domains && s.value !in sets.cidrs then Refused
      else Added(bare.(domains := Find(sets.domains, s.value), cidrs := Find(sets.cidrs, s.value)))
    else if s.kind == "GEOIP" then
      var name := "geoip:" + ToLower(s.value);
      if name !in sets.cidrs then Refused else Added(bare.(cidrs := Find(sets.cidrs, name)))
    else if s.kind == "DOMAIN" || s.kind == "DOMAIN-SUFFIX" || s.kind == "DOMAIN-KEYWORD" then
      if s.value == "" then Refused else Added(bare)
    else if s.kind == "FINAL" then Final
    else Refused
  }

  predicate WellFormed(lines: seq<string>) {
    forall i | 0 <= i < |lines| :: ParseLine(lines[i]).Some?
  }

  /** The rules one line contributes: one, or none if it is refused or sets the fallback. */
  function LineRules(net: Netip, sets: Sets, line: string): seq<Rule> {
    match ParseLine(line)
    case None => []
    case Some(s) =>
      match Compile(net, sets, s)
      case Added(r) => [r]
      case _ => []
  }

  function Compiled(net: Netip, sets: Sets, lines: seq<string>): seq<Rule> {
    if lines == [] then []
    else Compiled(net, sets, lines[..|lines| - 1]) + LineRules(net, sets, lines[|lines| - 1])
  }

  lemma {:induction false} CompiledConcat(net: Netip, sets: Sets, a: seq<string>, b: seq<string>)
    ensures Compiled(net, sets, a + b) == Compiled(net, sets, a) + Compiled(net, sets, b)
  {
    hide LineRules;
    if b == [] {
      assert a + b == a;
    } else {
      var n := |b| - 1;
      CompiledConcat(net, sets, a, b[..n]);
      assert (a + b)[..|a + b| - 1] == a + b[..n];
    }
  }

  // ---------- The layers ----------

  datatype Config = Config(rules: seq<string>, final: string, adBlock: bool, allowlist: seq<string>)

  function Line(kind: string, value: string, action: string): string {
    kind + "," + (value + "," + action)
  }

  function PrivateRanges(): seq<string> {
    ["10.0.0.0/8", "172.16.0.0/12", "192.168.0.0/16", "127.0.0.0/8", "169.254.0.0/16"]
  }

  /** The five blocks as prefixes, in the same order. */
  function PrivatePrefixes(): seq<Prefix> {
    [ RawPrefix.Prefix(true, 0x0A00_0000, 8), RawPrefix.Prefix(true, 0xAC10_0000, 12),
      RawPrefix.Prefix(true, 0xC0A8_0000, 16), RawPrefix.Prefix(true, 0x7F00_0000, 8),
      RawPrefix.Prefix(true, 0xA9FE_0000, 16) ]
  }

  function BuiltinPre(): (r: seq<string>)
    ensures |r| == |PrivateRanges()|
  {
    seq(|PrivateRanges()|, i requires 0 <= i < |PrivateRanges()| => Line("IP-CIDR", PrivateRanges()[i], "direct"))
  }

  function DoHSuffixLine(): string {
    Line("DOMAIN-SUFFIX", "dns.google", "block")
  }

  function DoHDomainLine(): string {
    Line("DOMAIN", "dns.google.com", "block")
  }

  function BuiltinDoHBlock(): seq<string> {
    [DoHSuffixLine(), DoHDomainLine()]
  }

  function GoogleDomains(): seq<string> {
    [ "dl.google.com", "dl.l.google.com", "android.clients.google.com", "android.l.google.com",
      "gvt1.com", "gvt2.com", "gvt3.com", "ggpht.com", "googleapis.com", "gstatic.com", "googleusercontent.com" ]
  }

  function BuiltinGoogleFix(): (r: seq<string>)
    ensures |r| == |GoogleDomains()|
  {
    seq(|GoogleDomains()|, i requires 0 <= i < |GoogleDomains()| => Line("DOMAIN-SUFFIX", GoogleDomains()[i], "proxy"))
  }

  /** The action of the Google lines: the configured fallback egress, when there is one. */
  function GoogleAction(final: string): string {
    var (act, eg) := ParseAction(final);
    if act == Proxy && eg != "" then "proxy:" + eg else "proxy"
  }

  function GoogleLines(final: string): (r: seq<string>)
    ensures |r| == |GoogleDomains()|
  {
    seq(|GoogleDomains()|, i requires 0 <= i < |GoogleDomains()| =>
      Line("DOMAIN-SUFFIX", GoogleDomains()[i], GoogleAction(final)))
  }

  /** The loop that appends the fallback egress to every Google line. */
  method GoogleFixFor(final: string) returns (lines: seq<string>)
    ensures lines == GoogleLines(final)
  {
    hide ParseAction, GoogleDomains;
    lines := BuiltinGoogleFix();
    var (act, eg) := ParseAction(final);
    if act == Proxy && eg != "" {
      for i := 0 to |lines|
        invariant |lines| == |GoogleDomains()|
        invariant forall j | 0 <= j < i :: lines[j] == GoogleLines(final)[j]
        invariant forall j | i <= j < |lines| :: lines[j] == BuiltinGoogleFix()[j]
      {
        AppendToLine("DOMAIN-SUFFIX", GoogleDomains()[i], "proxy", ":" + eg);
        assert "proxy" + (":" + eg) == "proxy:" + eg;
        lines := lines[i := lines[i] + (":" + eg)];
      }
    }
  }

  lemma AppendToLine(kind: string, value: string, action: string, more: string)
    ensures Line(kind, value, action) + more == Line(kind, value, action + more)
  {
  }

  function BuiltinPost(): seq<string> {
    [Line("RULE-SET", "cn-domain", "direct"), Line("GEOIP", "cn", "direct")]
  }

  /** An allow-list entry, cleaned; entries that could not be written as a line are dropped. */
  function AllowedSuffix(entry: string): Option<string> {
    var d := TrimSpace(TrimPrefix(TrimSpace(entry), "."));
    if d == "" || ',' in d || '/' in d || ' ' in d then None else Some(d)
  }

  function AllowEntryLines(entry: string): seq<string> {
    match AllowedSuffix(entry)
    case Some(d) => [Line("DOMAIN-SUFFIX", d, "direct")]
    case None => []
  }

  function AllowLines(allowlist: seq<string>): seq<string> {
    if allowlist == [] then []
    else AllowLines(allowlist[..|allowlist| - 1]) + AllowEntryLines(allowlist[|allowlist| - 1])
  }

  function BlockLine(): string {
    Line("RULE-SET", "ad-block", "block")
  }

  function AdBlockLines(cfg: Config): seq<string> {
    if !cfg.adBlock then [] else AllowLines(cfg.allowlist) + [BlockLine()]
  }

  /** `BuiltinAdBlock`: the allow-list lines before the blocking line. */
  method BuiltinAdBlock(cfg: Config) returns (out: seq<string>)
    ensures out == AdBlockLines(cfg)
  {
    hide AllowedSuffix;
    if !cfg.adBlock {
      return [];
    }
    out := [];
    for i := 0 to |cfg.allowlist|
      invariant out == AllowLines(cfg.allowlist[..i])
    {
      assert cfg.allowlist[..i + 1][..i] == cfg.allowlist[..i];
      var d := AllowedSuffix(cfg.allowlist[i]);
      if d.None? {
        continue;
      }
      out := out + [Line("DOMAIN-SUFFIX", d.value, "direct")];
    }
    assert cfg.allowlist[..|cfg.allowlist|] == cfg.allowlist;
    out := out + [BlockLine()];
  }

  /** The compilation order. */
  function AllLines(cfg: Config): seq<string> {
    BuiltinPre() + (BuiltinDoHBlock() + (cfg.rules + (AdBlockLines(cfg)
      + (GoogleLines(cfg.final) + BuiltinPost()))))
  }

  /** Both domestic sets are registered and not empty. */
  predicate Ready(sets: Sets) {
    && "cn-domain" in sets.domains && DomainIndex.CountRules(sets.domains["cn-domain"]) > 0
    && "geoip:cn" in sets.cidrs && |sets.cidrs["geoip:cn"].v4| + |sets.cidrs["geoip:cn"].v6| > 0
  }

  /** The fallback in force: the configured one, or direct if it would be a proxy too early. */
  function RuntimeFinal(cfg: Config, sets: Sets): Decision {
    var (act, eg) := ParseAction(cfg.final);
    if act == Proxy && !Ready(sets) then Decision(Direct, "", "FINAL", -1) else Decision(act, eg, "FINAL", -1)
  }

  // ---------- The engine ----------

  class Engine {
    var rules: seq<Rule>
    var final: Decision
    var domainSets: map<string, seq<DomainIndex.Rule>>
    var cidrSets: map<string, CidrLists>

    ghost function Registered(): Sets
      reads this
    {
      Sets(domainSets, cidrSets)
    }

    constructor ()
      ensures rules == [] && Registered() == Sets(map[], map[])
      ensures final == Decision(Proxy, "", "FINAL", -1)
    {
      rules, final, domainSets, cidrSets := [], Decision(Proxy, "", "FINAL", -1), map[], map[];
    }

    method RegisterDomainSet(name: string, list: seq<DomainIndex.Rule>)
      modifies `domainSets
      ensures domainSets == old(domainSets)[name := list]
    {
      domainSets := domainSets[name := list];
    }

    method RegisterCIDRSet(name: string, lists: CidrLists)
      modifies `cidrSets
      ensures cidrSets == old(cidrSets)[name := lists]
    {
      cidrSets := cidrSets[name := lists];
    }

    method SetFinal(act: Action, egress: string)
      modifies `final
      ensures final == Decision(act, egress, "FINAL", -1)
    {
      final := Decision(act, egress, "FINAL", -1);
    }

    method DomesticRulesReady() returns (r: bool)
      ensures r == Ready(Registered())
    {
      r := "cn-domain" in domainSets && DomainIndex.CountRules(domainSets["cn-domain"]) > 0
        && "geoip:cn" in cidrSets && |cidrSets["geoip:cn"].v4| + |cidrSets["geoip:cn"].v6| > 0;
    }

    /** `AddRule`: appends the compiled rule, or sets the fallback, or refuses. */
    method AddRule(net: Netip, s: Spec) returns (ok: bool)
      modifies `rules, `final
      ensures var o := Compile(net, Registered(), s);
        && ok == !o.Refused?
        && rules == old(rules) + (if o.Added? then [o.rule] else [])
        && final == if o.Final? then Decision(s.action, s.egress, "FINAL", -1) else old(final)
    {
      hide Masked, ToLower;
      assert rules == rules + [];
      var r := Rule(s.kind, s.value, s.action, s.egress, None, None, None);
      if s.kind == "IP-CIDR" {
        var p := net.parsePrefix(s.value);
        if p.None? {
          return false;
        }
        r := r.(prefix := Some(Masked(p.value)));
      } else if s.kind == "RULE-SET" {
        if s.value !in domainSets && s.value !in cidrSets {
          return false;
        }
        r := r.(domains := Find(domainSets, s.value), cidrs := Find(cidrSets, s.value));
      } else if s.kind == "GEOIP" {
        var name := "geoip:" + ToLower(s.value);
        if name !in cidrSets {
          return false;
        }
        r := r.(cidrs := Find(cidrSets, name));
      } else if s.kind == "DOMAIN" || s.kind == "DOMAIN-SUFFIX" || s.kind == "DOMAIN-KEYWORD" {
        if s.value == "" {
          return false;
        }
      } else if s.kind == "FINAL" {
        SetFinal(s.action, s.egress);
        return true;
      } else {
        return false;
      }
      rules := rules + [r];
      return true;
    }

    /** `matchResolved`: the first rule that matches decides, else the fallback. */
    method MatchResolved(t: Target, answers: seq<Option<Addr>>) returns (d: Decision)
      ensures Decides(rules, final, t, NormalizeAddrs(answers), d)
    {
      hide Matches, NormalizeAddrs;
      var resolved := NormalizeAnswers(answers);
      for i := 0 to |rules|
        invariant NoneBefore(rules, i, t, resolved)
      {
        var hit := RuleMatches(rules[i], t, resolved);
        if hit {
          assert IsFirst(rules, i, t, resolved);
          return DecisionOf(rules[i], i);
        }
      }
      return final;
    }
  }

  /** `Rule.matches`, with its scan over the addresses. */
  method RuleMatches(r: Rule, t: Target, resolved: seq<Addr>) returns (hit: bool)
    ensures hit == Matches(r, t, resolved)
  {
    hide SuffixHolds, Text.Contains, DomainIndex.NaiveMatch, PrefixHolds, CidrHolds;
    hide Addresses;
    var addrs := Addresses(t, resolved);
    if r.kind == "DOMAIN" {
      return t.literal.None? && t.host == ToLower(r.value);
    }
    if r.kind == "DOMAIN-SUFFIX" {
      return t.literal.None? && SuffixHolds(t.host, r.value);
    }
    if r.kind == "DOMAIN-KEYWORD" {
      return t.literal.None? && Text.Contains(t.host, ToLower(r.value));
    }
    if r.kind == "IP-CIDR" {
      if r.prefix.None? {
        return false;
      }
      hit := AnyInPrefix(r.prefix.value, addrs);
      return;
    }
    if r.kind != "GEOIP" && r.kind != "RULE-SET" {
      return false;
    }
    if r.kind == "RULE-SET" && t.literal.None? && r.domains.Some? && DomainIndex.NaiveMatch(r.domains.value, t.host) {
      return true;
    }
    if r.cidrs.None? {
      return false;
    }
    hit := AnyInSet(r.cidrs.value, addrs);
  }

  method AnyInPrefix(p: Prefix, addrs: seq<Addr>) returns (hit: bool)
    ensures hit == exists a :: a in addrs && PrefixHolds(p, a)
  {
    for i := 0 to |addrs|
      invariant forall j | 0 <= j < i :: !PrefixHolds(p, addrs[j])
    {
      if PrefixHolds(p, addrs[i]) {
        return true;
      }
    }
    return false;
  }

  method AnyInSet(l: CidrLists, addrs: seq<Addr>) returns (hit: bool)
    ensures hit == exists a :: a in addrs && CidrHolds(l, a)
  {
    for i := 0 to |addrs|
      invariant forall j | 0 <= j < i :: !CidrHolds(l, addrs[j])
    {
      var x := Unmap(addrs[i]);
      var held := Lookup(if x.V6? then l.v6 else l.v4, x.n, Zoned(x));
      assert held == CidrHolds(l, addrs[i]);
      if held {
        return true;
      }
    }
    return false;
  }

  method AssembleLines(cfg: Config) returns (all: seq<string>)
    ensures all == AllLines(cfg)
  {
    hide ParseAction, GoogleLines, AdBlockLines, BuiltinPre, BuiltinDoHBlock, BuiltinPost;
    var googleFix := GoogleFixFor(cfg.final);
    var adBlock := BuiltinAdBlock(cfg);
    all := BuiltinPre() + (BuiltinDoHBlock() + (cfg.rules + (adBlock + (googleFix + BuiltinPost()))));
  }

  /** `applyRules`. The result names the first line with fewer than three fields. */
  method ApplyRules(net: Netip, cfg: Config, eng: Engine) returns (bad: Option<nat>)
    modifies eng`rules, eng`final
    ensures bad.None? <==> WellFormed(AllLines(cfg))
    ensures bad.None? ==> eng.rules == old(eng.rules) + Compiled(net, eng.Registered(), AllLines(cfg))
    ensures bad.None? ==> eng.final == RuntimeFinal(cfg, eng.Registered())
  {
    hide ParseLine, Compile, ParseAction, Ready, AllLines;
    var all := AssembleLines(cfg);
    ghost var sets := eng.Registered();
    for i := 0 to |all|
      invariant WellFormed(all[..i])
      invariant eng.Registered() == sets
      invariant eng.rules == old(eng.rules) + Compiled(net, sets, all[..i])
    {
      assert all[..i + 1][..i] == all[..i] && all[..i + 1][i] == all[i];
      var spec := ParseLine(all[i]);
      if spec.None? {
        return Some(i + 1);
      }
      var ok := eng.AddRule(net, spec.value);
    }
    assert all[..|all|] == all;
    var (act, eg) := ParseAction(cfg.final);
    if act == Proxy {
      var ready := eng.DomesticRulesReady();
      if !ready {
        act, eg := Direct, "";
      }
    }
    eng.SetFinal(act, eg);
    return None;
  }
}
