/** What configurations mean: actions, rule lines and the whole routing of a target, said of the
    text a configuration is written in. */
module PolicyMeaning {
  import opened Common
  import opened Text
  import opened CidrIndex
  import opened Policy
  import opened PolicyLayers
  import opened BuiltinStrip
  import DomainIndex

  // ---------- Actions ----------

  /** The ways an action is written. Any other text names an egress. */
  datatype Wording = Directly | Blocking | Rejecting | Proxying | Through(name: string) | Naming(name: string) {
    function Text(): string {
      match this
      case Directly => "direct"
      case Blocking => "block"
      case Rejecting => "reject"
      case Proxying => "proxy"
      case Through(name) => "proxy:" + name
      case Naming(name) => name
    }

    /** What it is to mean: the action, and the egress of a proxy. */
    function Meaning(): (Action, string) {
      match this
      case Directly => (Direct, "")
      case Blocking => (Block, "")
      case Rejecting => (Block, "")
      case Proxying => (Proxy, "")
      case Through(name) => (Proxy, name)
      case Naming(name) => (Proxy, name)
    }

    predicate Proper() {
      match this
      case Through(name) => name != "" ==> !IsSpace(name[|name| - 1])
      case Naming(name) =>
        && name != "" && Tight(name) && name != "direct" && name != "block" && name != "reject" && name != "proxy"
        && !HasPrefix(name, "proxy:")
      case _ => true
    }
  }

  lemma WordsTight(w: Wording)
    requires w.Proper()
    ensures w.Text() != "" && Tight(w.Text())
  {
    match w {
      case Through(name) =>
        var s := w.Text();
        assert s[0] == 'p' && s[|s| - 1] == if name == "" then ':' else name[|name| - 1];
      case _ =>
    }
  }

  lemma WordsDiffer(w: Wording)
    requires w.Proper() && w.Through?
    ensures w.Text() != "direct" && w.Text() != "block" && w.Text() != "reject" && w.Text() != "proxy"
    ensures HasPrefix(w.Text(), "proxy:") && TrimPrefix(w.Text(), "proxy:") == w.name
  {
    var s := w.Text();
    assert s[0] == 'p' && |s| >= 6;
    assert s[..6] == "proxy:" && s[6..] == w.name;
  }

  /** Spaces around an action make no difference. */
  lemma {:induction false} ActionMeaning(left: string, w: Wording, right: string)
    requires w.Proper() && AllSpace(left) && AllSpace(right)
    ensures ParseAction(left + w.Text() + right) == w.Meaning()
  {
    WordsTight(w);
    hide TrimSpace;
    TrimSpaceMeaning(left, w.Text(), right);
    if w.Through? {
      WordsDiffer(w);
      hide Wording.Text, HasPrefix, TrimPrefix;
    }
  }

  // ---------- The fallback ----------

  ghost predicate HoldsRule(rules: seq<DomainIndex.Rule>) {
    exists i :: 0 <= i < |rules| && rules[i] != DomainIndex.Ignored
  }

  /** Both domestic sets are registered and hold something. */
  ghost predicate BothLoaded(sets: Sets) {
    && "cn-domain" in sets.domains && HoldsRule(sets.domains["cn-domain"])
    && "geoip:cn" in sets.cidrs && (sets.cidrs["geoip:cn"].v4 != [] || sets.cidrs["geoip:cn"].v6 != [])
  }

  lemma {:induction false} ReadyMeaning(sets: Sets)
    ensures Ready(sets) <==> BothLoaded(sets)
  {
    hide DomainIndex.CountRules;
    if "cn-domain" in sets.domains {
      DomainIndex.CountedIff(sets.domains["cn-domain"]);
    }
  }

  /** The outcome for what no rule matches: as configured, except that nothing is proxied before
      both domestic sets are loaded. */
  ghost function Unmatched(w: Wording, sets: Sets): (Action, string) {
    if w.Meaning().0 == Proxy && !BothLoaded(sets) then (Direct, "") else w.Meaning()
  }

  ghost predicate Writes(final: string, left: string, w: Wording, right: string) {
    w.Proper() && AllSpace(left) && AllSpace(right) && final == left + w.Text() + right
  }

  lemma {:induction false} FallbackMeaning(cfg: Config, sets: Sets, left: string, w: Wording, right: string)
    requires Writes(cfg.final, left, w, right)
    ensures var d := RuntimeFinal(cfg, sets);
      (d.action, d.egress) == Unmatched(w, sets) && d.rule == "FINAL" && d.index == -1
  {
    ActionMeaning(left, w, right);
    ReadyMeaning(sets);
    hide ParseAction, Ready, BothLoaded;
  }

  // ---------- Rule lines ----------

  datatype Kind = Domain | Suffix | Keyword | Cidr | Geo | RuleSet {
    function Name(): string {
      match this
      case Domain => "DOMAIN"
      case Suffix => "DOMAIN-SUFFIX"
      case Keyword => "DOMAIN-KEYWORD"
      case Cidr => "IP-CIDR"
      case Geo => "GEOIP"
      case RuleSet => "RULE-SET"
    }
  }

  /** A field, with the spaces around it. */
  datatype Field = Field(left: string, text: string, right: string) {
    function Written(): string {
      left + text + right
    }

    predicate Proper() {
      AllSpace(left) && AllSpace(right) && Tight(text) && ',' !in text
    }
  }

  lemma {:induction false} FieldRead(f: Field)
    requires f.Proper()
    ensures TrimSpace(f.Written()) == f.text && ',' !in f.Written()
  {
    TrimSpaceMeaning(f.left, f.text, f.right);
  }

  /** A line is read field by field; whatever follows a third comma is ignored. */
  lemma {:induction false} LineMeaning(kind: Field, value: Field, action: Field, more: string, w: Wording)
    requires kind.Proper() && value.Proper() && action.Proper()
    requires w.Proper() && action.text == w.Text() && (more != "" ==> more[0] == ',')
    ensures ParseLine(kind.Written() + "," + value.Written() + "," + action.Written() + more)
      == Some(Spec(ToUpper(kind.text), value.text, w.Meaning().0, w.Meaning().1))
  {
    hide Split, TrimSpace, ParseAction, Trimmed, ToUpper, AllSpace, Tight;
    FieldRead(kind);
    FieldRead(value);
    FieldRead(action);
    var line := kind.Written() + "," + value.Written() + "," + action.Written() + more;
    LineSplits(kind.Written(), value.Written(), action.Written(), more);
    TrimOutside(line);
    assert Trimmed(Split(TrimSpace(line), ','))[..3] == [kind.text, value.text, action.text] by {
      hide Field.Written;
      assert Trimmed(Split(line, ','))[..3] == [TrimSpace(kind.Written()), TrimSpace(value.Written()),
        TrimSpace(action.Written())];
    }
    ThreeFields(Split(TrimSpace(line), ','), kind.text, value.text, action.text);
    assert action.text == "" + w.Text() + "";
    assert AllSpace("") by { NoSpace(); }
    ActionMeaning("", w, "");
  }

  lemma NoSpace()
    ensures AllSpace("")
  {
  }

  lemma ThreeFields(parts: seq<string>, kind: string, value: string, action: string)
    requires |parts| >= 3 && Trimmed(parts)[..3] == [kind, value, action]
    ensures TrimSpace(parts[0]) == kind && TrimSpace(parts[1]) == value && TrimSpace(parts[2]) == action
  {
    hide TrimSpace;
    var three := Trimmed(parts)[..3];
    assert three[0] == TrimSpace(parts[0]) && three[1] == TrimSpace(parts[1]) && three[2] == TrimSpace(parts[2]);
  }

  lemma {:induction false} LineSplits(a: string, b: string, c: string, more: string)
    requires ',' !in a && ',' !in b && ',' !in c && (more != "" ==> more[0] == ',')
    ensures var parts := Split(a + "," + b + "," + c + more, ','); |parts| >= 3 && parts[..3] == [a, b, c]
  {
    hide Split;
    var tail := c + more;
    assert a + "," + b + "," + c + more == a + [','] + (b + [','] + tail);
    SplitCons(a, ',', b + [','] + tail);
    SplitCons(b, ',', tail);
    if more == "" {
      assert tail == c;
      SplitSingle(c, ',');
    } else {
      assert tail == c + [','] + more[1..];
      SplitCons(c, ',', more[1..]);
    }
  }

  function Commas(s: string): nat {
    if s == "" then 0 else Commas(s[..|s| - 1]) + if s[|s| - 1] == ',' then 1 else 0
  }

  lemma {:induction false} CommasConcat(a: string, b: string)
    ensures Commas(a + b) == Commas(a) + Commas(b)
  {
    if b == "" {
      assert a + b == a;
    } else {
      CommasConcat(a, b[..|b| - 1]);
      assert (a + b)[..|a + b| - 1] == a + b[..|b| - 1];
    }
  }

  lemma {:induction false} NoCommas(s: string)
    requires ',' !in s
    ensures Commas(s) == 0
  {
    if s != "" {
      NoCommas(s[..|s| - 1]);
    }
  }

  lemma {:induction false} FieldsByCommas(s: string)
    ensures |Split(s, ',')| == Commas(s) + 1
    decreases |s|
  {
    var first := Before(s, ',');
    NoCommas(first);
    if |first| == |s| {
      SplitSingle(s, ',');
    } else {
      var rest := s[|first| + 1..];
      assert s == first + [','] + rest;
      FieldsByCommas(rest);
      SplitCons(first, ',', rest);
      CommasConcat(first + [','], rest);
      CommasConcat(first, [',']);
      assert [','][..0] == "";
      assert Commas([',']) == 1;
    }
  }

  /** A configuration is refused exactly if one of its lines has fewer than two commas. */
  lemma {:induction false} WellFormedMeaning(lines: seq<string>)
    ensures WellFormed(lines) <==> forall i | 0 <= i < |lines| :: Commas(lines[i]) >= 2
  {
    hide ParseLine, Commas;
    forall i | 0 <= i < |lines|
      ensures ParseLine(lines[i]).Some? <==> Commas(lines[i]) >= 2
    {
      LineFields(lines[i]);
    }
  }

  lemma LineFields(line: string)
    ensures ParseLine(line).Some? <==> Commas(line) >= 2
  {
    hide TrimSpace, Split, ParseAction, ToUpper, Commas;
    FieldsByCommas(line);
    TrimOutside(line);
    assert |Trimmed(Split(TrimSpace(line), ','))| == |Trimmed(Split(line, ','))|;
  }

  ghost predicate SomeAddress(l: CidrLists, t: Target, resolved: seq<Addr>) {
    exists a :: a in Addresses(t, resolved) && CidrHolds(l, a)
  }

  ghost predicate SomeNumber(p: Prefix, t: Target, resolved: seq<Addr>) {
    exists a :: a in Addresses(t, resolved) && !Zoned(a) && p.v4 == a.V4? && CidrIndex.Contains(p, a.n)
  }

  predicate AtOrBelow(host: string, domain: string) {
    host == domain || HasSuffix(host, "." + domain)
  }

  /** Which targets a line is meant to select. */
  ghost predicate Selects(net: Netip, sets: Sets, k: Kind, value: string, t: Target, resolved: seq<Addr>) {
    match k
    case Domain => value != "" && t.literal.None? && t.host == ToLower(value)
    case Suffix => value != "" && t.literal.None? && AtOrBelow(t.host, ToLower(TrimPrefix(value, ".")))
    case Keyword => value != "" && t.literal.None? && Text.Contains(t.host, ToLower(value))
    case Cidr => net.parsePrefix(value).Some? && SomeNumber(net.parsePrefix(value).value, t, resolved)
    case Geo =>
      var name := "geoip:" + ToLower(value); name in sets.cidrs && SomeAddress(sets.cidrs[name], t, resolved)
    case RuleSet =>
      || (value in sets.domains && t.literal.None? && DomainIndex.NaiveMatch(sets.domains[value], t.host))
      || (value in sets.cidrs && SomeAddress(sets.cidrs[value], t, resolved))
  }

  ghost predicate AnyMatches(rules: seq<Rule>, t: Target, resolved: seq<Addr>) {
    exists r :: r in rules && Matches(r, t, resolved)
  }

  predicate AllLead(rules: seq<Rule>, to: (Action, string)) {
    forall r | r in rules :: (r.action, r.egress) == to
  }

  lemma {:induction false} MaskedHolds(p: Prefix, t: Target, resolved: seq<Addr>)
    ensures SomeInPrefix(Some(Masked(p)), Addresses(t, resolved)) <==> SomeNumber(p, t, resolved)
  {
    forall a: Addr
      ensures PrefixHolds(Masked(p), a) <==> !Zoned(a) && p.v4 == a.V4? && CidrIndex.Contains(p, a.n)
    {
      MaskedIsEntry(p, a.n);
      hide Masked, CidrIndex.Contains, IsEntry;
    }
    hide PrefixHolds, Masked, Addresses, CidrIndex.Contains;
  }

  lemma {:induction false} CompiledMatches(net: Netip, sets: Sets, k: Kind, value: string, act: Action, egress: string,
                                           t: Target, resolved: seq<Addr>)
    ensures match Compile(net, sets, Spec(k.Name(), value, act, egress))
      case Added(r) =>
        && (r.action, r.egress) == (act, egress)
        && (Matches(r, t, resolved) <==> Selects(net, sets, k, value, t, resolved))
      case _ => !Selects(net, sets, k, value, t, resolved)
  {
    hide Masked, SomeInPrefix, SomeNumber, CidrHolds, DomainIndex.NaiveMatch, Text.Contains, ToLower, TrimPrefix,
      HasSuffix, Addresses;
    if k == Cidr && net.parsePrefix(value).Some? {
      MaskedHolds(net.parsePrefix(value).value, t, resolved);
    }
  }

  /** Every rule line, in any case and spacing, selects the targets its kind and value say, and
      leads them where its action says. */
  lemma {:induction false} RuleMeaning(net: Netip, sets: Sets, kind: Field, k: Kind, value: Field, action: Field,
                                       w: Wording, more: string, t: Target, resolved: seq<Addr>)
    requires kind.Proper() && value.Proper() && action.Proper() && ToUpper(kind.text) == k.Name()
    requires w.Proper() && action.text == w.Text() && (more != "" ==> more[0] == ',')
    ensures var rules := LineRules(net, sets,
        kind.Written() + "," + value.Written() + "," + action.Written() + more);
      && AllLead(rules, w.Meaning())
      && (AnyMatches(rules, t, resolved) <==> Selects(net, sets, k, value.text, t, resolved))
  {
    LineMeaning(kind, value, action, more, w);
    hide ParseLine, Compile, Matches, Selects, ToUpper, Field.Written, Field.Proper, Wording.Proper, Wording.Text,
      Wording.Meaning, Kind.Name, AllLead, AnyMatches;
    CompiledMatches(net, sets, k, value.text, w.Meaning().0, w.Meaning().1, t, resolved);
    NoRule(t, resolved);
    var o := Compile(net, sets, Spec(k.Name(), value.text, w.Meaning().0, w.Meaning().1));
    if o.Added? {
      OneRule(o.rule, t, resolved);
    }
  }

  /** A line of kind FINAL is no rule, and neither is one of any other kind. */
  lemma {:induction false} OtherLines(net: Netip, sets: Sets, s: Spec)
    requires forall k: Kind :: k.Name() != s.kind
    ensures Compile(net, sets, s) == if s.kind == "FINAL" then Final else Refused
  {
    assert Domain.Name() != s.kind && Suffix.Name() != s.kind && Keyword.Name() != s.kind;
    assert Cidr.Name() != s.kind && Geo.Name() != s.kind && RuleSet.Name() != s.kind;
  }

  /** A decision names the first rule that matches, by place and by text, or is the fallback. */
  lemma {:induction false} DecisionNames(rules: seq<Rule>, final: Decision, t: Target, resolved: seq<Addr>, d: Decision)
    requires final.index == -1 && Decides(rules, final, t, resolved, d)
    ensures if d.index >= 0 then
        && d.index < |rules| && Matches(rules[d.index], t, resolved)
        && d == Decision(rules[d.index].action, rules[d.index].egress,
                         rules[d.index].kind + "," + rules[d.index].value, d.index)
        && (forall j | 0 <= j < d.index :: !Matches(rules[j], t, resolved))
      else d == final && forall j | 0 <= j < |rules| :: !Matches(rules[j], t, resolved)
  {
    hide Matches;
  }

  /** A loaded address set holds no address outside its prefixes, and every one inside them if no
      prefix has 64 others nested in it. */
  lemma {:induction false} HeldMeaning(l: CidrLists, a: Addr)
    requires AllEntries(l.v4, true) && AllEntries(l.v6, false)
    ensures var x := Unmap(a);
      var list := if x.V4? then l.v4 else l.v6;
      && (CidrHolds(l, a) ==> Unzoned(x) && Covered(list, x.n))
      && (ShallowNesting(list) ==> (CidrHolds(l, a) <==> Unzoned(x) && Covered(list, x.n)))
  {
    hide Unmap, InWindow, Covered, ShallowNesting, AllEntries, Sorted;
    var x := Unmap(a);
    var list := if x.V4? then l.v4 else l.v6;
    WindowMeaning(list, x.V4?, x.n);
  }

  predicate Unzoned(a: Addr) {
    match a
    case V4(_) => true
    case V6(_, zone) => zone == ""
  }

  lemma WindowMeaning(list: seq<Prefix>, v4: bool, x: nat)
    requires Sorted(list) && AllEntries(list, v4)
    ensures InWindow(list, x) ==> Covered(list, x)
    ensures ShallowNesting(list) && Covered(list, x) ==> InWindow(list, x)
  {
    hide Sorted, AllEntries, InWindow, Covered, ShallowNesting;
    WindowSound(list, x);
    if ShallowNesting(list) && Covered(list, x) {
      ShallowComplete(list, v4, x);
    }
  }

  // ---------- The layers ----------

  /** Where the first match, or else the fallback, leads. */
  ghost predicate Leads(rules: seq<Rule>, final: (Action, string), t: Target, resolved: seq<Addr>,
                        to: (Action, string)) {
    || (exists i: nat :: IsFirst(rules, i, t, resolved) && to == (rules[i].action, rules[i].egress))
    || (NoneBefore(rules, |rules|, t, resolved) && to == final)
  }

  lemma {:induction false} AnyIsNotNone(rules: seq<Rule>, t: Target, resolved: seq<Addr>)
    ensures AnyMatches(rules, t, resolved) <==> !NoneBefore(rules, |rules|, t, resolved)
  {
    hide Matches;
    forall j | 0 <= j < |rules| && Matches(rules[j], t, resolved)
      ensures AnyMatches(rules, t, resolved)
    {
      assert rules[j] in rules;
    }
  }

  /** Past a layer whose rules all lead to one place. */
  lemma {:induction false} PastLayer(a: seq<Rule>, b: seq<Rule>, final: (Action, string), t: Target,
                                     resolved: seq<Addr>, to: (Action, string), layer: (Action, string))
    requires AllLead(a, layer) && Leads(a + b, final, t, resolved, to)
    ensures if AnyMatches(a, t, resolved) then to == layer else Leads(b, final, t, resolved, to)
  {
    AnyIsNotNone(a, t, resolved);
    hide AnyMatches;
    if NoneBefore(a, |a|, t, resolved) {
      LeadsBehind(a, b, final, t, resolved, to);
    } else {
      var i := LeadsInFront(a, b, final, t, resolved, to);
      assert a[i] in a;
    }
  }

  lemma {:induction false} LeadsInFront(a: seq<Rule>, b: seq<Rule>, final: (Action, string), t: Target,
                                        resolved: seq<Addr>, to: (Action, string)) returns (i: nat)
    requires !NoneBefore(a, |a|, t, resolved) && Leads(a + b, final, t, resolved, to)
    ensures IsFirst(a, i, t, resolved) && to == (a[i].action, a[i].egress)
  {
    hide Matches;
    i := FirstOf(a, t, resolved);
    FirstInFront(a, b, t, resolved, i);
    assert (a + b)[i] == a[i];
    if exists k: nat :: IsFirst(a + b, k, t, resolved) && to == ((a + b)[k].action, (a + b)[k].egress) {
      var k: nat :| IsFirst(a + b, k, t, resolved) && to == ((a + b)[k].action, (a + b)[k].egress);
      FirstIsUnique(a + b, t, resolved, i, k);
    }
  }

  lemma {:induction false} LeadsBehind(a: seq<Rule>, b: seq<Rule>, final: (Action, string), t: Target,
                                       resolved: seq<Addr>, to: (Action, string))
    requires NoneBefore(a, |a|, t, resolved) && Leads(a + b, final, t, resolved, to)
    ensures Leads(b, final, t, resolved, to)
  {
    hide Matches;
    FrontClear(a, b, t, resolved);
    if exists k: nat :: IsFirst(a + b, k, t, resolved) && to == ((a + b)[k].action, (a + b)[k].egress) {
      var k: nat :| IsFirst(a + b, k, t, resolved) && to == ((a + b)[k].action, (a + b)[k].egress);
      var i: nat := k - |a|;
      forall j | 0 <= j < i
        ensures !Matches(b[j], t, resolved)
      {
        assert (a + b)[|a| + j] == b[j];
      }
      assert (a + b)[k] == b[i];
      assert IsFirst(b, i, t, resolved);
    }
  }

  /** The valid entries of the allow-list that cover a target. */
  ghost predicate AllowListed(allowlist: seq<string>, t: Target) {
    exists k | 0 <= k < |allowlist| :: Allows(allowlist[k], t)
  }

  predicate Allows(entry: string, t: Target) {
    AllowedSuffix(entry).Some? && t.literal.None? && AtOrBelow(t.host, ToLower(TrimPrefix(AllowedSuffix(entry).value,
      ".")))
  }

  /** An entry covers the domain it names, with or without a dot in front; one with a comma, a slash
      or a space in it covers nothing. */
  lemma {:induction false} AllowEntryMeaning(left: string, dot: bool, domain: string, right: string)
    requires AllSpace(left) && AllSpace(right) && domain != "" && Tight(domain) && domain[0] != '.'
    ensures AllowedSuffix(left + ((if dot then "." else "") + domain) + right)
         == if ',' in domain || '/' in domain || ' ' in domain then None else Some(domain)
  {
    var entry := (if dot then "." else "") + domain;
    assert entry[0] == if dot then '.' else domain[0];
    assert TrimPrefix(entry, ".") == domain by {
      if dot {
        assert entry[..1] == "." && entry[1..] == domain;
      } else {
        assert entry == domain && entry[..1] == [domain[0]];
      }
    }
    hide TrimSpace, TrimPrefix;
    TrimSpaceMeaning(left, entry, right);
    TrimNothing(domain);
  }

  lemma {:induction false} AllowEntryRules(net: Netip, sets: Sets, entry: string, t: Target, resolved: seq<Addr>)
    ensures var rules := Compiled(net, sets, AllowEntryLines(entry));
      AllLead(rules, (Direct, "")) && (AnyMatches(rules, t, resolved) <==> Allows(entry, t))
  {
    hide AllowedSuffix, Plain, Line, LineRules, Matches, Compiled, AtOrBelow, AllLead, AnyMatches;
    if AllowedSuffix(entry).Some? {
      var d := AllowedSuffix(entry).value;
      AllowedPlain(entry);
      AllowedLine(net, sets, d);
      OneLine(net, sets, Line("DOMAIN-SUFFIX", d, "direct"));
      AllowRuleMatches(d, t, resolved);
      OneRule(AllowRule(d), t, resolved);
    } else {
      NoRule(t, resolved);
      NoLines(net, sets);
    }
  }

  lemma NoLines(net: Netip, sets: Sets)
    ensures Compiled(net, sets, []) == []
  {
  }

  lemma {:induction false} AllowedLine(net: Netip, sets: Sets, d: string)
    requires Plain(d)
    ensures LineRules(net, sets, Line("DOMAIN-SUFFIX", d, "direct")) == [AllowRule(d)]
  {
    PlainWords();
    UpperKinds();
    FixedActions();
    hide Plain, ToUpper, ParseAction, Line, LineRules;
    DomainLine(net, sets, "DOMAIN-SUFFIX", d, "direct");
  }

  lemma OneRule(r: Rule, t: Target, resolved: seq<Addr>)
    ensures AllLead([r], (r.action, r.egress)) && (AnyMatches([r], t, resolved) <==> Matches(r, t, resolved))
  {
    hide Matches;
    assert r in [r];
  }

  lemma NoRule(t: Target, resolved: seq<Addr>)
    ensures forall to :: AllLead([], to)
    ensures !AnyMatches([], t, resolved)
  {
  }

  lemma AllowRuleMatches(d: string, t: Target, resolved: seq<Addr>)
    ensures Matches(AllowRule(d), t, resolved) <==> t.literal.None? && AtOrBelow(t.host, ToLower(TrimPrefix(d, ".")))
  {
    hide ToLower, TrimPrefix, HasSuffix;
  }

  lemma {:induction false} AllowRules(net: Netip, sets: Sets, allowlist: seq<string>, t: Target, resolved: seq<Addr>)
    ensures var rules := Compiled(net, sets, AllowLines(allowlist));
      AllLead(rules, (Direct, "")) && (AnyMatches(rules, t, resolved) <==> AllowListed(allowlist, t))
  {
    hide AllowEntryLines, Allows, Matches, LineRules;
    if allowlist == [] {
      assert Compiled(net, sets, AllowLines(allowlist)) == [];
    } else {
      hide Compiled;
      var front, last := allowlist[..|allowlist| - 1], allowlist[|allowlist| - 1];
      AllowRules(net, sets, front, t, resolved);
      AllowEntryRules(net, sets, last, t, resolved);
      CompiledConcat(net, sets, AllowLines(front), AllowEntryLines(last));
      MatchesConcat(Compiled(net, sets, AllowLines(front)), Compiled(net, sets, AllowEntryLines(last)), t, resolved);
      AllowListedMore(front, last, t);
      assert allowlist == front + [last];
    }
  }

  lemma AllowListedMore(front: seq<string>, last: string, t: Target)
    ensures AllowListed(front + [last], t) <==> AllowListed(front, t) || Allows(last, t)
  {
    hide Allows;
    var all := front + [last];
    assert all[|front|] == last;
    assert forall k | 0 <= k < |front| :: all[k] == front[k];
  }

  lemma MatchesConcat(a: seq<Rule>, b: seq<Rule>, t: Target, resolved: seq<Addr>)
    ensures AnyMatches(a + b, t, resolved) <==> AnyMatches(a, t, resolved) || AnyMatches(b, t, resolved)
  {
    hide Matches;
  }

  /** The names of the built-in sets, and whether a target is in one. */
  ghost predicate InSet(sets: Sets, name: string, t: Target, resolved: seq<Addr>) {
    || (name in sets.domains && t.literal.None? && DomainIndex.NaiveMatch(sets.domains[name], t.host))
    || (name in sets.cidrs && SomeAddress(sets.cidrs[name], t, resolved))
  }

  lemma {:induction false} PlainRule(net: Netip, sets: Sets, k: Kind, value: string, w: Wording, t: Target,
                                     resolved: seq<Addr>)
    requires Plain(k.Name()) && Plain(value) && Plain(w.Text()) && w.Proper() && ToUpper(k.Name()) == k.Name()
    ensures var rules := LineRules(net, sets, Line(k.Name(), value, w.Text()));
      && AllLead(rules, w.Meaning())
      && (AnyMatches(rules, t, resolved) <==> Selects(net, sets, k, value, t, resolved))
  {
    hide Matches, Selects, ToUpper, LineRules, AnyMatches, AllLead;
    var kind, val, act := Field("", k.Name(), ""), Field("", value, ""), Field("", w.Text(), "");
    assert kind.Proper() && val.Proper() && act.Proper();
    assert kind.Written() == k.Name() && val.Written() == value && act.Written() == w.Text();
    assert kind.Written() + "," + val.Written() + "," + act.Written() + "" == Line(k.Name(), value, w.Text());
    hide Field.Written, Field.Proper, Plain, Kind.Name, Wording.Text, Wording.Proper, Wording.Meaning, Line;
    RuleMeaning(net, sets, kind, k, val, act, w, "", t, resolved);
  }

  lemma {:induction false} OneLine(net: Netip, sets: Sets, line: string)
    ensures Compiled(net, sets, [line]) == LineRules(net, sets, line)
  {
    hide LineRules;
    assert [line][..0] == [];
  }

  lemma {:induction false} BlockRules(net: Netip, sets: Sets, t: Target, resolved: seq<Addr>)
    ensures var rules := Compiled(net, sets, [BlockLine()]);
      AllLead(rules, (Block, "")) && (AnyMatches(rules, t, resolved) <==> InSet(sets, "ad-block", t, resolved))
  {
    hide Matches, Compiled, LineRules, AnyMatches, AllLead, Plain, InSet, Line;
    AdWords();
    OneLine(net, sets, BlockLine());
    SetRule(net, sets, "ad-block", Blocking, t, resolved);
  }

  lemma AdWords()
    ensures Plain("ad-block") && Plain(Blocking.Text()) && Blocking.Proper()
    ensures Blocking.Meaning() == (Block, "") && BlockLine() == Line("RULE-SET", "ad-block", Blocking.Text())
  {
    hide Line;
  }

  lemma {:induction false} SetRule(net: Netip, sets: Sets, name: string, w: Wording, t: Target, resolved: seq<Addr>)
    requires Plain(name) && Plain(w.Text()) && w.Proper()
    ensures var rules := LineRules(net, sets, Line("RULE-SET", name, w.Text()));
      AllLead(rules, w.Meaning()) && (AnyMatches(rules, t, resolved) <==> InSet(sets, name, t, resolved))
  {
    PlainWords();
    UpperKinds();
    hide Matches, ToUpper, LineRules, AnyMatches, AllLead, Plain, SomeAddress, DomainIndex.NaiveMatch, Line,
      Wording.Text, Wording.Meaning, Wording.Proper;
    PlainRule(net, sets, RuleSet, name, w, t, resolved);
  }

  lemma {:induction false} GeoRule(net: Netip, sets: Sets, t: Target, resolved: seq<Addr>)
    ensures var rules := LineRules(net, sets, Line("GEOIP", "cn", "direct"));
      && AllLead(rules, (Direct, ""))
      && (AnyMatches(rules, t, resolved) <==>
            "geoip:cn" in sets.cidrs && SomeAddress(sets.cidrs["geoip:cn"], t, resolved))
  {
    PlainWords();
    UpperKinds();
    PostWords();
    hide Matches, ToUpper, LineRules, AnyMatches, AllLead, Plain, SomeAddress, Line;
    PlainRule(net, sets, Geo, "cn", Directly, t, resolved);
  }

  /** The domestic layer: hosts in one set, addresses in the other. */
  ghost predicate Domestic(sets: Sets, t: Target, resolved: seq<Addr>) {
    || InSet(sets, "cn-domain", t, resolved)
    || ("geoip:cn" in sets.cidrs && SomeAddress(sets.cidrs["geoip:cn"], t, resolved))
  }

  lemma {:induction false} PostRules(net: Netip, sets: Sets, t: Target, resolved: seq<Addr>)
    ensures AllLead(Post(net, sets), (Direct, ""))
    ensures AnyMatches(Post(net, sets), t, resolved) <==> Domestic(sets, t, resolved)
  {
    PostWords();
    assert Plain("direct");
    hide Matches, Compiled, LineRules, Plain, InSet, SomeAddress, Line, AnyMatches;
    var a, b := Line("RULE-SET", "cn-domain", "direct"), Line("GEOIP", "cn", "direct");
    assert BuiltinPost() == [a, b];
    CompiledPair(net, sets, a, b);
    SetRule(net, sets, "cn-domain", Directly, t, resolved);
    GeoRule(net, sets, t, resolved);
    MatchesConcat(LineRules(net, sets, a), LineRules(net, sets, b), t, resolved);
  }

  lemma PostWords()
    ensures Plain("cn-domain") && Plain("cn") && "geoip:" + ToLower("cn") == "geoip:cn"
  {
    LowerFixed("cn");
    hide ToLower;
    assert "geoip:" + "cn" == "geoip:cn";
  }

  predicate GoogleHost(host: string) {
    exists i | 0 <= i < |GoogleDomains()| :: AtOrBelow(host, GoogleDomains()[i])
  }

  lemma {:induction false} GoogleMatches(net: Netip, sets: Sets, final: string, t: Target, resolved: seq<Addr>)
    ensures AllLead(Google(net, sets, final), (Proxy, GoogleEgress(final)))
    ensures AnyMatches(Google(net, sets, final), t, resolved) <==> t.literal.None? && GoogleHost(t.host)
  {
    GoogleRules(net, sets, final);
    var rules := Google(net, sets, final);
    hide Google, GoogleDomains, GoogleEgress, Matches, AtOrBelow;
    forall i: nat | i < |GoogleDomains()|
      ensures Matches(rules[i], t, resolved) <==> t.literal.None? && AtOrBelow(t.host, GoogleDomains()[i])
    {
      GoogleRuleMatches(i, GoogleEgress(final), t, resolved);
    }
    AnyIsNotNone(rules, t, resolved);
  }

  lemma {:induction false} GoogleRuleMatches(i: nat, egress: string, t: Target, resolved: seq<Addr>)
    requires i < |GoogleDomains()|
    ensures Matches(Rule("DOMAIN-SUFFIX", GoogleDomains()[i], Proxy, egress, None, None, None), t, resolved)
      <==> t.literal.None? && AtOrBelow(t.host, GoogleDomains()[i])
  {
    LowerDomain(i);
    hide GoogleDomains, ToLower, HasSuffix, TrimPrefix;
    SuffixHit(t.host, GoogleDomains()[i]);
  }

  predicate LowerName(d: string) {
    |d| > 0 && d[0] != '.' && forall j | 0 <= j < |d| :: !('A' <= d[j] <= 'Z')
  }

  lemma LowerDomain(i: nat)
    requires i < |GoogleDomains()|
    ensures LowerName(GoogleDomains()[i])
  {
    hide LowerName;
    GoogleNames();
    DownloadNames();
  }

  lemma GoogleNames()
    ensures LowerName("dl.google.com") && LowerName("dl.l.google.com")
    ensures LowerName("android.clients.google.com") && LowerName("android.l.google.com")
  {
  }

  lemma DownloadNames()
    ensures LowerName("gvt1.com") && LowerName("gvt2.com") && LowerName("gvt3.com") && LowerName("ggpht.com")
    ensures LowerName("googleapis.com") && LowerName("gstatic.com") && LowerName("googleusercontent.com")
  {
  }

  /** The egress of the Google layer: the one the fallback names, up to a comma in its name. */
  function DownloadEgress(w: Wording): string {
    var (act, name) := w.Meaning();
    if act == Proxy && name != "" then TrimRight(Before(name, ',')) else ""
  }

  lemma {:induction false} DownloadEgressRead(final: string, left: string, w: Wording, right: string)
    requires Writes(final, left, w, right)
    ensures GoogleEgress(final) == DownloadEgress(w)
  {
    ActionMeaning(left, w, right);
    hide ParseAction, Before, TrimRight;
  }

  ghost predicate SomePrivate(t: Target, resolved: seq<Addr>) {
    exists a :: a in Addresses(t, resolved) && PrivateAddr(a)
  }

  /** Where a configuration sends a target: the layers in order, each said of the text and the sets. */
  ghost predicate Routed(net: Netip, sets: Sets, cfg: Config, w: Wording, t: Target, resolved: seq<Addr>,
                         to: (Action, string)) {
    if SomePrivate(t, resolved) then to == (Direct, "")
    else if t.literal.None? && DoHHost(t.host) then to == (Block, "")
    else if AnyMatches(User(net, sets, cfg), t, resolved) then Leads(User(net, sets, cfg), to, t, resolved, to)
    else if cfg.adBlock && AllowListed(cfg.allowlist, t) then to == (Direct, "")
    else if cfg.adBlock && InSet(sets, "ad-block", t, resolved) then to == (Block, "")
    else if t.literal.None? && GoogleHost(t.host) then to == (Proxy, DownloadEgress(w))
    else if Domestic(sets, t, resolved) then to == (Direct, "")
    else to == Unmatched(w, sets)
  }

  lemma {:induction false} PreLeads(net: Netip, sets: Sets, t: Target, resolved: seq<Addr>)
    requires ReadsPrivate(net)
    ensures AllLead(Pre(net, sets), (Direct, ""))
    ensures AnyMatches(Pre(net, sets), t, resolved) <==> SomePrivate(t, resolved)
  {
    PreRules(net, sets);
    PreMatches(net, sets, t, resolved);
    AnyIsNotNone(Pre(net, sets), t, resolved);
    hide Pre, Matches, ReadsPrivate, NoneBefore, AnyMatches, Addresses, PrivateAddr;
  }

  lemma {:induction false} DoHLeads(net: Netip, sets: Sets, t: Target, resolved: seq<Addr>)
    ensures AllLead(DoH(net, sets), (Block, ""))
    ensures AnyMatches(DoH(net, sets), t, resolved) <==> t.literal.None? && DoHHost(t.host)
  {
    DoHRules(net, sets);
    DoHMatches(net, sets, t, resolved);
    AnyIsNotNone(DoH(net, sets), t, resolved);
    hide DoH, Matches, NoneBefore, AnyMatches, DoHHost;
  }

  lemma {:induction false} AdsSplit(net: Netip, sets: Sets, cfg: Config)
    ensures Ads(net, sets, cfg) == if !cfg.adBlock then [] else
      Compiled(net, sets, AllowLines(cfg.allowlist)) + Compiled(net, sets, [BlockLine()])
  {
    hide AllowLines, BlockLine;
    CompiledConcat(net, sets, AllowLines(cfg.allowlist), [BlockLine()]);
  }

  /** The two layers of the ad blocking, in front of others. */
  lemma {:induction false} PastAds(net: Netip, sets: Sets, cfg: Config, b: seq<Rule>, final: (Action, string),
                                   t: Target, resolved: seq<Addr>, to: (Action, string))
    requires Leads(Ads(net, sets, cfg) + b, final, t, resolved, to)
    ensures if cfg.adBlock && AllowListed(cfg.allowlist, t) then to == (Direct, "")
      else if cfg.adBlock && InSet(sets, "ad-block", t, resolved) then to == (Block, "")
      else Leads(b, final, t, resolved, to)
  {
    AdsSplit(net, sets, cfg);
    hide Ads, Compiled, AllowLines, BlockLine, Matches, Leads, AnyMatches, AllLead, AllowListed, InSet;
    if cfg.adBlock {
      var allow, block := Compiled(net, sets, AllowLines(cfg.allowlist)), Compiled(net, sets, [BlockLine()]);
      AllowRules(net, sets, cfg.allowlist, t, resolved);
      BlockRules(net, sets, t, resolved);
      assert allow + block + b == allow + (block + b);
      PastLayer(allow, block + b, final, t, resolved, to, (Direct, ""));
      if !AllowListed(cfg.allowlist, t) {
        PastLayer(block, b, final, t, resolved, to, (Block, ""));
      }
    } else {
      assert [] + b == b;
    }
  }

  /** For every configuration whose fallback is written in one of its ways, every target goes where
      the first layer that knows it sends it. */
  lemma {:induction false} RouteMeaning(net: Netip, sets: Sets, cfg: Config, left: string, w: Wording, right: string,
                                        t: Target, resolved: seq<Addr>, d: Decision)
    requires ReadsPrivate(net) && Writes(cfg.final, left, w, right)
    requires Decides(Program(net, sets, cfg), RuntimeFinal(cfg, sets), t, resolved, d)
    ensures Routed(net, sets, cfg, w, t, resolved, (d.action, d.egress))
  {
    hide Pre, DoH, User, Ads, Google, Post, Program, Matches, AnyMatches, AllLead, SomePrivate, DoHHost, AllowListed,
      InSet, GoogleHost, Domestic, DownloadEgress, Unmatched, Writes, ReadsPrivate, RuntimeFinal, GoogleEgress;
    var to, fin := (d.action, d.egress), Unmatched(w, sets);
    FallbackMeaning(cfg, sets, left, w, right);
    DownloadEgressRead(cfg.final, left, w, right);
    assert Leads(Program(net, sets, cfg), fin, t, resolved, to);
    Layered(net, sets, cfg);
    hide Leads, Decides;
    PreLeads(net, sets, t, resolved);
    DoHLeads(net, sets, t, resolved);
    var google := Google(net, sets, cfg.final) + Post(net, sets);
    var ads := Ads(net, sets, cfg) + google;
    var user := User(net, sets, cfg) + ads;
    PastLayer(Pre(net, sets), DoH(net, sets) + user, fin, t, resolved, to, (Direct, ""));
    if !SomePrivate(t, resolved) {
      PastLayer(DoH(net, sets), user, fin, t, resolved, to, (Block, ""));
      if !(t.literal.None? && DoHHost(t.host)) {
        PastUser(User(net, sets, cfg), ads, fin, t, resolved, to);
        if !AnyMatches(User(net, sets, cfg), t, resolved) {
          PastAds(net, sets, cfg, google, fin, t, resolved, to);
          TrailingLayers(net, sets, cfg, w, fin, t, resolved, to);
        }
      }
    }
  }

  lemma {:induction false} TrailingLayers(net: Netip, sets: Sets, cfg: Config, w: Wording, final: (Action, string),
                                          t: Target, resolved: seq<Addr>, to: (Action, string))
    requires GoogleEgress(cfg.final) == DownloadEgress(w)
    ensures Leads(Google(net, sets, cfg.final) + Post(net, sets), final, t, resolved, to) ==>
      if t.literal.None? && GoogleHost(t.host) then to == (Proxy, DownloadEgress(w))
      else if Domestic(sets, t, resolved) then to == (Direct, "") else to == final
  {
    hide Google, Post, Matches, AnyMatches, AllLead, GoogleHost, Domestic, DownloadEgress, GoogleEgress;
    if Leads(Google(net, sets, cfg.final) + Post(net, sets), final, t, resolved, to) {
      GoogleMatches(net, sets, cfg.final, t, resolved);
      PostRules(net, sets, t, resolved);
      hide Leads;
      PastLayer(Google(net, sets, cfg.final), Post(net, sets), final, t, resolved, to, (Proxy, DownloadEgress(w)));
      if !(t.literal.None? && GoogleHost(t.host)) {
        assert Post(net, sets) + [] == Post(net, sets);
        PastLayer(Post(net, sets), [], final, t, resolved, to, (Direct, ""));
        NothingLeads(final, t, resolved, to);
      }
    }
  }

  lemma NothingLeads(final: (Action, string), t: Target, resolved: seq<Addr>, to: (Action, string))
    ensures Leads([], final, t, resolved, to) ==> to == final
  {
    hide Matches;
  }

  lemma {:induction false} PastUser(a: seq<Rule>, b: seq<Rule>, final: (Action, string), t: Target,
                                    resolved: seq<Addr>, to: (Action, string))
    requires Leads(a + b, final, t, resolved, to)
    ensures if AnyMatches(a, t, resolved) then Leads(a, to, t, resolved, to) else Leads(b, final, t, resolved, to)
  {
    AnyIsNotNone(a, t, resolved);
    hide AnyMatches, Matches;
    if NoneBefore(a, |a|, t, resolved) {
      LeadsBehind(a, b, final, t, resolved, to);
    } else {
      var i := LeadsInFront(a, b, final, t, resolved, to);
    }
  }

  // ---------- From the files to a decision ----------

  /** A rule set file as it was loaded; one that could not be read is skipped. */
  datatype Loaded =
    | DomainList(name: string, rules: seq<DomainIndex.Rule>)
    | CidrList(name: string, lists: CidrLists)
    | Unreadable(name: string)

  function SetsOf(files: seq<Loaded>): Sets {
    if files == [] then Sets(map[], map[])
    else
      var before := SetsOf(files[..|files| - 1]);
      match files[|files| - 1]
      case DomainList(name, rules) => before.(domains := before.domains[name := rules])
      case CidrList(name, lists) => before.(cidrs := before.cidrs[name := lists])
      case Unreadable(_) => before
  }

  /** A set is registered under a name exactly when a file of that name was loaded; the last counts. */
  lemma {:induction false} RegisteredMeaning(files: seq<Loaded>, i: nat, name: string)
    requires i < |files|
    requires files[i].name == name && forall j | i < j < |files| :: files[j].name != name
    ensures files[i].DomainList? ==>
      name in SetsOf(files).domains && SetsOf(files).domains[name] == files[i].rules
    ensures files[i].CidrList? ==>
      name in SetsOf(files).cidrs && SetsOf(files).cidrs[name] == files[i].lists
  {
    if i < |files| - 1 {
      RegisteredMeaning(files[..|files| - 1], i, name);
    }
  }

  /** `loadRuleSets`, given the files. */
  method LoadRuleSets(eng: Engine, files: seq<Loaded>)
    requires eng.Registered() == Sets(map[], map[])
    modifies eng`domainSets, eng`cidrSets
    ensures eng.Registered() == SetsOf(files)
  {
    for i := 0 to |files|
      invariant eng.Registered() == SetsOf(files[..i])
    {
      assert files[..i + 1][..i] == files[..i] && files[..i + 1][i] == files[i];
      match files[i] {
        case DomainList(name, rules) => eng.RegisterDomainSet(name, rules);
        case CidrList(name, lists) => eng.RegisterCIDRSet(name, lists);
        case Unreadable(_) =>
      }
    }
    assert files[..|files|] == files;
  }

  /** From the loaded files to the decision for one target: `setup` and then `MatchResolved`. A
      line with fewer than three fields is reported instead. */
  method Route(net: Netip, cfg: Config, files: seq<Loaded>, t: Target, answers: seq<Option<Addr>>,
               ghost left: string, ghost w: Wording, ghost right: string)
    returns (bad: Option<nat>, d: Decision)
    requires ReadsPrivate(net) && Writes(cfg.final, left, w, right)
    ensures bad.None? <==> WellFormed(AllLines(cfg))
    ensures bad.None? ==>
      Routed(net, SetsOf(files), cfg, w, t, NormalizeAddrs(answers), (d.action, d.egress))
  {
    hide WellFormed, AllLines, Compiled, RuntimeFinal, Decides, Writes, ReadsPrivate, Routed, NormalizeAddrs, SetsOf;
    d := Decision(Direct, "", "", -1);
    var eng := new Engine();
    LoadRuleSets(eng, files);
    bad := ApplyRules(net, cfg, eng);
    if bad.None? {
      d := eng.MatchResolved(t, answers);
      assert [] + Compiled(net, SetsOf(files), AllLines(cfg)) == Compiled(net, SetsOf(files), AllLines(cfg));
      RouteMeaning(net, SetsOf(files), cfg, left, w, right, t, NormalizeAddrs(answers), d);
    }
  }
}
