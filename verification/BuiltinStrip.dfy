/** The migration that drops user rules equal to built-in ones, and when it is harmless. */
module BuiltinStrip {
  import opened Common
  import opened Text
  import opened CidrIndex
  import opened Policy
  import opened PolicyLayers
  import DomainIndex

  // ---------- Normal forms of lines ----------

  function Trimmed(parts: seq<string>): (r: seq<string>)
    ensures |r| == |parts|
    ensures forall i | 0 <= i < |r| :: r[i] == TrimSpace(parts[i])
  {
    seq(|parts|, i requires 0 <= i < |parts| => TrimSpace(parts[i]))
  }

  function Uppers(parts: seq<string>): (r: seq<string>)
    ensures |r| == |parts|
    ensures forall i | 0 <= i < |r| :: r[i] == ToUpper(parts[i])
  {
    seq(|parts|, i requires 0 <= i < |parts| => ToUpper(parts[i]))
  }

  function Join(parts: seq<string>): string {
    if parts == [] then "" else if |parts| == 1 then parts[0] else parts[0] + [','] + Join(parts[1..])
  }

  /** `normalizeRule`: fields trimmed, letters in upper case. */
  function NormalizeRule(line: string): string {
    ToUpper(Join(Trimmed(Split(line, ','))))
  }

  lemma {:induction false} SplitJoin(parts: seq<string>)
    requires parts != [] && forall i | 0 <= i < |parts| :: ',' !in parts[i]
    ensures Split(Join(parts), ',') == parts
  {
    if |parts| == 1 {
      SplitSingle(parts[0], ',');
      assert parts == [parts[0]];
    } else {
      SplitJoin(parts[1..]);
      SplitCons(parts[0], ',', Join(parts[1..]));
      assert parts == [parts[0]] + parts[1..];
    }
  }

  /** Case does not move the commas. */
  lemma {:induction false} SplitUpper(s: string)
    ensures Split(ToUpper(s), ',') == Uppers(Split(s, ','))
    decreases |s|
  {
    hide Split, Before;
    var first := Before(s, ',');
    BeforeUpper(s);
    if |first| == |s| {
      assert first == s;
      SplitSingle(s, ',');
      SplitSingle(ToUpper(s), ',');
    } else {
      var rest := s[|first| + 1..];
      assert s == first + [','] + rest;
      UpperConcat(first, rest);
      SplitUpper(rest);
      SplitCons(first, ',', rest);
      SplitCons(ToUpper(first), ',', ToUpper(rest));
    }
  }

  lemma UpperConcat(a: string, b: string)
    ensures ToUpper(a + [','] + b) == ToUpper(a) + [','] + ToUpper(b)
    ensures ',' !in a ==> ',' !in ToUpper(a)
  {
  }

  lemma {:induction false} BeforeUpper(s: string)
    ensures Before(ToUpper(s), ',') == ToUpper(Before(s, ','))
  {
    hide Before, ToUpper;
    if s != "" {
      BeforeUpper(s[1..]);
      assert s == [s[0]] + s[1..];
      UpperCons(s[0], s[1..]);
      BeforeCons(s[0], s[1..]);
      BeforeCons(UpperChar(s[0]), ToUpper(s[1..]));
      UpperCons(s[0], Before(s[1..], ','));
    }
    UpperNothing();
  }

  lemma UpperNothing()
    ensures ToUpper("") == "" && Before("", ',') == ""
  {
  }

  lemma UpperCons(c: char, s: string)
    ensures ToUpper([c] + s) == [UpperChar(c)] + ToUpper(s)
  {
  }

  lemma BeforeCons(c: char, s: string)
    ensures Before([c] + s, ',') == if c == ',' then "" else [c] + Before(s, ',')
  {
    assert ([c] + s)[1..] == s;
  }

  lemma TrimmedNoComma(s: string)
    requires ',' !in s
    ensures ',' !in TrimSpace(s)
  {
    hide TrimLeft, TrimRight;
    TrimLeftPart(s);
    TrimRightSolid(TrimLeft(s));
  }

  lemma {:induction false} TrimLeftPart(s: string)
    ensures |TrimLeft(s)| <= |s| && TrimLeft(s) == s[|s| - |TrimLeft(s)|..]
  {
    if s != "" && IsSpace(s[0]) {
      TrimLeftPart(s[1..]);
    }
  }

  /** The fields of a line can be read off its normal form, up to case. */
  lemma NormalFields(line: string)
    ensures Split(NormalizeRule(line), ',') == Uppers(Trimmed(Split(line, ',')))
  {
    hide Split, Trimmed, TrimSpace;
    var parts := Trimmed(Split(line, ','));
    forall i | 0 <= i < |parts|
      ensures ',' !in parts[i]
    {
      TrimmedNoComma(Split(line, ',')[i]);
    }
    SplitJoin(parts);
    SplitUpper(Join(parts));
  }

  // ---------- Trimming the line or its fields ----------

  lemma TrimDropsFirst(c: char, s: string)
    requires IsSpace(c)
    ensures TrimSpace([c] + s) == TrimSpace(s)
  {
    assert ([c] + s)[1..] == s;
  }

  lemma {:induction false} TrimDropsLast(s: string, c: char)
    requires IsSpace(c)
    ensures TrimSpace(s + [c]) == TrimSpace(s)
  {
    TrimLeftAppend(s, c);
    if TrimLeft(s) == "" {
      assert TrimLeft([c]) == "" by { assert [c][1..] == ""; }
    } else {
      assert (TrimLeft(s) + [c])[..|TrimLeft(s)|] == TrimLeft(s);
    }
  }

  lemma {:induction false} TrimLeftAppend(s: string, c: char)
    requires IsSpace(c)
    ensures TrimLeft(s + [c]) == if TrimLeft(s) == "" then "" else TrimLeft(s) + [c]
  {
    if s == "" {
      assert s + [c] == [c] && [c][1..] == "";
    } else if IsSpace(s[0]) {
      assert (s + [c])[1..] == s[1..] + [c];
      TrimLeftAppend(s[1..], c);
    }
  }

  lemma SplitPrepend(c: char, s: string)
    requires c != ','
    ensures Split([c] + s, ',') == [[c] + Split(s, ',')[0]] + Split(s, ',')[1..]
  {
    var t, first := [c] + s, Before(s, ',');
    assert t[1..] == s;
    assert Before(t, ',') == [c] + first;
    if |first| < |s| {
      assert t[|first| + 2..] == s[|first| + 1..];
    }
  }

  lemma {:induction false} SplitAppend(s: string, c: char)
    requires c != ','
    ensures var parts := Split(s, ',');
      Split(s + [c], ',') == parts[..|parts| - 1] + [parts[|parts| - 1] + [c]]
    decreases |s|
  {
    hide Split, Before;
    var first := Before(s, ',');
    if |first| == |s| {
      assert first == s;
      SplitSingle(s, ',');
      SplitSingle(s + [c], ',');
    } else {
      var rest := s[|first| + 1..];
      SplitAppend(rest, c);
      assert s == first + [','] + rest && s + [c] == first + [','] + (rest + [c]);
      SplitCons(first, ',', rest);
      SplitCons(first, ',', rest + [c]);
    }
  }

  lemma {:induction false} TrimLeftOutside(s: string)
    ensures Trimmed(Split(TrimLeft(s), ',')) == Trimmed(Split(s, ','))
  {
    if s != "" && IsSpace(s[0]) {
      var rest := s[1..];
      TrimLeftOutside(rest);
      assert s == [s[0]] + rest;
      SplitPrepend(s[0], rest);
      TrimDropsFirst(s[0], Split(rest, ',')[0]);
    }
  }

  lemma {:induction false} TrimRightOutside(s: string)
    ensures Trimmed(Split(TrimRight(s), ',')) == Trimmed(Split(s, ','))
  {
    if s != "" && IsSpace(s[|s| - 1]) {
      var rest, c := s[..|s| - 1], s[|s| - 1];
      TrimRightOutside(rest);
      assert s == rest + [c];
      SplitAppend(rest, c);
      LastFieldTrimmed(Split(rest, ','), c);
      hide TrimSpace, Split, Trimmed;
    }
  }

  lemma LastFieldTrimmed(parts: seq<string>, c: char)
    requires parts != [] && IsSpace(c)
    ensures Trimmed(parts[..|parts| - 1] + [parts[|parts| - 1] + [c]]) == Trimmed(parts)
  {
    hide TrimSpace;
    TrimDropsLast(parts[|parts| - 1], c);
  }

  /** Trimming the line first makes no difference to its trimmed fields. */
  lemma TrimOutside(line: string)
    ensures Trimmed(Split(TrimSpace(line), ',')) == Trimmed(Split(line, ','))
  {
    hide TrimLeft, TrimRight, Split, Trimmed;
    TrimLeftOutside(line);
    TrimRightOutside(TrimLeft(line));
  }

  // ---------- Lines with one normal form ----------

  /** A line with the normal form of a plain three-field line has its type, and its value up
      to case. */
  lemma SameNormalForm(line: string, kind: string, value: string, action: string)
    requires Plain(kind) && Plain(value) && Plain(action) && ToUpper(kind) == kind
    requires NormalizeRule(line) == NormalizeRule(Line(kind, value, action))
    ensures ParseLine(line).Some? && ParseLine(line).value.kind == kind
    ensures ToUpper(ParseLine(line).value.value) == ToUpper(value)
  {
    hide NormalizeRule, Split, TrimSpace, ToUpper, ParseAction, Plain, Line;
    NormalFields(line);
    NormalFields(Line(kind, value, action));
    PlainFields(kind, value, action);
    TrimOutside(line);
    var parts := Split(TrimSpace(line), ',');
    var upper := Uppers(Trimmed(parts));
    assert upper == Uppers([kind, value, action]);
    assert |parts| == 3 && upper[0] == ToUpper(kind) && upper[1] == ToUpper(value);
  }

  lemma PlainFields(kind: string, value: string, action: string)
    requires Plain(kind) && Plain(value) && Plain(action)
    ensures Trimmed(Split(Line(kind, value, action), ',')) == [kind, value, action]
  {
    assert Line(kind, value, action) == kind + [','] + (value + [','] + action);
    hide Split, TrimSpace, Line;
    SplitCons(kind, ',', value + [','] + action);
    SplitCons(value, ',', action);
    SplitSingle(action, ',');
    TrimNothing(kind);
    TrimNothing(value);
    TrimNothing(action);
  }

  lemma UpperDecides(a: string, b: string)
    requires ToUpper(a) == ToUpper(b)
    ensures ToLower(a) == ToLower(b)
    ensures (forall i | 0 <= i < |b| :: !('a' <= b[i] <= 'z') && !('A' <= b[i] <= 'Z')) ==> a == b
  {
    assert |a| == |b|;
    forall i | 0 <= i < |a|
      ensures UpperChar(a[i]) == UpperChar(b[i])
    {
      assert ToUpper(a)[i] == ToUpper(b)[i];
    }
  }

  // ---------- Stripping ----------

  /** The lines whose repetition among the user rules is dropped. */
  function Builtins(): seq<string> {
    BuiltinPre() + BuiltinPost() + BuiltinGoogleFix() + BuiltinDoHBlock()
  }

  predicate EqualsOneOf(line: string, builtins: seq<string>) {
    exists i | 0 <= i < |builtins| :: NormalizeRule(builtins[i]) == NormalizeRule(line)
  }

  function Stripped(rules: seq<string>, builtins: seq<string>): seq<string> {
    if rules == [] then []
    else
      Stripped(rules[..|rules| - 1], builtins)
      + if EqualsOneOf(rules[|rules| - 1], builtins) then [] else [rules[|rules| - 1]]
  }

  /** `stripBuiltin`. */
  method StripBuiltin(rules: seq<string>) returns (out: seq<string>)
    ensures out == Stripped(rules, Builtins())
  {
    hide Builtins, EqualsOneOf;
    var builtins := Builtins();
    out := [];
    for i := 0 to |rules|
      invariant out == Stripped(rules[..i], builtins)
    {
      assert rules[..i + 1][..i] == rules[..i];
      if !EqualsOneOf(rules[i], builtins) {
        out := out + [rules[i]];
      }
    }
    assert rules[..|rules|] == rules;
  }

  // ---------- What stripping changes ----------

  /** A user line that repeats a private-range line compiles to a rule with the same prefix. */
  lemma RepeatedPre(net: Netip, sets: Sets, line: string, i: nat)
    requires ReadsPrivate(net) && i < 5
    requires NormalizeRule(line) == NormalizeRule(Line("IP-CIDR", PrivateRanges()[i], "direct"))
    ensures forall r | r in LineRules(net, sets, line) ::
      r.kind == "IP-CIDR" && r.prefix == Some(Masked(PrivatePrefixes()[i]))
  {
    PlainRange(i);
    PlainWords();
    UpperKinds();
    SameNormalForm(line, "IP-CIDR", PrivateRanges()[i], "direct");
    NoLetters(i);
    UpperDecides(ParseLine(line).value.value, PrivateRanges()[i]);
    hide NormalizeRule, ParseLine, ToUpper, ToLower, Plain, Masked, PrivateRanges, PrivatePrefixes, Line;
  }

  lemma NoLetters(i: nat)
    requires i < 5
    ensures var s := PrivateRanges()[i]; forall j | 0 <= j < |s| :: !('a' <= s[j] <= 'z') && !('A' <= s[j] <= 'Z')
  {
  }

  /** A user line that repeats a DNS-over-HTTPS line compiles to a rule of that type and, up to
      case, that value. */
  lemma RepeatedDoH(net: Netip, sets: Sets, line: string, kind: string, value: string)
    requires kind == "DOMAIN" || kind == "DOMAIN-SUFFIX"
    requires Plain(kind) && ToUpper(kind) == kind && Plain(value)
    requires NormalizeRule(line) == NormalizeRule(Line(kind, value, "block"))
    ensures forall r | r in LineRules(net, sets, line) :: r.kind == kind && ToLower(r.value) == ToLower(value)
  {
    hide NormalizeRule, ParseLine, ToUpper, ToLower, Plain, Line;
    PlainWords();
    SameNormalForm(line, kind, value, "block");
    UpperDecides(ParseLine(line).value.value, value);
  }

  /** The lines of the two leading layers. */
  function Leading(): seq<string> {
    BuiltinPre() + BuiltinDoHBlock()
  }

  /** No rule of the two leading layers matches. */
  ghost predicate LeadingClear(net: Netip, sets: Sets, t: Target, resolved: seq<Addr>) {
    && NoneBefore(Pre(net, sets), |Pre(net, sets)|, t, resolved)
    && NoneBefore(DoH(net, sets), |DoH(net, sets)|, t, resolved)
  }

  ghost predicate NoneMatches(rules: seq<Rule>, t: Target, resolved: seq<Addr>) {
    forall r | r in rules :: !Matches(r, t, resolved)
  }

  lemma PreRepeatDead(net: Netip, sets: Sets, line: string, i: nat, t: Target, resolved: seq<Addr>)
    requires ReadsPrivate(net) && i < 5 && LeadingClear(net, sets, t, resolved)
    requires NormalizeRule(line) == NormalizeRule(BuiltinPre()[i])
    ensures NoneMatches(LineRules(net, sets, line), t, resolved)
  {
    PreRules(net, sets);
    hide PrivateRanges, PrivatePrefixes, Line, NormalizeRule, LineRules, Masked, Pre, DoH, ReadsPrivate;
    assert BuiltinPre()[i] == Line("IP-CIDR", PrivateRanges()[i], "direct");
    RepeatedPre(net, sets, line, i);
    hide BuiltinPre;
    var p := Pre(net, sets)[i];
    assert IsPreRule(p, i) && !Matches(p, t, resolved);
    hide SomeInPrefix;
  }

  lemma SameSuffix(host: string, a: string, b: string)
    requires ToLower(a) == ToLower(b) && b != "" && b[0] != '.'
    ensures SuffixHolds(host, a) == SuffixHolds(host, b)
  {
    assert |a| == |b| && LowerChar(a[0]) == ToLower(a)[0] == ToLower(b)[0] == LowerChar(b[0]);
    assert TrimPrefix(a, ".") == a by { assert a[..1] != "."; }
    assert TrimPrefix(b, ".") == b by { assert b[..1] != "."; }
  }

  lemma DoHClear(net: Netip, sets: Sets, t: Target, resolved: seq<Addr>)
    requires LeadingClear(net, sets, t, resolved)
    ensures !Matches(DoHRule(0), t, resolved) && !Matches(DoHRule(1), t, resolved)
  {
    hide DoHRule, DoH, Pre, Matches;
    DoHRules(net, sets);
    var rules := DoH(net, sets);
    assert !Matches(rules[0], t, resolved) && !Matches(rules[1], t, resolved);
  }

  lemma DoHShape(i: nat)
    requires i < 2
    ensures var q := DoHRule(i);
      && (q.kind == "DOMAIN" || q.kind == "DOMAIN-SUFFIX")
      && Plain(q.kind) && ToUpper(q.kind) == q.kind && Plain(q.value) && q.value[0] != '.'
      && (if i == 0 then DoHSuffixLine() else DoHDomainLine()) == Line(q.kind, q.value, "block")
  {
    hide ToUpper, Line;
    PlainWords();
    UpperKinds();
    assert Plain("dns.google") && Plain("dns.google.com");
  }

  lemma DomainRepeatDead(net: Netip, sets: Sets, line: string, q: Rule, t: Target, resolved: seq<Addr>)
    requires q.kind == "DOMAIN" || q.kind == "DOMAIN-SUFFIX"
    requires Plain(q.kind) && ToUpper(q.kind) == q.kind && Plain(q.value) && q.value[0] != '.'
    requires NormalizeRule(line) == NormalizeRule(Line(q.kind, q.value, "block")) && !Matches(q, t, resolved)
    ensures NoneMatches(LineRules(net, sets, line), t, resolved)
  {
    hide Plain, ToUpper, ToLower, NormalizeRule, LineRules, Line;
    RepeatedDoH(net, sets, line, q.kind, q.value);
    forall r | r in LineRules(net, sets, line)
      ensures !Matches(r, t, resolved)
    {
      if q.kind == "DOMAIN-SUFFIX" {
        assert q.value != "" by { NotEmpty(q.value); }
        SameSuffix(t.host, r.value, q.value);
      }
      hide SuffixHolds;
    }
  }

  lemma DoHSuffixRepeatDead(net: Netip, sets: Sets, line: string, t: Target, resolved: seq<Addr>)
    requires LeadingClear(net, sets, t, resolved)
    requires NormalizeRule(line) == NormalizeRule(DoHSuffixLine())
    ensures NoneMatches(LineRules(net, sets, line), t, resolved)
  {
    hide DoHRule, Plain, ToUpper, NormalizeRule, LineRules, LeadingClear, Line, DoHSuffixLine, Matches;
    DoHClear(net, sets, t, resolved);
    DoHShape(0);
    DomainRepeatDead(net, sets, line, DoHRule(0), t, resolved);
  }

  lemma DoHDomainRepeatDead(net: Netip, sets: Sets, line: string, t: Target, resolved: seq<Addr>)
    requires LeadingClear(net, sets, t, resolved)
    requires NormalizeRule(line) == NormalizeRule(DoHDomainLine())
    ensures NoneMatches(LineRules(net, sets, line), t, resolved)
  {
    hide DoHRule, Plain, ToUpper, NormalizeRule, LineRules, LeadingClear, Line, DoHDomainLine, Matches;
    DoHClear(net, sets, t, resolved);
    DoHShape(1);
    DomainRepeatDead(net, sets, line, DoHRule(1), t, resolved);
  }

  /** A user line that repeats a leading built-in line never decides: what it matches has been
      matched before. */
  lemma RepeatDead(net: Netip, sets: Sets, line: string, t: Target, resolved: seq<Addr>)
    requires ReadsPrivate(net) && LeadingClear(net, sets, t, resolved) && EqualsOneOf(line, Leading())
    ensures NoneMatches(LineRules(net, sets, line), t, resolved)
  {
    hide NormalizeRule, BuiltinPre, DoHSuffixLine, DoHDomainLine, LeadingClear, NoneMatches, ReadsPrivate;
    var i :| 0 <= i < |Leading()| && NormalizeRule(Leading()[i]) == NormalizeRule(line);
    assert |BuiltinPre()| == 5;
    if i < 5 {
      PreRepeatDead(net, sets, line, i, t, resolved);
    } else if i == 5 {
      DoHSuffixRepeatDead(net, sets, line, t, resolved);
    } else {
      DoHDomainRepeatDead(net, sets, line, t, resolved);
    }
  }

  /** The first rule that matches, if any. */
  ghost function FirstRule(rules: seq<Rule>, t: Target, resolved: seq<Addr>): Option<Rule> {
    if rules == [] then None
    else if Matches(rules[0], t, resolved) then Some(rules[0])
    else FirstRule(rules[1..], t, resolved)
  }

  lemma {:induction false} FirstOfConcat(a: seq<Rule>, b: seq<Rule>, t: Target, resolved: seq<Addr>)
    ensures FirstRule(a + b, t, resolved) ==
      if FirstRule(a, t, resolved).Some? then FirstRule(a, t, resolved) else FirstRule(b, t, resolved)
    ensures FirstRule(a, t, resolved).None? <==> NoneMatches(a, t, resolved)
  {
    hide Matches;
    if a == [] {
      assert a + b == b;
    } else {
      assert (a + b)[1..] == a[1..] + b;
      FirstOfConcat(a[1..], b, t, resolved);
      assert a == [a[0]] + a[1..];
    }
  }

  /** A decision is by the first rule that matches. */
  lemma {:induction false} DecidedByFirst(rules: seq<Rule>, i: nat, t: Target, resolved: seq<Addr>)
    requires IsFirst(rules, i, t, resolved)
    ensures FirstRule(rules, t, resolved) == Some(rules[i])
    decreases i
  {
    hide Matches;
    if i > 0 {
      assert !Matches(rules[0], t, resolved);
      assert forall j | 0 <= j < |rules| - 1 :: rules[1..][j] == rules[j + 1];
      DecidedByFirst(rules[1..], i - 1, t, resolved);
    }
  }

  lemma {:induction false} StrippedFirst(net: Netip, sets: Sets, rules: seq<string>, t: Target, resolved: seq<Addr>)
    requires ReadsPrivate(net) && LeadingClear(net, sets, t, resolved)
    ensures FirstRule(Compiled(net, sets, Stripped(rules, Leading())), t, resolved)
         == FirstRule(Compiled(net, sets, rules), t, resolved)
  {
    hide ReadsPrivate, LeadingClear, FirstRule, Leading, EqualsOneOf, LineRules;
    if rules != [] {
      var front, last := rules[..|rules| - 1], rules[|rules| - 1];
      StrippedFirst(net, sets, front, t, resolved);
      FirstOfConcat(Compiled(net, sets, front), LineRules(net, sets, last), t, resolved);
      if EqualsOneOf(last, Leading()) {
        RepeatDead(net, sets, last, t, resolved);
        FirstOfConcat(LineRules(net, sets, last), [], t, resolved);
        assert Stripped(rules, Leading()) == Stripped(front, Leading());
      } else {
        var kept := Stripped(front, Leading());
        assert (kept + [last])[..|kept|] == kept;
        FirstOfConcat(Compiled(net, sets, kept), LineRules(net, sets, last), t, resolved);
      }
    }
  }

  /** The same outcome, whatever the position of the rule. */
  predicate SameOutcome(d: Decision, e: Decision) {
    d.action == e.action && d.egress == e.egress && d.rule == e.rule
  }

  lemma OutcomeOfFirst(rules: seq<Rule>, final: Decision, t: Target, resolved: seq<Addr>, d: Decision)
    requires Decides(rules, final, t, resolved, d)
    ensures SameOutcome(d, match FirstRule(rules, t, resolved) case Some(r) => DecisionOf(r, 0) case None => final)
  {
    hide Matches, FirstRule;
    if exists i: nat :: IsFirst(rules, i, t, resolved) && d == DecisionOf(rules[i], i) {
      var i: nat :| IsFirst(rules, i, t, resolved) && d == DecisionOf(rules[i], i);
      DecidedByFirst(rules, i, t, resolved);
    } else {
      FirstOfConcat(rules, [], t, resolved);
    }
  }

  lemma FirstOfProgram(net: Netip, sets: Sets, cfg: Config, t: Target, resolved: seq<Addr>)
    ensures var leading := FirstRule(Pre(net, sets) + DoH(net, sets), t, resolved);
      var user := FirstRule(User(net, sets, cfg), t, resolved);
      var rest := FirstRule(Ads(net, sets, cfg) + (Google(net, sets, cfg.final) + Post(net, sets)), t, resolved);
      FirstRule(Program(net, sets, cfg), t, resolved) ==
        if leading.Some? then leading else if user.Some? then user else rest
  {
    hide Program, Pre, DoH, User, Ads, Google, Post, FirstRule;
    BuiltinsFirst(net, sets, cfg);
    var rest := Ads(net, sets, cfg) + (Google(net, sets, cfg.final) + Post(net, sets));
    FirstOfConcat(Pre(net, sets) + DoH(net, sets), Configured(net, sets, cfg), t, resolved);
    FirstOfConcat(User(net, sets, cfg), rest, t, resolved);
  }

  /** Dropping every user line that repeats a line of the two leading layers, in any spelling
      the normal form allows, changes no decision. */
  lemma StrippingKeepsDecisions(net: Netip, sets: Sets, cfg: Config, t: Target, resolved: seq<Addr>,
                                d: Decision, e: Decision)
    requires ReadsPrivate(net)
    requires Decides(Program(net, sets, cfg), RuntimeFinal(cfg, sets), t, resolved, d)
    requires var stripped := cfg.(rules := Stripped(cfg.rules, Leading()));
      Decides(Program(net, sets, stripped), RuntimeFinal(stripped, sets), t, resolved, e)
    ensures SameOutcome(d, e)
  {
    hide Matches, FirstRule, Program, Stripped, Leading, ReadsPrivate, RuntimeFinal, Decides;
    var stripped := cfg.(rules := Stripped(cfg.rules, Leading()));
    StrippedProgram(net, sets, cfg, stripped, t, resolved);
    SameFallback(cfg, stripped, sets);
    OutcomeOfFirst(Program(net, sets, cfg), RuntimeFinal(cfg, sets), t, resolved, d);
    OutcomeOfFirst(Program(net, sets, stripped), RuntimeFinal(stripped, sets), t, resolved, e);
  }

  lemma StrippedProgram(net: Netip, sets: Sets, cfg: Config, stripped: Config, t: Target, resolved: seq<Addr>)
    requires ReadsPrivate(net) && stripped == cfg.(rules := Stripped(cfg.rules, Leading()))
    ensures FirstRule(Program(net, sets, stripped), t, resolved) == FirstRule(Program(net, sets, cfg), t, resolved)
  {
    hide Matches, FirstRule, Program, Stripped, Leading, ReadsPrivate, Pre, DoH, Google, Post, Compiled, AdBlockLines;
    FirstOfProgram(net, sets, cfg, t, resolved);
    FirstOfProgram(net, sets, stripped, t, resolved);
    SameAds(cfg, stripped);
    var leading := Pre(net, sets) + DoH(net, sets);
    FirstOfConcat(leading, [], t, resolved);
    if FirstRule(leading, t, resolved).None? {
      NoneBeforeLeading(Pre(net, sets), DoH(net, sets), t, resolved);
      StrippedFirst(net, sets, cfg.rules, t, resolved);
    }
  }

  lemma NoneBeforeLeading(a: seq<Rule>, b: seq<Rule>, t: Target, resolved: seq<Addr>)
    requires NoneMatches(a + b, t, resolved)
    ensures NoneBefore(a, |a|, t, resolved) && NoneBefore(b, |b|, t, resolved)
  {
    hide Matches;
    forall j | 0 <= j < |b|
      ensures !Matches(b[j], t, resolved)
    {
      assert (a + b)[|a| + j] == b[j];
    }
  }

  /** Repetitions of the two trailing layers aside, stripping is stripping the leading ones. */
  lemma {:induction false} OnlyLeadingRepeats(rules: seq<string>)
    requires forall i | 0 <= i < |rules| :: !EqualsOneOf(rules[i], BuiltinPost() + BuiltinGoogleFix())
    ensures Stripped(rules, Builtins()) == Stripped(rules, Leading())
  {
    hide Builtins, Leading, EqualsOneOf, BuiltinPost, BuiltinGoogleFix;
    if rules != [] {
      var front, last := rules[..|rules| - 1], rules[|rules| - 1];
      OnlyLeadingRepeats(front);
      LeadingOrTrailing(last);
    }
  }

  lemma LeadingOrTrailing(line: string)
    ensures EqualsOneOf(line, Builtins()) <==>
      EqualsOneOf(line, Leading()) || EqualsOneOf(line, BuiltinPost() + BuiltinGoogleFix())
  {
    hide NormalizeRule, EqualsOneOf, BuiltinPre, BuiltinPost, BuiltinGoogleFix, BuiltinDoHBlock;
    var a, b, c, d := BuiltinPre(), BuiltinPost(), BuiltinGoogleFix(), BuiltinDoHBlock();
    EqualsEither(line, a + b + c, d);
    EqualsEither(line, a + b, c);
    EqualsEither(line, a, b);
    EqualsEither(line, a, d);
    EqualsEither(line, b, c);
  }

  lemma EqualsEither(line: string, a: seq<string>, b: seq<string>)
    ensures EqualsOneOf(line, a + b) <==> EqualsOneOf(line, a) || EqualsOneOf(line, b)
  {
    hide NormalizeRule;
    if EqualsOneOf(line, a) {
      var i :| 0 <= i < |a| && NormalizeRule(a[i]) == NormalizeRule(line);
      assert (a + b)[i] == a[i];
    }
    if EqualsOneOf(line, b) {
      var i :| 0 <= i < |b| && NormalizeRule(b[i]) == NormalizeRule(line);
      assert (a + b)[|a| + i] == b[i];
    }
  }

  /** `stripBuiltin` as the source calls it changes no decision, if no user line repeats one of
      the two trailing layers. */
  lemma MigrationKeepsDecisions(net: Netip, sets: Sets, cfg: Config, t: Target, resolved: seq<Addr>,
                                d: Decision, e: Decision)
    requires ReadsPrivate(net)
    requires forall i | 0 <= i < |cfg.rules| :: !EqualsOneOf(cfg.rules[i], BuiltinPost() + BuiltinGoogleFix())
    requires Decides(Program(net, sets, cfg), RuntimeFinal(cfg, sets), t, resolved, d)
    requires var migrated := cfg.(rules := Stripped(cfg.rules, Builtins()));
      Decides(Program(net, sets, migrated), RuntimeFinal(migrated, sets), t, resolved, e)
    ensures SameOutcome(d, e)
  {
    hide Program, RuntimeFinal, Stripped, Leading, Builtins, EqualsOneOf, ReadsPrivate, Decides;
    OnlyLeadingRepeats(cfg.rules);
    StrippingKeepsDecisions(net, sets, cfg, t, resolved, d, e);
  }

  // ---------- Exactly when it changes a decision ----------

  /** The lines of the two trailing layers whose repetition is dropped. */
  function Trailing(): seq<string> {
    BuiltinPost() + BuiltinGoogleFix()
  }

  /** The first user line of which a rule matches. */
  ghost function DecidingLine(net: Netip, sets: Sets, rules: seq<string>, t: Target,
                              resolved: seq<Addr>): (i: Option<nat>)
    ensures i.Some? ==> i.value < |rules|
  {
    if rules == [] then None
    else
      var front := DecidingLine(net, sets, rules[..|rules| - 1], t, resolved);
      if front.Some? then front
      else if FirstRule(LineRules(net, sets, rules[|rules| - 1]), t, resolved).Some? then Some(|rules| - 1)
      else None
  }

  /** The deciding line repeats no leading line; stripping keeps it unless it repeats a trailing
      one, and brings no line in front of it. */
  lemma {:induction false} KeptFirst(net: Netip, sets: Sets, rules: seq<string>, t: Target, resolved: seq<Addr>)
    requires ReadsPrivate(net) && LeadingClear(net, sets, t, resolved)
    ensures var i, first := DecidingLine(net, sets, rules, t, resolved), FirstRule(Compiled(net, sets, rules), t,
        resolved);
      var kept := FirstRule(Compiled(net, sets, Stripped(rules, Builtins())), t, resolved);
      if i.None? then first.None? && kept.None?
      else
        && first.Some? && first == FirstRule(LineRules(net, sets, rules[i.value]), t, resolved)
        && (!EqualsOneOf(rules[i.value], Trailing()) ==> kept == first)
  {
    hide ReadsPrivate, LeadingClear, FirstRule, EqualsOneOf, LineRules, Builtins, Leading, Trailing, NoneMatches,
      DecidingLine, Compiled, Stripped;
    if rules == [] {
      NoRules(net, sets, t, resolved);
    } else {
      var front, last := rules[..|rules| - 1], rules[|rules| - 1];
      KeptFirst(net, sets, front, t, resolved);
      DroppedOrTrailing(net, sets, last, t, resolved);
      StrippedStep(net, sets, front, last, t, resolved);
      DecidingStep(net, sets, front, last, t, resolved);
      assert rules == front + [last];
      assert forall i | 0 <= i < |front| :: rules[i] == front[i];
    }
  }

  lemma DecidingStep(net: Netip, sets: Sets, front: seq<string>, last: string, t: Target, resolved: seq<Addr>)
    ensures var line := FirstRule(LineRules(net, sets, last), t, resolved);
      && DecidingLine(net, sets, front + [last], t, resolved)
         == (if DecidingLine(net, sets, front, t, resolved).Some? then DecidingLine(net, sets, front, t, resolved)
             else if line.Some? then Some(|front|) else None)
      && FirstRule(Compiled(net, sets, front + [last]), t, resolved)
         == if FirstRule(Compiled(net, sets, front), t, resolved).Some?
            then FirstRule(Compiled(net, sets, front), t, resolved) else line
  {
    hide FirstRule, LineRules;
    assert (front + [last])[..|front|] == front;
    FirstOfConcat(Compiled(net, sets, front), LineRules(net, sets, last), t, resolved);
  }

  /** What one more line adds to what is left. */
  lemma StrippedStep(net: Netip, sets: Sets, front: seq<string>, last: string, t: Target, resolved: seq<Addr>)
    ensures var kept := FirstRule(Compiled(net, sets, Stripped(front, Builtins())), t, resolved);
      FirstRule(Compiled(net, sets, Stripped(front + [last], Builtins())), t, resolved)
      == if kept.Some? || EqualsOneOf(last, Builtins()) then kept
         else FirstRule(LineRules(net, sets, last), t, resolved)
  {
    hide FirstRule, EqualsOneOf, LineRules, Builtins;
    var kept := Stripped(front, Builtins());
    assert (front + [last])[..|front|] == front;
    assert kept + [] == kept;
    if !EqualsOneOf(last, Builtins()) {
      assert (kept + [last])[..|kept|] == kept;
      FirstOfConcat(Compiled(net, sets, kept), LineRules(net, sets, last), t, resolved);
    }
  }

  lemma NoRules(net: Netip, sets: Sets, t: Target, resolved: seq<Addr>)
    ensures FirstRule(Compiled(net, sets, []), t, resolved) == None && DecidingLine(net, sets, [], t, resolved) == None
    ensures Stripped([], Builtins()) == []
  {
  }

  lemma DroppedOrTrailing(net: Netip, sets: Sets, line: string, t: Target, resolved: seq<Addr>)
    requires ReadsPrivate(net) && LeadingClear(net, sets, t, resolved)
    ensures FirstRule(LineRules(net, sets, line), t, resolved).Some? ==>
      (EqualsOneOf(line, Builtins()) <==> EqualsOneOf(line, Trailing()))
  {
    hide ReadsPrivate, LeadingClear, FirstRule, EqualsOneOf, LineRules, Builtins, Leading, NoneMatches,
        BuiltinPost, BuiltinGoogleFix;
    LeadingOrTrailing(line);
    FirstOfConcat(LineRules(net, sets, line), [], t, resolved);
    if EqualsOneOf(line, Leading()) {
      RepeatDead(net, sets, line, t, resolved);
    }
  }

  /** What decides the target when the dropped lines are gone: the user lines that are left, the
      layers behind them, or the fallback. */
  ghost function LeftOutcome(net: Netip, sets: Sets, cfg: Config, t: Target, resolved: seq<Addr>): Decision {
    var left := Compiled(net, sets, Stripped(cfg.rules, Builtins()))
                + (Ads(net, sets, cfg) + (Google(net, sets, cfg.final) + Post(net, sets)));
    match FirstRule(left, t, resolved)
    case Some(r) => DecisionOf(r, 0)
    case None => RuntimeFinal(cfg, sets)
  }

  /** The migration changes the outcome for a target if and only if no leading layer matches it,
      its first matching user line repeats a trailing line, and what is left decides otherwise. */
  lemma MigrationChangesIff(net: Netip, sets: Sets, cfg: Config, t: Target, resolved: seq<Addr>, d: Decision,
                            e: Decision)
    requires ReadsPrivate(net)
    requires Decides(Program(net, sets, cfg), RuntimeFinal(cfg, sets), t, resolved, d)
    requires var migrated := cfg.(rules := Stripped(cfg.rules, Builtins()));
      Decides(Program(net, sets, migrated), RuntimeFinal(migrated, sets), t, resolved, e)
    ensures !SameOutcome(d, e) <==>
      && LeadingClear(net, sets, t, resolved)
      && var i := DecidingLine(net, sets, cfg.rules, t, resolved);
         && i.Some? && EqualsOneOf(cfg.rules[i.value], Trailing())
         && var first := FirstRule(LineRules(net, sets, cfg.rules[i.value]), t, resolved);
            first.Some? && !SameOutcome(DecisionOf(first.value, 0), LeftOutcome(net, sets, cfg, t, resolved))
  {
    hide Matches, FirstRule, Program, Stripped, Builtins, Trailing, EqualsOneOf, ReadsPrivate, RuntimeFinal, Decides,
      Compiled, LineRules, LeadingClear, DecidingLine, AdBlockLines, Pre, DoH, Google, Post;
    var migrated := cfg.(rules := Stripped(cfg.rules, Builtins()));
    var user, kept := User(net, sets, cfg), User(net, sets, migrated);
    var rest := Ads(net, sets, cfg) + (Google(net, sets, cfg.final) + Post(net, sets));
    SameFallback(cfg, migrated, sets);
    SameAds(cfg, migrated);
    OutcomeOfFirst(Program(net, sets, cfg), RuntimeFinal(cfg, sets), t, resolved, d);
    OutcomeOfFirst(Program(net, sets, migrated), RuntimeFinal(migrated, sets), t, resolved, e);
    FirstOfProgram(net, sets, cfg, t, resolved);
    FirstOfProgram(net, sets, migrated, t, resolved);
    FirstOfConcat(kept, rest, t, resolved);
    ClearIff(net, sets, t, resolved);
    if LeadingClear(net, sets, t, resolved) {
      KeptFirst(net, sets, cfg.rules, t, resolved);
    }
  }

  lemma ClearIff(net: Netip, sets: Sets, t: Target, resolved: seq<Addr>)
    ensures LeadingClear(net, sets, t, resolved) <==> FirstRule(Pre(net, sets) + DoH(net, sets), t, resolved).None?
  {
    hide Matches, FirstRule, Pre, DoH;
    var leading := Pre(net, sets) + DoH(net, sets);
    if LeadingClear(net, sets, t, resolved) {
      ClearFirst(net, sets, t, resolved);
    }
    FirstOfConcat(leading, [], t, resolved);
    if FirstRule(leading, t, resolved).None? {
      NoneBeforeLeading(Pre(net, sets), DoH(net, sets), t, resolved);
    }
  }

  // ---------- Witness ----------

  /** A rule for downloads that repeats a built-in line, in front of a rule that blocks them. */
  function DownloadRules(): seq<string> {
    [Line("DOMAIN-SUFFIX", "gvt1.com", "proxy"), Line("DOMAIN-KEYWORD", "gvt1", "block")]
  }

  /** With these two user rules the host gvt1.com is proxied before the migration and blocked
      after it, whatever sets are loaded. */
  lemma RepeatedDownloadLine(net: Netip, sets: Sets, final: string, d: Decision, e: Decision)
    requires ReadsPrivate(net)
    requires var cfg, t := Config(DownloadRules(), final, false, []), Target("gvt1.com", None);
      var migrated := cfg.(rules := Stripped(cfg.rules, Builtins()));
      && Decides(Program(net, sets, cfg), RuntimeFinal(cfg, sets), t, [], d)
      && Decides(Program(net, sets, migrated), RuntimeFinal(migrated, sets), t, [], e)
    ensures d.action == Proxy && e.action == Block && !SameOutcome(d, e)
  {
    var cfg, t := Config(DownloadRules(), final, false, []), Target("gvt1.com", None);
    var migrated := cfg.(rules := Stripped(cfg.rules, Builtins()));
    var a := Rule("DOMAIN-SUFFIX", "gvt1.com", Proxy, "", None, None, None);
    var b := Rule("DOMAIN-KEYWORD", "gvt1", Block, "", None, None, None);
    DownloadUser(net, sets, cfg, migrated, a, b);
    DownloadMatches(a, b, t);
    DownloadClear(net, sets, t);
    hide Matches, Program, Stripped, Builtins, ReadsPrivate, RuntimeFinal, Decides, User, LeadingClear, Pre, DoH,
        DownloadRules;
    assert FirstRule([a, b], t, []) == Some(a) && FirstRule([b], t, []) == Some(b);
    hide FirstRule;
    ClearFirst(net, sets, t, []);
    FirstOfProgram(net, sets, cfg, t, []);
    FirstOfProgram(net, sets, migrated, t, []);
    OutcomeOfFirst(Program(net, sets, cfg), RuntimeFinal(cfg, sets), t, [], d);
    OutcomeOfFirst(Program(net, sets, migrated), RuntimeFinal(migrated, sets), t, [], e);
  }

  lemma DownloadMatches(a: Rule, b: Rule, t: Target)
    requires a.kind == "DOMAIN-SUFFIX" && a.value == "gvt1.com" && b.kind == "DOMAIN-KEYWORD" && b.value == "gvt1"
    requires t == Target("gvt1.com", None)
    ensures Matches(a, t, []) && Matches(b, t, [])
  {
    hide ToLower, Text.Contains, SuffixHolds;
    LowerFixed(a.value);
    LowerFixed(b.value);
    SuffixOfItself(t.host);
    assert t.host == "gvt1" + ".com";
    ContainsFront("gvt1", ".com");
  }

  lemma SuffixOfItself(host: string)
    requires ToLower(host) == host && host != "" && host[0] != '.'
    ensures SuffixHolds(host, host)
  {
    assert TrimPrefix(host, ".") == host by { assert host[..1] != "."; }
  }

  lemma ContainsFront(front: string, rest: string)
    ensures Text.Contains(front + rest, front)
  {
    assert (front + rest)[0..0 + |front|] == front;
    assert OccursAt(front + rest, front, 0);
  }

  lemma DownloadClear(net: Netip, sets: Sets, t: Target)
    requires ReadsPrivate(net) && t == Target("gvt1.com", None)
    ensures LeadingClear(net, sets, t, [])
  {
    hide Matches, Pre, DoH, ReadsPrivate, PrivateAddr;
    PreMatches(net, sets, t, []);
    DoHMatches(net, sets, t, []);
    DoHRules(net, sets);
    assert Addresses(t, []) == [];
    assert t.host[0] == 'g' && |t.host| == 8;
  }

  lemma KeywordLine(net: Netip, sets: Sets, kind: string, value: string)
    requires kind == "DOMAIN-KEYWORD" && Plain(kind) && Plain(value)
    ensures LineRules(net, sets, Line(kind, value, "block")) == [Rule(kind, value, Block, "", None, None, None)]
    ensures ParseLine(Line(kind, value, "block")).Some?
    ensures ParseLine(Line(kind, value, "block")).value.kind == "DOMAIN-KEYWORD"
  {
    hide Plain, ToUpper, ParseAction, ParseLine, Line, LineRules;
    PlainWords();
    FixedActions();
    UpperFixed(kind);
    DomainLine(net, sets, kind, value, "block");
    PlainLine(kind, value, "block");
  }

  lemma GoogleUserLine(net: Netip, sets: Sets, kind: string, value: string)
    requires kind == "DOMAIN-SUFFIX" && Plain(value)
    ensures LineRules(net, sets, Line(kind, value, "proxy")) == [Rule(kind, value, Proxy, "", None, None, None)]
  {
    hide Plain, ToUpper, ParseAction, ParseLine, Line, LineRules;
    PlainWords();
    FixedActions();
    UpperKinds();
    DomainLine(net, sets, kind, value, "proxy");
  }

  lemma DownloadUser(net: Netip, sets: Sets, cfg: Config, migrated: Config, a: Rule, b: Rule)
    requires cfg.rules == DownloadRules() && migrated.rules == Stripped(DownloadRules(), Builtins())
    requires a == Rule("DOMAIN-SUFFIX", "gvt1.com", Proxy, "", None, None, None)
    requires b == Rule("DOMAIN-KEYWORD", "gvt1", Block, "", None, None, None)
    ensures User(net, sets, cfg) == [a, b] && User(net, sets, migrated) == [b]
  {
    hide *;
    PlainDownload();
    GoogleUserLine(net, sets, "DOMAIN-SUFFIX", "gvt1.com");
    KeywordLine(net, sets, "DOMAIN-KEYWORD", "gvt1");
    var first, second := Line("DOMAIN-SUFFIX", "gvt1.com", "proxy"), Line("DOMAIN-KEYWORD", "gvt1", "block");
    FirstIsBuiltin(first);
    KeywordKept(net, sets, second);
    FirstDropped(net, sets, first, second);
    DownloadPair(first, second);
    UserIsCompiled(net, sets, cfg);
    UserIsCompiled(net, sets, migrated);
  }

  lemma PlainDownload()
    ensures Plain("gvt1.com") && Plain("gvt1") && Plain("DOMAIN-KEYWORD")
  {
  }

  lemma DownloadPair(first: string, second: string)
    requires first == Line("DOMAIN-SUFFIX", "gvt1.com", "proxy") && second == Line("DOMAIN-KEYWORD", "gvt1", "block")
    ensures DownloadRules() == [first, second]
  {
    hide Line;
  }

  lemma UserIsCompiled(net: Netip, sets: Sets, cfg: Config)
    ensures User(net, sets, cfg) == Compiled(net, sets, cfg.rules)
  {
  }

  lemma FirstDropped(net: Netip, sets: Sets, first: string, second: string)
    requires EqualsOneOf(first, Builtins()) && !EqualsOneOf(second, Builtins())
    ensures Stripped([first, second], Builtins()) == [second]
    ensures Compiled(net, sets, [first, second]) == LineRules(net, sets, first) + LineRules(net, sets, second)
    ensures Compiled(net, sets, [second]) == LineRules(net, sets, second)
  {
    hide EqualsOneOf, Builtins, LineRules;
    CompiledPair(net, sets, first, second);
    assert [first, second][..1] == [first] && [first][..0] == [] && [second][..0] == [];
    assert Stripped([first], Builtins()) == [];
  }

  lemma FirstIsBuiltin(line: string)
    requires line == Line("DOMAIN-SUFFIX", "gvt1.com", "proxy")
    ensures EqualsOneOf(line, Builtins())
  {
    hide Line, NormalizeRule, BuiltinPre, BuiltinPost, BuiltinDoHBlock;
    assert GoogleDomains()[4] == "gvt1.com";
    assert BuiltinGoogleFix()[4] == line;
    hide GoogleDomains, BuiltinGoogleFix;
    assert Builtins()[|BuiltinPre()| + |BuiltinPost()| + 4] == line;
  }

  /** A line of a type no built-in line has is kept. */
  lemma KeywordKept(net: Netip, sets: Sets, line: string)
    requires ParseLine(line).Some? && ParseLine(line).value.kind == "DOMAIN-KEYWORD"
    ensures !EqualsOneOf(line, Builtins())
  {
    hide NormalizeRule, ParseLine, BuiltinPre, BuiltinPost, BuiltinGoogleFix, BuiltinDoHBlock;
    forall i | 0 <= i < |Builtins()|
      ensures NormalizeRule(Builtins()[i]) != NormalizeRule(line)
    {
      var kind, value, action := BuiltinShape(i);
      if NormalizeRule(Builtins()[i]) == NormalizeRule(line) {
        hide Plain, ToUpper, Line, Builtins;
        SameNormalForm(line, kind, value, action);
      }
    }
  }

  lemma BuiltinShape(i: nat) returns (kind: string, value: string, action: string)
    requires i < |Builtins()|
    ensures Builtins()[i] == Line(kind, value, action)
    ensures Plain(kind) && Plain(value) && Plain(action) && ToUpper(kind) == kind && kind != "DOMAIN-KEYWORD"
  {
    PlainWords();
    UpperKinds();
    assert Plain("cn-domain") && Plain("cn") && Plain("dns.google") && Plain("dns.google.com");
    var pre, post, google := |BuiltinPre()|, |BuiltinPost()|, |BuiltinGoogleFix()|;
    hide Plain, ToUpper, Line;
    if i < pre {
      PlainRange(i);
      hide PrivateRanges;
      kind, value, action := "IP-CIDR", PrivateRanges()[i], "direct";
    } else if i < pre + post {
      kind, value, action := if i == pre then "RULE-SET" else "GEOIP", if i == pre then "cn-domain" else "cn", "direct";
    } else if i < pre + post + google {
      PlainDomain(i - pre - post);
      hide GoogleDomains;
      kind, value, action := "DOMAIN-SUFFIX", GoogleDomains()[i - pre - post], "proxy";
    } else if i == pre + post + google {
      kind, value, action := "DOMAIN-SUFFIX", "dns.google", "block";
    } else {
      kind, value, action := "DOMAIN", "dns.google.com", "block";
    }
  }

  /** A repeated trailing line does matter: in front of another user rule it wins, at its
      built-in place that rule does. */
  lemma TrailingRepeatMatters(net: Netip, sets: Sets, cfg: Config, other: string, r: Rule,
                              t: Target, resolved: seq<Addr>, d: Decision, e: Decision)
    requires cfg.rules == [Line("GEOIP", "cn", "direct"), other] && LineRules(net, sets, other) == [r]
    requires LeadingClear(net, sets, t, resolved) && !EqualsOneOf(other, Builtins()) && Matches(r, t, resolved)
    requires "geoip:cn" in sets.cidrs && SomeInSet(Some(sets.cidrs["geoip:cn"]), Addresses(t, resolved))
    requires Decides(Program(net, sets, cfg), RuntimeFinal(cfg, sets), t, resolved, d)
    requires var migrated := cfg.(rules := Stripped(cfg.rules, Builtins()));
      Decides(Program(net, sets, migrated), RuntimeFinal(migrated, sets), t, resolved, e)
    ensures d.action == Direct && e.action == r.action && e.egress == r.egress
  {
    var geo := Rule("GEOIP", "cn", Direct, "", None, Some(sets.cidrs["geoip:cn"]), None);
    var migrated := cfg.(rules := Stripped(cfg.rules, Builtins()));
    GeoLine(net, sets);
    MigratedRules(cfg.rules, other);
    UserOf(net, sets, cfg, migrated, other, geo, r);
    assert Matches(geo, t, resolved);
    hide Program, RuntimeFinal, Stripped, Builtins, EqualsOneOf, Decides, Matches, LineRules, LeadingClear, Line,
        User, Pre, DoH;
    assert FirstRule([geo, r], t, resolved) == Some(geo) && FirstRule([r], t, resolved) == Some(r);
    hide FirstRule;
    ClearFirst(net, sets, t, resolved);
    FirstOfProgram(net, sets, cfg, t, resolved);
    FirstOfProgram(net, sets, migrated, t, resolved);
    OutcomeOfFirst(Program(net, sets, cfg), RuntimeFinal(cfg, sets), t, resolved, d);
    OutcomeOfFirst(Program(net, sets, migrated), RuntimeFinal(migrated, sets), t, resolved, e);
  }

  lemma GeoLine(net: Netip, sets: Sets)
    requires "geoip:cn" in sets.cidrs
    ensures LineRules(net, sets, Line("GEOIP", "cn", "direct"))
      == [Rule("GEOIP", "cn", Direct, "", None, Some(sets.cidrs["geoip:cn"]), None)]
  {
    PlainWords();
    UpperKinds();
    FixedActions();
    assert Plain("cn");
    LowerFixed("cn");
    assert "geoip:" + "cn" == "geoip:cn";
    hide Plain, ToUpper, ToLower, ParseAction, ParseLine, Line;
    PlainLine("GEOIP", "cn", "direct");
  }

  lemma MigratedRules(rules: seq<string>, other: string)
    requires rules == [Line("GEOIP", "cn", "direct"), other] && !EqualsOneOf(other, Builtins())
    ensures Stripped(rules, Builtins()) == [other]
  {
    var geo := Line("GEOIP", "cn", "direct");
    assert BuiltinPost()[1] == geo;
    hide Line, NormalizeRule, BuiltinPre, BuiltinPost, BuiltinGoogleFix, BuiltinDoHBlock;
    var n := |BuiltinPre()|;
    assert |BuiltinPost()| >= 2 ==> Builtins()[n + 1] == BuiltinPost()[1];
    assert |BuiltinPost()| == 2 by { PostLength(); }
    assert EqualsOneOf(geo, Builtins());
    hide Builtins, EqualsOneOf;
    assert rules[..1] == [geo] && [geo][..0] == [];
    assert Stripped([geo], Builtins()) == [];
  }

  lemma PostLength()
    ensures |BuiltinPost()| == 2
  {
  }

  lemma UserOf(net: Netip, sets: Sets, cfg: Config, migrated: Config, other: string, geo: Rule, r: Rule)
    requires LineRules(net, sets, other) == [r] && cfg.rules == [Line("GEOIP", "cn", "direct"), other]
    requires LineRules(net, sets, Line("GEOIP", "cn", "direct")) == [geo] && migrated.rules == [other]
    ensures User(net, sets, cfg) == [geo, r] && User(net, sets, migrated) == [r]
  {
    hide LineRules, Line;
    CompiledPair(net, sets, Line("GEOIP", "cn", "direct"), other);
    assert [other][..0] == [];
  }

  lemma ClearFirst(net: Netip, sets: Sets, t: Target, resolved: seq<Addr>)
    requires LeadingClear(net, sets, t, resolved)
    ensures FirstRule(Pre(net, sets) + DoH(net, sets), t, resolved) == None
  {
    hide Matches, Pre, DoH, FirstRule;
    var a, b := Pre(net, sets), DoH(net, sets);
    FirstOfConcat(a + b, [], t, resolved);
    forall r | r in a + b
      ensures !Matches(r, t, resolved)
    {
      var i :| 0 <= i < |a + b| && (a + b)[i] == r;
      assert r == if i < |a| then a[i] else b[i - |a|];
    }
  }
}
