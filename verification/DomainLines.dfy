/** What each form of line in a domain list matches, said of the hosts themselves. */
module DomainLines {
  import opened Text
  import opened DomainIndex
  import opened DomainRules
  import opened LineText

  // ---------- Hosts and lines ----------

  predicate NameChar(c: char) {
    'a' <= c <= 'z' || '0' <= c <= '9' || c == '-' || c == '_'
  }

  predicate IsName(l: string) {
    l != "" && forall i | 0 <= i < |l| :: NameChar(l[i])
  }

  predicate AreNames(labels: seq<string>) {
    labels != [] && forall i | 0 <= i < |labels| :: IsName(labels[i])
  }

  /** The four ways to list a host and everything below it, and the one to list it alone. */
  datatype Form = Full | Plain | Dot | PlusDot | Domain {
    function Prefix(): string {
      match this
      case Full => "full:"
      case Plain => ""
      case Dot => "."
      case PlusDot => "+."
      case Domain => "domain:"
    }
  }

  /** A line of a list: one host, one keyword, or nothing but a comment. The text may be written in
      any case, stand between spaces, and be followed by a comment. */
  datatype Line =
    | HostLine(form: Form, labels: seq<string>, written: string)
    | KeywordLine(word: string)
    | Remark(hash: bool, text: string)
    | Blank

  datatype Placed = Placed(left: string, line: Line, right: string, comment: string)

  predicate Proper(l: Line) {
    match l
    case HostLine(_, labels, written) => AreNames(labels) && ToLower(written) == JoinDots(labels)
    case KeywordLine(word) => word != "" && Tight(word) && '#' !in word
    case Remark(_, _) => true
    case Blank => true
  }

  function Body(l: Line): string {
    match l
    case HostLine(form, _, written) => form.Prefix() + written
    case KeywordLine(word) => "keyword:" + word
    case Remark(hash, text) => Mark(hash) + text
    case Blank => ""
  }

  predicate WellPlaced(p: Placed) {
    Around(p.left, p.right, p.comment) && Proper(p.line)
  }

  function Written(p: Placed): string {
    p.left + Body(p.line) + p.right + p.comment
  }

  /** Which normalised hosts a line is meant to match. */
  predicate Means(l: Line, h: string) {
    match l
    case HostLine(form, labels, _) =>
      labels != [] && (h == JoinDots(labels) || (form != Full && HasSuffix(h, "." + JoinDots(labels))))
    case KeywordLine(word) => Contains(h, ToLower(word))
    case Remark(_, _) => false
    case Blank => false
  }

  // ---------- Spaces and comments ----------

  /** Spaces around a text and a comment behind it make no difference. */
  lemma {:induction false} Surroundings(left: string, body: string, right: string, comment: string)
    requires IsText(body) && Around(left, right, comment)
    ensures ParseRule(left + body + right + comment) == ReadRule(body)
  {
    hide TrimSpace, ReadRule, Before, HasPrefix;
    TextOfLine(left, body, right, comment);
  }

  lemma {:induction false} RemarkIgnored(left: string, hash: bool, rest: string)
    requires AllSpace(left)
    ensures ParseRule(left + Mark(hash) + rest) == Ignored
  {
    hide TrimSpace, ReadRule, Before, HasPrefix;
    RemarkOfLine(left, hash, rest);
  }

  lemma {:induction false} BlankIgnored(left: string, right: string, comment: string)
    requires Around(left, right, comment)
    ensures ParseRule(left + "" + right + comment) == Ignored
  {
    hide TrimSpace, ReadRule, Before, HasPrefix;
    BlankOfLine(left, right, comment);
  }

  // ---------- Hosts ----------

  lemma {:induction false} NamesAreLabels(labels: seq<string>)
    requires AreNames(labels)
    ensures AreLabels(labels)
  {
    forall i | 0 <= i < |labels|
      ensures IsLabel(labels[i])
    {
      assert IsName(labels[i]);
      assert forall c | c in labels[i] :: NameChar(c);
    }
  }

  predicate HostChars(s: string) {
    forall i | 0 <= i < |s| :: NameChar(s[i]) || s[i] == '.'
  }

  lemma {:induction false} JoinedChars(labels: seq<string>)
    requires AreNames(labels)
    ensures var h := JoinDots(labels);
      h != "" && HostChars(h) && NameChar(h[0]) && NameChar(h[|h| - 1])
  {
    assert IsName(labels[0]);
    if |labels| > 1 {
      assert AreNames(labels[1..]) by { assert forall i | 1 <= i < |labels| :: labels[1..][i - 1] == labels[i]; }
      JoinedChars(labels[1..]);
    }
  }

  /** Written in any case, a host of names normalises to itself. */
  lemma {:induction false} WrittenNormal(labels: seq<string>, written: string)
    requires AreNames(labels) && ToLower(written) == JoinDots(labels)
    ensures NormalizeHost(written) == JoinDots(labels)
  {
    hide JoinDots, TrimSpace, Split, Bare, HostChars, ToLower, TrimSuffix, TrimPrefix;
    var h := JoinDots(labels);
    JoinedChars(labels);
    NameIsBare(h);
    LowerFixed(h);
    BareIsNormal(h);
  }

  lemma NameIsBare(h: string)
    requires h != "" && HostChars(h) && NameChar(h[0]) && NameChar(h[|h| - 1])
    ensures Bare(h) && NoUpper(h)
  {
  }

  lemma WrittenChars(labels: seq<string>, written: string)
    requires AreNames(labels) && ToLower(written) == JoinDots(labels)
    ensures written != "" && ':' !in written && '#' !in written && Tight(written)
    ensures written[0] != '.' && written[0] != '+' && written[0] != '/'
  {
    JoinedChars(labels);
    hide JoinDots;
    var h := JoinDots(labels);
    forall i | 0 <= i < |written|
      ensures LowerChar(written[i]) == h[i]
    {
      assert ToLower(written)[i] == LowerChar(written[i]);
    }
    hide ToLower;
  }

  lemma {:induction false} SuffixRead(labels: seq<string>, written: string)
    requires AreNames(labels) && ToLower(written) == JoinDots(labels)
    ensures SuffixRule(written) == Suffix(labels)
  {
    WrittenNormal(labels, written);
    NamesAreLabels(labels);
    JoinSplits(labels);
    AllKept(labels);
    JoinedChars(labels);
    hide NormalizeHost, JoinDots, Split, NonEmptyLabels, ToLower;
  }

  lemma {:induction false} SplitConcat(p: string, q: string)
    ensures Split(p + "." + q, '.') == Split(p, '.') + Split(q, '.')
    decreases |p|
  {
    hide Split;
    var first := Before(p, '.');
    if |first| == |p| {
      SplitSingle(p, '.');
      SplitCons(p, '.', q);
    } else {
      var rest := p[|first| + 1..];
      assert p == first + "." + rest;
      SplitConcat(rest, q);
      SplitCons(first, '.', rest);
      assert p + "." + q == first + "." + (rest + "." + q);
      SplitCons(first, '.', rest + "." + q);
      assert [first] + (Split(rest, '.') + Split(q, '.')) == [first] + Split(rest, '.') + Split(q, '.');
    }
  }

  lemma {:induction false} JoinOfSplit(s: string)
    ensures JoinDots(Split(s, '.')) == s
    decreases |s|
  {
    var first := Before(s, '.');
    if |first| < |s| {
      var rest := s[|first| + 1..];
      assert s == first + "." + rest;
      JoinOfSplit(rest);
      SplitCons(first, '.', rest);
      hide Split;
      assert Split(s, '.')[1..] == Split(rest, '.');
    }
  }

  lemma {:induction false} JoinConcat(a: seq<string>, b: seq<string>)
    requires a != [] && b != []
    ensures JoinDots(a + b) == JoinDots(a) + "." + JoinDots(b)
  {
    assert (a + b)[1..] == a[1..] + b;
    if |a| > 1 {
      JoinConcat(a[1..], b);
    } else {
      assert a[1..] + b == b;
    }
  }

  /** The labels of a host end in given labels exactly when it is their host or lies below it. */
  lemma {:induction false} BelowHost(labels: seq<string>, h: string)
    requires labels != [] && AreLabels(labels)
    ensures IsSuffixOf(labels, Split(h, '.'))
       <==> h == JoinDots(labels) || HasSuffix(h, "." + JoinDots(labels))
  {
    var all, host := Split(h, '.'), JoinDots(labels);
    JoinSplits(labels);
    JoinOfSplit(h);
    hide Split, JoinDots, AreLabels, HasSuffix, IsSuffixOf;
    if IsSuffixOf(labels, all) {
      LabelsBelow(labels, all);
    }
    if h == host {
      assert IsSuffixOf(labels, labels) by { WholeSuffix(labels); }
    } else if HasSuffix(h, "." + host) {
      HostBelow(labels, h, host);
    }
  }

  lemma WholeSuffix(labels: seq<string>)
    ensures IsSuffixOf(labels, labels)
  {
  }

  lemma {:induction false} LabelsBelow(labels: seq<string>, all: seq<string>)
    requires labels != [] && IsSuffixOf(labels, all)
    ensures JoinDots(all) == JoinDots(labels) || HasSuffix(JoinDots(all), "." + JoinDots(labels))
  {
    var front := all[..|all| - |labels|];
    assert all == front + labels;
    hide JoinDots;
    if front == [] {
      assert all == labels;
    } else {
      JoinConcat(front, labels);
      assert JoinDots(all) == JoinDots(front) + ("." + JoinDots(labels));
      TailOfSum(JoinDots(front), "." + JoinDots(labels));
    }
  }

  lemma {:induction false} HostBelow(labels: seq<string>, h: string, host: string)
    requires Split(host, '.') == labels && HasSuffix(h, "." + host)
    ensures IsSuffixOf(labels, Split(h, '.'))
  {
    var front := h[..|h| - |host| - 1];
    hide Split;
    assert h == front + "." + host;
    SplitConcat(front, host);
  }

  lemma TailOfSum(p: string, q: string)
    ensures HasSuffix(p + q, q)
  {
  }

  // ---------- The forms ----------

  lemma ColonAt(s: string, word: string, rest: string)
    requires ':' !in s && ':' in word
    ensures !HasPrefix(s, word)
  {
    if HasPrefix(s, word) {
      CharsOfPrefix(s, word, ':');
    }
  }

  lemma CharsOfPrefix(s: string, word: string, c: char)
    requires HasPrefix(s, word) && c in word
    ensures c in s
  {
    assert c in s[..|word|];
  }

  lemma {:induction false} FormRead(form: Form, labels: seq<string>, written: string)
    requires AreNames(labels) && ToLower(written) == JoinDots(labels)
    ensures ReadRule(form.Prefix() + written) == if form == Full then Exact(JoinDots(labels)) else Suffix(labels)
  {
    WrittenNormal(labels, written);
    SuffixRead(labels, written);
    WrittenChars(labels, written);
    JoinedChars(labels);
    hide NormalizeHost, SuffixRule, JoinDots, ToLower, TrimSpace;
    ReadForm(form, written);
  }

  /** The prefix is taken off and decides. */
  lemma {:induction false} ReadForm(form: Form, written: string)
    requires written != "" && ':' !in written && written[0] != '.' && written[0] != '+'
    requires NormalizeHost(written) != ""
    ensures ReadRule(form.Prefix() + written)
         == if form == Full then Exact(NormalizeHost(written)) else SuffixRule(written)
  {
    hide NormalizeHost, SuffixRule, ToLower, TrimSpace;
    var text := form.Prefix() + written;
    assert text[|form.Prefix()|..] == written;
    match form {
      case Full => assert text[..5] == "full:" && text[0] == 'f';
      case Domain => assert text[..7] == "domain:" && text[0] == 'd';
      case Dot => assert text[..1] == "." && text[0] == '.';
      case PlusDot => assert text[..2] == "+." && text[0] == '+';
      case Plain =>
        assert text == written;
        ColonAt(written, "keyword:", "");
        ColonAt(written, "full:", "");
        ColonAt(written, "domain:", "");
    }
  }

  lemma {:induction false} KeywordRead(word: string)
    requires word != "" && Tight(word)
    ensures ReadRule("keyword:" + word) == Keyword(ToLower(word))
  {
    var text := "keyword:" + word;
    assert text[..|"keyword:"|] == "keyword:" && text[|"keyword:"|..] == word;
    TrimNothing(word);
    hide TrimSpace, NormalizeHost, SuffixRule;
  }

  lemma {:induction false} HostBody(form: Form, labels: seq<string>, written: string)
    requires AreNames(labels) && ToLower(written) == JoinDots(labels)
    ensures IsText(form.Prefix() + written)
  {
    WrittenChars(labels, written);
    hide JoinDots, ToLower;
    PrefixedBody(form, written);
  }

  lemma {:induction false} PrefixedBody(form: Form, written: string)
    requires written != "" && Tight(written) && '#' !in written && written[0] != '/'
    ensures IsText(form.Prefix() + written)
  {
    var body := form.Prefix() + written;
    assert body[|body| - 1] == written[|written| - 1];
    match form {
      case Full => assert body[0] == 'f' && forall c | c in "full:" :: c != '#';
      case Domain => assert body[0] == 'd' && forall c | c in "domain:" :: c != '#';
      case Dot => assert body[0] == '.' && forall c | c in "." :: c != '#';
      case PlusDot => assert body[0] == '+' && forall c | c in "+." :: c != '#';
      case Plain => assert body == written;
    }
  }

  lemma {:induction false} KeywordBody(word: string)
    requires word != "" && Tight(word) && '#' !in word
    ensures IsText("keyword:" + word)
  {
    var body := "keyword:" + word;
    assert body[0] == 'k' && body[|body| - 1] == word[|word| - 1];
    assert forall c | c in "keyword:" :: c != '#';
  }

  /** How every placed line is read. */
  lemma {:induction false} LineRead(p: Placed)
    requires WellPlaced(p)
    ensures ParseRule(Written(p)) == match p.line
      case HostLine(form, labels, _) => if form == Full then Exact(JoinDots(labels)) else Suffix(labels)
      case KeywordLine(word) => Keyword(ToLower(word))
      case Remark(_, _) => Ignored
      case Blank => Ignored
  {
    hide ParseRule, ReadRule, JoinDots, ToLower, Tight, AllSpace, IsText, Mark;
    match p.line {
      case HostLine(form, labels, written) =>
        HostBody(form, labels, written);
        FormRead(form, labels, written);
        Surroundings(p.left, Body(p.line), p.right, p.comment);
      case KeywordLine(word) =>
        KeywordBody(word);
        KeywordRead(word);
        Surroundings(p.left, Body(p.line), p.right, p.comment);
      case Remark(hash, text) =>
        assert Written(p) == p.left + Mark(hash) + (text + p.right + p.comment);
        RemarkIgnored(p.left, hash, text + p.right + p.comment);
      case Blank =>
        BlankIgnored(p.left, p.right, p.comment);
    }
  }

  lemma {:induction false} LineHits(p: Placed, h: string)
    requires WellPlaced(p)
    ensures Hits(ParseRule(Written(p)), h) <==> Means(p.line, h)
  {
    LineRead(p);
    if p.line.HostLine? {
      NamesAreLabels(p.line.labels);
      hide ParseRule, JoinDots, Split, ToLower, AreLabels, IsSuffixOf, HasSuffix;
      BelowHost(p.line.labels, h);
    }
  }

  // ---------- Lists of lines ----------

  function WrittenLines(list: seq<Placed>): (raws: seq<string>)
    ensures |raws| == |list| && forall i | 0 <= i < |list| :: raws[i] == Written(list[i])
  {
    seq(|list|, i requires 0 <= i < |list| => Written(list[i]))
  }

  function ParsedRules(raws: seq<string>): (rules: seq<Rule>)
    ensures |rules| == |raws| && forall i | 0 <= i < |raws| :: rules[i] == ParseRule(raws[i])
  {
    seq(|raws|, i requires 0 <= i < |raws| => ParseRule(raws[i]))
  }

  /** `parseDomains`, given the lines of the file. */
  method ParseDomains(raws: seq<string>) returns (ds: DomainSet)
    ensures fresh(ds) && ds.Valid() && ds.added == ParsedRules(raws)
  {
    hide ParsedRules, DomainSet.Valid, ParseRule;
    ds := new DomainSet();
    NothingParsed(raws);
    for n := 0 to |raws|
      invariant ds.Valid() && fresh(ds) && fresh(ds.nodes.Values)
      invariant ds.added == ParsedRules(raws[..n])
    {
      ds.AddRule(raws[n]);
      OneParsed(raws, n);
    }
  }

  lemma NothingParsed(raws: seq<string>)
    ensures ParsedRules(raws[..0]) == [] && raws[..|raws|] == raws
  {
  }

  lemma OneParsed(raws: seq<string>, n: nat)
    requires n < |raws|
    ensures ParsedRules(raws[..n + 1]) == ParsedRules(raws[..n]) + [ParseRule(raws[n])]
  {
  }

  /** A list of lines matches exactly the hosts that one of its lines is meant to match. */
  lemma {:induction false} ListMeaning(list: seq<Placed>, host: string)
    requires forall i | 0 <= i < |list| :: WellPlaced(list[i])
    ensures NaiveMatch(ParsedRules(WrittenLines(list)), host) <==>
      var h := NormalizeHost(host);
      h != "" && exists i :: 0 <= i < |list| && Means(list[i].line, h)
  {
    var h := NormalizeHost(host);
    hide NormalizeHost, Hits, Means, ParseRule, Written, WellPlaced;
    var rules := ParsedRules(WrittenLines(list));
    forall i | 0 <= i < |list|
      ensures Hits(rules[i], h) <==> Means(list[i].line, h)
    {
      LineHits(list[i], h);
    }
  }

  /** The index built from such a list answers just so. */
  method AnswerFromList(list: seq<Placed>, host: string) returns (r: bool)
    requires forall i | 0 <= i < |list| :: WellPlaced(list[i])
    ensures var h := NormalizeHost(host);
      r <==> h != "" && exists i :: 0 <= i < |list| && Means(list[i].line, h)
  {
    hide NormalizeHost, Means, Written, WellPlaced, NaiveMatch;
    var ds := ParseDomains(WrittenLines(list));
    r := ds.Match(host);
    ListMeaning(list, host);
  }

  /** A host is asked for in any case, between spaces, with a final dot, or in brackets. */
  lemma {:induction false} AskedAs(labels: seq<string>, written: string, left: string, right: string)
    requires AreNames(labels) && ToLower(written) == JoinDots(labels) && AllSpace(left) && AllSpace(right)
    ensures NormalizeHost(left + written + right) == JoinDots(labels)
    ensures NormalizeHost(left + (written + ".") + right) == JoinDots(labels)
    ensures NormalizeHost(left + ("[" + written + "]") + right) == JoinDots(labels)
  {
    JoinedChars(labels);
    hide JoinDots, TrimSpace;
    var h := JoinDots(labels);
    SpacesLower(left, written, right);
    SpacesLower(left, written + ".", right);
    SpacesLower(left, "[" + written + "]", right);
    assert ToLower(written + ".") == h + ".";
    assert ToLower("[" + written + "]") == "[" + h + "]";
    TrimSpaceMeaning(left, h, right);
    TrimSpaceMeaning(left, h + ".", right);
    TrimSpaceMeaning(left, "[" + h + "]", right);
    hide ToLower;
    EdgesDropped(h);
  }

  lemma EdgesDropped(h: string)
    requires h != "" && NameChar(h[0]) && NameChar(h[|h| - 1])
    ensures TrimSuffix(h, ".") == h && TrimPrefix(h, "[") == h && TrimSuffix(h, "]") == h
    ensures TrimSuffix(h + ".", ".") == h
    ensures TrimSuffix("[" + h + "]", ".") == "[" + h + "]" && TrimPrefix("[" + h + "]", "[") == h + "]"
    ensures TrimSuffix(h + "]", "]") == h
  {
    assert h[|h| - 1..] == [h[|h| - 1]] && h[..1] == [h[0]];
    var b := "[" + h + "]";
    assert b[|b| - 1..] == "]" && b[..1] == "[" && b[1..] == h + "]";
    assert (h + ".")[|h|..] == "." && (h + "]")[|h|..] == "]";
  }

  lemma SpacesLower(left: string, s: string, right: string)
    requires AllSpace(left) && AllSpace(right)
    ensures ToLower(left + s + right) == left + ToLower(s) + right
  {
  }
}
