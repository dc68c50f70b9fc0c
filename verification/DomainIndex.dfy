/** The domain rule set: exact hosts, suffix rules in a trie of reversed labels, and
    keywords, kept faithful to the plain list of rules that were added. */
module DomainIndex {
  import opened Common
  import opened Text

  // ---------- The rules themselves ----------

  /** One parsed line. A suffix rule keeps its non-empty labels, in reading order. */
  datatype Rule = Ignored | Keyword(word: string) | Exact(host: string) | Suffix(labels: seq<string>)

  /** Lower case, one trailing dot dropped, brackets of an IPv6 literal dropped. */
  function NormalizeHost(s: string): string {
    TrimSuffix(TrimPrefix(TrimSuffix(TrimSpace(ToLower(s)), "."), "["), "]")
  }

  function NonEmptyLabels(labels: seq<string>): seq<string> {
    if labels == [] then []
    else if labels[0] == "" then NonEmptyLabels(labels[1..])
    else [labels[0]] + NonEmptyLabels(labels[1..])
  }

  function SuffixRule(text: string): Rule {
    var host := NormalizeHost(text);
    if host == "" then Ignored else Suffix(NonEmptyLabels(Split(host, '.')))
  }

  /** How a line is read: comments and blank lines are dropped, the prefixes decide. */
  function ParseRule(raw: string): Rule {
    var line := TrimSpace(raw);
    if line == "" || HasPrefix(line, "#") || HasPrefix(line, "//") then Ignored
    else
      var text := if '#' in line then TrimSpace(Before(line, '#')) else line;
      if text == "" then Ignored else ReadRule(text)
  }

  function ReadRule(text: string): Rule {
    if HasPrefix(text, "keyword:") then
      var word := ToLower(TrimSpace(text[|"keyword:"|..]));
      if word == "" then Ignored else Keyword(word)
    else if HasPrefix(text, "full:") then
      var host := NormalizeHost(text[|"full:"|..]);
      if host == "" then Ignored else Exact(host)
    else if HasPrefix(text, "domain:") then SuffixRule(text[|"domain:"|..])
    else if HasPrefix(text, "+.") then SuffixRule(text[2..])
    else if HasPrefix(text, ".") then SuffixRule(text[1..])
    else SuffixRule(text)
  }

  predicate IsSuffixOf(tail: seq<string>, all: seq<string>) {
    |tail| <= |all| && all[|all| - |tail|..] == tail
  }

  /** When a rule hits a normalised host. A suffix rule left with no label hits nothing. */
  predicate Hits(r: Rule, h: string) {
    match r
    case Ignored => false
    case Keyword(word) => Contains(h, word)
    case Exact(host) => h == host
    case Suffix(labels) => labels != [] && IsSuffixOf(labels, Split(h, '.'))
  }

  /** The naive scan the index has to agree with. */
  predicate NaiveMatch(rules: seq<Rule>, host: string) {
    var h := NormalizeHost(host);
    h != "" && exists i | 0 <= i < |rules| :: Hits(rules[i], h)
  }

  function Keywords(rules: seq<Rule>): seq<string> {
    if rules == [] then []
    else
      var last := rules[|rules| - 1];
      Keywords(rules[..|rules| - 1]) + if last.Keyword? then [last.word] else []
  }

  /** The number of rules counted: a repeated suffix rule counts once, other rules each time. */
  function CountRules(rules: seq<Rule>): nat {
    if rules == [] then 0
    else
      var front := rules[..|rules| - 1];
      var last := rules[|rules| - 1];
      CountRules(front) + if last.Ignored? || (last.Suffix? && last in front) then 0 else 1
  }

  function Reverse(s: seq<string>): (r: seq<string>)
    ensures |r| == |s|
    ensures forall i | 0 <= i < |s| :: r[i] == s[|s| - 1 - i]
  {
    seq(|s|, i requires 0 <= i < |s| => s[|s| - 1 - i])
  }

  lemma ReverseTwice(s: seq<string>)
    ensures Reverse(Reverse(s)) == s
  {
  }

  lemma ReverseSuffix(tail: seq<string>, all: seq<string>)
    ensures IsSuffixOf(tail, all) <==> |tail| <= |all| && Reverse(tail) == Reverse(all)[..|tail|]
  {
    if |tail| <= |all| {
      var end := all[|all| - |tail|..];
      assert Reverse(all)[..|tail|] == Reverse(end);
      if Reverse(tail) == Reverse(end) {
        ReverseTwice(tail);
        ReverseTwice(end);
      }
    }
  }

  lemma NonEmptyStep(labels: seq<string>, i: nat)
    requires i < |labels|
    ensures var rest := NonEmptyLabels(labels[i + 1..]);
      && (labels[i] == "" ==> NonEmptyLabels(labels[i..]) == rest)
      && (labels[i] != "" ==> Reverse(NonEmptyLabels(labels[i..])) == Reverse(rest) + [labels[i]])
  {
    assert labels[i..][1..] == labels[i + 1..];
  }

  /** `p` lists the non-empty labels from the last one down to the `i`-th. */
  predicate IsPathOf(labels: seq<string>, i: nat, p: seq<string>)
    requires i <= |labels|
  {
    p == Reverse(NonEmptyLabels(labels[i..]))
  }

  lemma NoPath(labels: seq<string>)
    ensures IsPathOf(labels, |labels|, [])
  {
  }

  lemma LongerPath(labels: seq<string>, i: nat, p: seq<string>)
    requires i < |labels| && IsPathOf(labels, i + 1, p)
    ensures IsPathOf(labels, i, if labels[i] == "" then p else p + [labels[i]])
  {
    hide NonEmptyLabels, Reverse;
    NonEmptyStep(labels, i);
  }

  lemma AppendRule(rules: seq<Rule>, r: Rule)
    ensures Keywords(rules + [r]) == Keywords(rules) + if r.Keyword? then [r.word] else []
    ensures CountRules(rules + [r])
         == CountRules(rules) + if r.Ignored? || (r.Suffix? && r in rules) then 0 else 1
    ensures forall q :: q in rules + [r] <==> q in rules || q == r
  {
    assert (rules + [r])[..|rules|] == rules;
  }

  lemma {:induction false} KeywordListed(rules: seq<Rule>, word: string)
    ensures word in Keywords(rules) <==> Keyword(word) in rules
  {
    if rules != [] {
      var front := rules[..|rules| - 1];
      var last := rules[|rules| - 1];
      KeywordListed(front, word);
      assert rules == front + [last];
    }
  }

  /** The plain fields say what was added. */
  ghost predicate Listed(exact: set<string>, keywords: seq<string>, count: nat, added: seq<Rule>) {
    && (forall h :: h in exact <==> Exact(h) in added)
    && keywords == Keywords(added)
    && count == CountRules(added)
  }

  lemma ListOneMore(exact: set<string>, keywords: seq<string>, count: nat, added: seq<Rule>, r: Rule)
    requires Listed(exact, keywords, count, added)
    ensures Listed(
      exact + if r.Exact? then {r.host} else {},
      keywords + if r.Keyword? then [r.word] else [],
      count + if r.Ignored? || (r.Suffix? && r in added) then 0 else 1,
      added + [r])
  {
    hide Keywords, CountRules;
    AppendRule(added, r);
  }

  /** The end of every suffix rule's path is among the trie's paths, and exactly those
      ends are terminal. */
  ghost predicate Marked(terminals: set<seq<string>>, paths: set<seq<string>>, added: seq<Rule>) {
    && (forall p {:trigger p in terminals} | p in paths :: p in terminals <==> Suffix(Reverse(p)) in added)
    && (forall ls {:trigger Suffix(ls)} | Suffix(ls) in added :: Reverse(ls) in paths)
    && terminals <= paths
  }

  lemma MarkOneMore(terminals: set<seq<string>>, paths: set<seq<string>>, more: set<seq<string>>,
                    added: seq<Rule>, ls: seq<string>)
    requires Marked(terminals, paths, added) && paths <= more && Reverse(ls) in more
    ensures Marked(terminals + {Reverse(ls)}, more, added + [Suffix(ls)])
  {
    ReverseTwice(ls);
    forall p | p in more
      ensures p in terminals + {Reverse(ls)} <==> Suffix(Reverse(p)) in added + [Suffix(ls)]
    {
      ReverseTwice(p);
      if Suffix(Reverse(p)) in added {
        assert Reverse(Reverse(p)) in paths;
      }
    }
  }

  lemma MarkOther(terminals: set<seq<string>>, paths: set<seq<string>>, added: seq<Rule>, r: Rule)
    requires Marked(terminals, paths, added) && !r.Suffix?
    ensures Marked(terminals, paths, added + [r])
  {
  }

  // ---------- The trie ----------

  class Node {
    var children: map<string, Node>
    var terminal: bool
    /** The labels on the way here from the root, top-level label first. */
    ghost const path: seq<string>

    constructor (ghost path: seq<string>)
      ensures children == map[] && !terminal && this.path == path
    {
      children, terminal := map[], false;
      this.path := path;
    }
  }

  /** A finite tree laid flat: `nodes` gives the node at the end of each label path from the
      root, `kids` its child map. Each node has exactly one path, and the maps agree. */
  ghost predicate IsTree(nodes: map<seq<string>, Node>, kids: map<seq<string>, map<string, Node>>, root: Node) {
    && kids.Keys == nodes.Keys
    && [] in nodes && nodes[[]] == root
    && (forall p | p in nodes :: nodes[p].path == p)
    && (forall p, l | p in nodes && l in kids[p] :: p + [l] in nodes && kids[p][l] == nodes[p + [l]])
    && (forall q {:trigger Attached(kids, q)} | q in nodes :: Attached(kids, q))
  }

  /** The path `q` hangs below the path one label up. */
  ghost predicate Attached(kids: map<seq<string>, map<string, Node>>, q: seq<string>) {
    q == [] || (q[..|q| - 1] in kids && q[|q| - 1] in kids[q[..|q| - 1]])
  }

  lemma OnlyNode(nodes: map<seq<string>, Node>, kids: map<seq<string>, map<string, Node>>, root: Node,
                 p: seq<string>)
    requires IsTree(nodes, kids, root) && p in nodes
    ensures forall q | q in nodes && q != p :: nodes[q] != nodes[p]
  {
  }

  lemma AddChild(nodes: map<seq<string>, Node>, kids: map<seq<string>, map<string, Node>>, root: Node,
                 p: seq<string>, l: string, next: Node)
    requires IsTree(nodes, kids, root) && p in nodes && l !in kids[p] && next.path == p + [l]
    ensures p + [l] !in nodes
    ensures IsTree(nodes[p + [l] := next], kids[p := kids[p][l := next]][p + [l] := map[]], root)
  {
    var path := p + [l];
    assert path[..|p|] == p && path[|p|] == l;
    assert Attached(kids, path) <==> path in nodes;
    var nodes' := nodes[path := next];
    var kids' := kids[p := kids[p][l := next]][path := map[]];
    forall q | q in nodes'
      ensures Attached(kids', q)
    {
      assert q != path ==> Attached(kids, q);
    }
    forall q, k | q in nodes' && k in kids'[q]
      ensures q + [k] in nodes' && kids'[q][k] == nodes'[q + [k]]
    {
      if !(q == p && k == l) {
        assert k in kids[q];
        assert q + [k] != path;
      }
    }
  }

  lemma {:induction false} PrefixesPresent(nodes: map<seq<string>, Node>, kids: map<seq<string>, map<string, Node>>,
                                           root: Node, q: seq<string>, k: nat)
    requires IsTree(nodes, kids, root) && q in nodes && k <= |q|
    ensures q[..k] in nodes
    decreases |q|
  {
    if k < |q| {
      assert Attached(kids, q);
      PrefixesPresent(nodes, kids, root, q[..|q| - 1], k);
      assert q[..|q| - 1][..k] == q[..k];
    } else {
      assert q[..k] == q;
    }
  }

  lemma Child(nodes: map<seq<string>, Node>, kids: map<seq<string>, map<string, Node>>, root: Node,
              p: seq<string>, l: string)
    requires IsTree(nodes, kids, root) && p in nodes && p in kids
    ensures l in kids[p] <==> p + [l] in nodes
    ensures l in kids[p] ==> nodes[p + [l]] == kids[p][l]
  {
    var q := p + [l];
    assert q[..|q| - 1] == p;
    if q in nodes {
      assert Attached(kids, q);
    }
  }

  /** One step along a path: into the child if there is one, else no longer path exists. */
  lemma Step(nodes: map<seq<string>, Node>, kids: map<seq<string>, map<string, Node>>, root: Node,
             rev: seq<string>, n: nat)
    requires IsTree(nodes, kids, root) && n < |rev| && rev[..n] in nodes && rev[..n] in kids
    ensures rev[n] in kids[rev[..n]] ==>
      rev[..n + 1] in nodes && nodes[rev[..n + 1]] == kids[rev[..n]][rev[n]]
    ensures rev[n] !in kids[rev[..n]] ==> forall k | n < k <= |rev| :: rev[..k] !in nodes
  {
    hide IsTree;
    assert rev[..n + 1] == rev[..n] + [rev[n]];
    Child(nodes, kids, root, rev[..n], rev[n]);
    forall k | n < k <= |rev| && rev[..k] in nodes
      ensures rev[..n + 1] in nodes
    {
      PrefixesPresent(nodes, kids, root, rev[..k], n + 1);
      assert rev[..k][..n + 1] == rev[..n + 1];
    }
  }

  class DomainSet {
    var root: Node
    var exact: set<string>
    var keywords: seq<string>
    var count: nat

    /** The trie laid flat: which node sits at the end of each label path from the root. */
    ghost var nodes: map<seq<string>, Node>
    /** Every rule added so far, in order. */
    ghost var added: seq<Rule>

    ghost function Kids(): map<seq<string>, map<string, Node>>
      reads `nodes, nodes.Values`children
    {
      map p | p in nodes :: nodes[p].children
    }

    ghost predicate Tree()
      reads `root, `nodes, nodes.Values`children
    {
      IsTree(nodes, Kids(), root)
    }

    ghost function Terminals(): set<seq<string>>
      reads `nodes, nodes.Values`terminal
    {
      set p | p in nodes && nodes[p].terminal
    }

    ghost predicate Faithful()
      reads this, nodes.Values
    {
      Listed(exact, keywords, count, added) && Marked(Terminals(), nodes.Keys, added)
    }

    ghost predicate Valid()
      reads this, nodes.Values
    {
      Tree() && Faithful()
    }

    constructor ()
      ensures Valid() && added == [] && fresh(nodes.Values)
    {
      root := new Node([]);
      exact, keywords, count := {}, [], 0;
      added := [];
      new;
      nodes := map[[] := root];
    }

    /** The child of `cur` for label `l`, made if it is missing. */
    method Descend(ghost p: seq<string>, cur: Node, l: string) returns (next: Node)
      requires Tree() && p in nodes && nodes[p] == cur
      modifies this`nodes, cur`children
      ensures Tree() && root == old(root)
      ensures p + [l] in nodes && nodes[p + [l]] == next
      ensures nodes.Keys == old(nodes.Keys) + {p + [l]} && Terminals() == old(Terminals())
      ensures fresh(nodes.Values - old(nodes.Values))
    {
      hide IsTree, Terminals;
      Child(nodes, Kids(), root, p, l);
      if l in cur.children {
        next := cur.children[l];
        assert nodes.Keys == nodes.Keys + {p + [l]};
      } else {
        next := NewChild(p, cur, l);
      }
    }

    method NewChild(ghost p: seq<string>, cur: Node, l: string) returns (next: Node)
      requires Tree() && p in nodes && nodes[p] == cur && l !in cur.children
      modifies this`nodes, cur`children
      ensures Tree() && nodes == old(nodes)[p + [l] := next]
      ensures Terminals() == old(Terminals()) && fresh(next)
    {
      hide IsTree, Terminals;
      next := new Node(p + [l]);
      OnlyNode(nodes, Kids(), root, p);
      AddChild(nodes, Kids(), root, p, l, next);
      Link(p, cur, l, next);
    }

    method Link(ghost p: seq<string>, cur: Node, l: string, next: Node)
      requires p in nodes && nodes[p] == cur && forall q | q in nodes && q != p :: nodes[q] != cur
      requires p + [l] !in nodes && next !in nodes.Values && next.children == map[] && !next.terminal
      modifies this`nodes, cur`children
      ensures nodes == old(nodes)[p + [l] := next]
      ensures Kids() == old(Kids())[p := old(Kids())[p][l := next]][p + [l] := map[]]
      ensures Terminals() == old(Terminals())
    {
      assert next != cur by { assert cur in nodes.Values; }
      HangChild(p, cur, l, next);
      PutNode(p + [l], next);
    }

    method HangChild(ghost p: seq<string>, cur: Node, l: string, next: Node)
      requires p in nodes && nodes[p] == cur && forall q | q in nodes && q != p :: nodes[q] != cur
      modifies cur`children
      ensures Kids() == old(Kids())[p := old(Kids())[p][l := next]]
    {
      cur.children := cur.children[l := next];
    }

    ghost method PutNode(path: seq<string>, next: Node)
      requires path !in nodes && !next.terminal
      modifies `nodes
      ensures nodes == old(nodes)[path := next]
      ensures Kids() == old(Kids())[path := next.children] && Terminals() == old(Terminals())
    {
      nodes := nodes[path := next];
    }

    lemma RootThere()
      requires Tree()
      ensures [] in nodes && nodes[[]] == root
    {
    }

    /** The insertion loop of `addSuffix`: from the last label on, empty labels skipped. */
    method InsertPath(labels: seq<string>) returns (cur: Node, ghost p: seq<string>)
      requires Tree()
      modifies `nodes, nodes.Values`children
      ensures Tree() && p in nodes && nodes[p] == cur
      ensures IsPathOf(labels, 0, p)
      ensures old(nodes.Keys) <= nodes.Keys && Terminals() == old(Terminals())
      ensures fresh(nodes.Values - old(nodes.Values))
    {
      hide IsPathOf, Tree, Terminals, Kids, IsTree;
      RootThere();
      cur := root;
      p := [];
      var i := |labels|;
      NoPath(labels);
      while i > 0
        invariant 0 <= i <= |labels|
        invariant IsPathOf(labels, i, p)
        invariant Tree() && p in nodes && nodes[p] == cur
        invariant old(nodes.Keys) <= nodes.Keys && Terminals() == old(Terminals())
        invariant fresh(nodes.Values - old(nodes.Values))
      {
        i := i - 1;
        LongerPath(labels, i, p);
        assert cur in nodes.Values;
        if labels[i] != "" {
          cur := Descend(p, cur, labels[i]);
          p := p + [labels[i]];
        }
      }
    }

    /** `addSuffix`: the end of the path becomes terminal, and counts if it was not. */
    method AddSuffix(host: string)
      requires Valid()
      modifies `nodes, `count, `added, nodes.Values
      ensures Valid() && fresh(nodes.Values - old(nodes.Values))
      ensures added == old(added) + [Suffix(NonEmptyLabels(Split(host, '.')))]
    {
      hide Split, NonEmptyLabels, IsTree, Listed, Marked, Reverse;
      var labels := Split(host, '.');
      var cur, p := InsertPath(labels);
      assert labels[0..] == labels;
      ghost var rule := Suffix(NonEmptyLabels(labels));
      OnlyNode(nodes, Kids(), root, p);
      TerminalRule(rule.labels, old(nodes.Keys));
      ListOneMore(exact, keywords, count, added, rule);
      MarkOneMore(Terminals(), old(nodes.Keys), nodes.Keys, added, rule.labels);
      assert exact + {} == exact && keywords + [] == keywords;
      MarkTerminal(p, cur);
      added := added + [rule];
    }

    method MarkTerminal(ghost p: seq<string>, cur: Node)
      requires p in nodes && nodes[p] == cur && forall q | q in nodes && q != p :: nodes[q] != cur
      modifies `count, cur`terminal
      ensures Kids() == old(Kids()) && Terminals() == old(Terminals()) + {p}
      ensures count == old(count) + if old(cur.terminal) then 0 else 1
    {
      ghost var before := Terminals();
      if !cur.terminal {
        cur.terminal := true;
        count := count + 1;
      }
      assert Terminals() == before + {p};
    }

    lemma TerminalRule(ls: seq<string>, paths: set<seq<string>>)
      requires Reverse(ls) in nodes && Marked(Terminals(), paths, added)
      ensures nodes[Reverse(ls)].terminal <==> Suffix(ls) in added
    {
      ReverseTwice(ls);
      assert Reverse(ls) in Terminals() <==> nodes[Reverse(ls)].terminal;
    }

    method AddKeyword(word: string)
      requires Valid()
      modifies `keywords, `count, `added
      ensures Valid() && added == old(added) + [Keyword(word)]
    {
      hide Tree, Listed, Marked;
      ListOneMore(exact, keywords, count, added, Keyword(word));
      MarkOther(Terminals(), nodes.Keys, added, Keyword(word));
      keywords := keywords + [word];
      count := count + 1;
      added := added + [Keyword(word)];
      assert exact + {} == exact;
    }

    method AddExact(host: string)
      requires Valid()
      modifies `exact, `count, `added
      ensures Valid() && added == old(added) + [Exact(host)]
    {
      hide Tree, Listed, Marked;
      ListOneMore(exact, keywords, count, added, Exact(host));
      MarkOther(Terminals(), nodes.Keys, added, Exact(host));
      exact := exact + {host};
      count := count + 1;
      added := added + [Exact(host)];
      assert keywords + [] == keywords;
    }

    /** A line without a rule leaves the index alone. */
    ghost method Skip()
      requires Valid()
      modifies `added
      ensures Valid() && added == old(added) + [Ignored]
    {
      hide Tree, Listed, Marked;
      ListOneMore(exact, keywords, count, added, Ignored);
      MarkOther(Terminals(), nodes.Keys, added, Ignored);
      added := added + [Ignored];
      assert keywords + [] == keywords && exact + {} == exact;
    }

    /** `AddRule`: the index afterwards is faithful to one more rule. */
    method AddRule(raw: string)
      requires Valid()
      modifies this, nodes.Values
      ensures Valid() && fresh(nodes.Values - old(nodes.Values))
      ensures added == old(added) + [ParseRule(raw)]
    {
      hide TrimSpace, NormalizeHost, NonEmptyLabels, Split, Before, Tree, Faithful;
      var line := TrimSpace(raw);
      if line == "" || HasPrefix(line, "#") || HasPrefix(line, "//") {
        Skip();
        return;
      }
      if '#' in line {
        line := TrimSpace(Before(line, '#'));
        if line == "" {
          Skip();
          return;
        }
      }
      if HasPrefix(line, "keyword:") {
        var word := ToLower(TrimSpace(line[|"keyword:"|..]));
        if word == "" {
          Skip();
          return;
        }
        AddKeyword(word);
        return;
      }
      if HasPrefix(line, "full:") {
        var host := NormalizeHost(line[|"full:"|..]);
        if host == "" {
          Skip();
          return;
        }
        AddExact(host);
        return;
      }
      if HasPrefix(line, "domain:") {
        line := line[|"domain:"|..];
      } else if HasPrefix(line, "+.") {
        line := line[2..];
      } else if HasPrefix(line, ".") {
        line := line[1..];
      }
      var host := NormalizeHost(line);
      if host == "" {
        Skip();
        return;
      }
      AddSuffix(host);
    }

    ghost predicate TerminalAt(q: seq<string>)
      reads `nodes, nodes.Values
    {
      q in Terminals()
    }

    /** Which suffix rules hit, seen in the trie: a non-empty prefix of the reversed labels
        ends at a terminal node. */
    lemma SuffixRulesInTrie(h: string)
      requires Valid()
      ensures var rev := Reverse(Split(h, '.'));
        (exists i :: 0 <= i < |added| && added[i].Suffix? && Hits(added[i], h))
          <==> exists k :: 0 < k <= |rev| && TerminalAt(rev[..k])
    {
      hide Split, Tree;
      var labels := Split(h, '.');
      var rev := Reverse(labels);
      if exists i :: 0 <= i < |added| && added[i].Suffix? && Hits(added[i], h) {
        var i :| 0 <= i < |added| && added[i].Suffix? && Hits(added[i], h);
        var ls := added[i].labels;
        ReverseSuffix(ls, labels);
        ReverseTwice(ls);
        assert added[i] == Suffix(ls) && Suffix(ls) in added;
        assert Reverse(ls) in nodes.Keys;
        assert TerminalAt(rev[..|ls|]);
      }
      if exists k :: 0 < k <= |rev| && TerminalAt(rev[..k]) {
        var k :| 0 < k <= |rev| && TerminalAt(rev[..k]);
        var ls := Reverse(rev[..k]);
        ReverseTwice(rev[..k]);
        ReverseSuffix(ls, labels);
        assert rev[..k] in Terminals() && rev[..k] in nodes.Keys;
        assert Suffix(ls) in added;
        var i :| 0 <= i < |added| && added[i] == Suffix(ls);
        assert Hits(added[i], h);
      }
    }

    /** `Match`: the index answers as the naive scan of the added rules does. */
    method Match(host: string) returns (r: bool)
      requires Valid()
      ensures r == NaiveMatch(added, host)
    {
      hide NormalizeHost, Split, Hits, Tree, Faithful;
      var h := NormalizeHost(host);
      if h == "" {
        return false;
      }
      HitBySort(h);
      SuffixRulesInTrie(h);
      if h in exact {
        return true;
      }
      var found := WalkTrie(Split(h, '.'));
      if found {
        return true;
      }
      r := AnyKeyword(h);
    }

    /** The cursor walk from the top-level label down. */
    method WalkTrie(labels: seq<string>) returns (r: bool)
      requires Tree()
      ensures r == exists k :: 0 < k <= |labels| && TerminalAt(Reverse(labels)[..k])
    {
      ghost var rev := Reverse(labels);
      assert rev[..0] == [] && [] in nodes && nodes[[]] == root;
      hide Reverse, IsTree, TerminalAt, Terminals;
      var cur := root;
      var i := |labels|;
      while i > 0
        invariant 0 <= i <= |labels|
        invariant rev[..|labels| - i] in nodes && nodes[rev[..|labels| - i]] == cur
        invariant forall k | 0 < k <= |labels| - i :: !TerminalAt(rev[..k])
      {
        ghost var n := |labels| - i;
        i := i - 1;
        ReverseAt(labels, n);
        Step(nodes, Kids(), root, rev, n);
        TerminalNodes(rev);
        if labels[i] !in cur.children {
          return false;
        }
        cur := cur.children[labels[i]];
        if cur.terminal {
          return true;
        }
      }
      return false;
    }

    lemma TerminalNodes(rev: seq<string>)
      ensures forall k | 0 < k <= |rev| :: TerminalAt(rev[..k]) <==> rev[..k] in nodes && nodes[rev[..k]].terminal
    {
    }

    /** `Len`. */
    method Len() returns (n: nat)
      requires Valid()
      ensures n == CountRules(added)
    {
      return count;
    }

    method AnyKeyword(h: string) returns (r: bool)
      ensures r == exists w :: w in keywords && Contains(h, w)
    {
      var k := 0;
      while k < |keywords|
        invariant 0 <= k <= |keywords|
        invariant forall j | 0 <= j < k :: !Contains(h, keywords[j])
      {
        if Contains(h, keywords[k]) {
          return true;
        }
        k := k + 1;
      }
      return false;
    }

    /** A hit is by an exact rule, a suffix rule or a keyword. */
    lemma HitBySort(h: string)
      requires Faithful()
      ensures (exists i :: 0 <= i < |added| && Hits(added[i], h))
         <==> || h in exact
              || (exists i :: 0 <= i < |added| && added[i].Suffix? && Hits(added[i], h))
              || (exists w :: w in keywords && Contains(h, w))
    {
      forall w | w in keywords && Contains(h, w)
        ensures exists i :: 0 <= i < |added| && Hits(added[i], h)
      {
        KeywordListed(added, w);
        var i :| 0 <= i < |added| && added[i] == Keyword(w);
        assert Hits(added[i], h);
      }
      if h in exact {
        var i :| 0 <= i < |added| && added[i] == Exact(h);
        assert Hits(added[i], h);
      }
      forall i | 0 <= i < |added| && Hits(added[i], h) && !added[i].Suffix?
        ensures h in exact || exists w :: w in keywords && Contains(h, w)
      {
        if added[i].Keyword? {
          KeywordListed(added, added[i].word);
        }
      }
    }
  }

  lemma ReverseAt(s: seq<string>, n: nat)
    requires n < |s|
    ensures Reverse(s)[n] == s[|s| - 1 - n]
  {
  }

  /** The length is positive exactly when some line was a rule. */
  lemma {:induction false} CountedIff(rules: seq<Rule>)
    ensures CountRules(rules) > 0 <==> exists i :: 0 <= i < |rules| && rules[i] != Ignored
  {
    if rules != [] {
      var front := rules[..|rules| - 1];
      var last := rules[|rules| - 1];
      CountedIff(front);
      if last.Suffix? && last in front {
        var i :| 0 <= i < |front| && front[i] == last;
        assert rules[i] != Ignored;
      }
      assert forall i | 0 <= i < |front| :: rules[i] == front[i];
    }
  }

  /** A counted rule need not be able to hit: a line of three dots has no label left. */
  lemma {:induction false} DotsRuleIsDead(h: string)
    ensures CountRules([ParseRule("...")]) == 1
    ensures !Hits(ParseRule("..."), h)
  {
    hide NormalizeHost, NonEmptyLabels, Split, ParseRule;
    DotsParsed();
    NormalizedDots();
    LabelsOfDot();
    assert [Suffix([])][..0] == [];
  }

  lemma {:induction false} DotsParsed()
    ensures ParseRule("...") == SuffixRule("..")
  {
    hide SuffixRule, TrimSpace, NormalizeHost, ToLower, Before, Contains;
    TrimNothing("...");
    var line := "...";
    assert line[0] == '.' && line[1] == '.' && line[2] == '.' && |line| == 3;
    assert '#' !in line;
    assert !HasPrefix(line, "#") && !HasPrefix(line, "//") && !HasPrefix(line, "+.") && HasPrefix(line, ".");
    assert line[1..] == "..";
  }

  lemma NormalizedDots()
    ensures NormalizeHost("..") == "."
  {
    assert ToLower("..") == "..";
    TrimNothing("..");
  }

  lemma LabelsOfDot()
    ensures NonEmptyLabels(Split(".", '.')) == []
  {
    SplitCons("", '.', "");
    assert "" + ['.'] + "" == ".";
    SplitSingle("", '.');
    var labels := [""] + [""];
    assert labels[1..] == [""] && labels[1..][1..] == [];
  }
}
