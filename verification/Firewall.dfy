/** The gateway's own chain of packet rules: inserted at the front, appended at the end, and
    decided by the first rule that matches. */
module Firewall {
  import opened Common
  import opened CidrIndex
  import opened Lists
  import Text

  datatype Verdict = Accept | Drop | Reject

  /** One packet as far as these rules look at it; `nets` are the networks its source is in. */
  datatype Packet = Packet(udp: bool, port: int, nets: set<string>)

  /** A rule, with its comment and handle as listed, for one source network or any. */
  datatype Rule = Rule(comment: string, source: Option<string>, udp: bool, ports: set<int>, verdict: Verdict,
                       handle: Option<nat>)

  predicate Matches(r: Rule, p: Packet) {
    (r.source.Some? ==> r.source.value in p.nets) && r.udp == p.udp && p.port in r.ports
  }

  /** The verdict of the first matching rule; none leaves it to the chain's policy. */
  function Decide(chain: seq<Rule>, p: Packet): Option<Verdict> {
    if chain == [] then None
    else if Matches(chain[0], p) then Some(chain[0].verdict)
    else Decide(chain[1..], p)
  }

  lemma {:induction false} DecideConcat(a: seq<Rule>, b: seq<Rule>, p: Packet)
    ensures Decide(a + b, p) == if Decide(a, p).Some? then Decide(a, p) else Decide(b, p)
  {
    if a == [] {
      assert a + b == b;
    } else {
      assert (a + b)[1..] == a[1..] + b;
      DecideConcat(a[1..], b, p);
    }
  }

  predicate HasComment(chain: seq<Rule>, comments: set<string>) {
    exists r :: r in chain && r.comment in comments
  }

  // ---------- Ports ----------

  predicate IsPort(p: int) {
    1 <= p <= 65535
  }

  predicate Ascending(s: seq<int>) {
    forall i, j | 0 <= i < j < |s| :: s[i] < s[j]
  }

  /** `cleanPorts`: valid ports, once each, ascending. */
  method CleanPorts(ports: seq<int>) returns (r: seq<int>)
    ensures Ascending(r) && forall x :: x in r <==> 1 <= x < 65536 && x in ports
  {
    r := [];
    for n := 0 to |ports|
      invariant Ascending(r) && forall x :: x in r <==> IsPort(x) && x in ports[..n]
    {
      assert forall x :: x in ports[..n + 1] <==> x in ports[..n] || x == ports[n];
      var p := ports[n];
      if !IsPort(p) || p in r {
        continue;
      }
      r := InsertPort(r, p);
    }
    assert ports[..|ports|] == ports;
  }

  method InsertPort(s: seq<int>, p: int) returns (r: seq<int>)
    requires Ascending(s) && p !in s
    ensures Ascending(r) && forall x :: x in r <==> x in s || x == p
  {
    var i := 0;
    while i < |s| && s[i] < p
      invariant 0 <= i <= |s| && forall j | 0 <= j < i :: s[j] < p
    {
      i := i + 1;
    }
    InsertedMembers(s, i, p);
    assert i < |s| ==> p < s[i];
    r := InsertAt(s, i, p);
  }

  /** `firstPort`. */
  function FirstPort(ports: seq<int>): int {
    if ports == [] then 0 else if IsPort(ports[0]) then ports[0] else FirstPort(ports[1..])
  }

  /** The first of the ports that is a valid one, or 0. */
  lemma {:induction false} FirstPortMeaning(ports: seq<int>, k: nat)
    requires k <= |ports| && forall i | 0 <= i < k :: ports[i] < 1 || ports[i] > 65535
    ensures k < |ports| && 1 <= ports[k] <= 65535 ==> FirstPort(ports) == ports[k]
    ensures k == |ports| ==> FirstPort(ports) == 0
  {
    if k > 0 {
      FirstPortMeaning(ports[1..], k - 1);
    }
  }

  // ---------- Ingress restrictions ----------

  function AllowComment(udp: bool, port: int): string {
    (if udp then "5gpn-runtime-allow-udp-" else "5gpn-runtime-allow-tcp-") + Text.Decimal(if port < 0 then 0 else port)
  }

  function DenyComment(udp: bool, port: int): string {
    (if udp then "5gpn-runtime-deny-udp-" else "5gpn-runtime-deny-tcp-") + Text.Decimal(if port < 0 then 0 else port)
  }

  const QUIC_COMMENT := "5gpn-quic-takeover"
  const QUIC_REJECT := "5gpn-dns-quic"

  /** The comments that count as an existing allow rule for a port. */
  function AllowComments(udp: bool, port: int, first: int): set<string> {
    if udp then {AllowComment(true, port), QUIC_COMMENT, "5gpn-android"}
    else {AllowComment(false, port), "5gpn-dns", "5gpn-android"} + if port == first then {"5gpn-next"} else {}
  }

  function DenyComments(udp: bool, port: int, first: int): set<string> {
    if udp then {DenyComment(true, port), "5gpn-deny-public-udp"}
    else {DenyComment(false, port), "5gpn-deny-public-tcp"} + if port == first then {"5gpn-deny-public-panel"} else {}
  }

  function AllowRule(udp: bool, port: int, clients: string): Rule {
    Rule(AllowComment(udp, port), Some(clients), udp, {port}, Accept, None)
  }

  function DenyRule(udp: bool, port: int): Rule {
    Rule(DenyComment(udp, port), None, udp, {port}, Drop, None)
  }

  /** The networks and ports one call is about: `first` is the first port as configured. */
  datatype Scope = Scope(clients: string, udp: bool, first: int)

  predicate Allowed(listed: seq<Rule>, c: Scope, port: int) {
    HasComment(listed, AllowComments(c.udp, port, c.first))
  }

  predicate Denied(listed: seq<Rule>, c: Scope, port: int) {
    HasComment(listed, DenyComments(c.udp, port, c.first))
  }

  predicate Commented(listed: seq<Rule>, comment: string) {
    exists r :: r in listed && r.comment == comment
  }

  /** The comments by which a port is taken to be let in already: its own, those of the installer,
      and for the first port configured that of the panel. */
  lemma {:induction false} AllowedMeaning(listed: seq<Rule>, c: Scope, port: int)
    requires 1 <= port <= 65535
    ensures Allowed(listed, c, port) <==>
      || Commented(listed,
           (if c.udp then "5gpn-runtime-allow-udp-" else "5gpn-runtime-allow-tcp-") + Text.Decimal(port))
      || Commented(listed, "5gpn-android")
      || (if c.udp then Commented(listed, "5gpn-quic-takeover")
          else Commented(listed, "5gpn-dns") || (port == c.first && Commented(listed, "5gpn-next")))
  {
    hide Text.Decimal;
    CommentedSet(listed, AllowComments(c.udp, port, c.first));
  }

  /** And those by which it is taken to be closed to everyone else. */
  lemma {:induction false} DeniedMeaning(listed: seq<Rule>, c: Scope, port: int)
    requires 1 <= port <= 65535
    ensures Denied(listed, c, port) <==>
      || Commented(listed, (if c.udp then "5gpn-runtime-deny-udp-" else "5gpn-runtime-deny-tcp-") + Text.Decimal(port))
      || Commented(listed, if c.udp then "5gpn-deny-public-udp" else "5gpn-deny-public-tcp")
      || (!c.udp && port == c.first && Commented(listed, "5gpn-deny-public-panel"))
  {
    hide Text.Decimal;
    CommentedSet(listed, DenyComments(c.udp, port, c.first));
  }

  lemma CommentedSet(listed: seq<Rule>, comments: set<string>)
    ensures HasComment(listed, comments) <==> exists s :: s in comments && Commented(listed, s)
  {
  }

  /** One round of the loop: the allow rule goes to the front, the deny rule to the end. */
  function Covered(listed: seq<Rule>, chain: seq<Rule>, c: Scope, port: int): seq<Rule> {
    var a := if Allowed(listed, c, port) then chain else [AllowRule(c.udp, port, c.clients)] + chain;
    if Denied(listed, c, port) then a else a + [DenyRule(c.udp, port)]
  }

  /** What the loop over ports makes of a chain; `listed` is the chain as read at the start.
      Handles of new rules are not looked at again. */
  function Restricted(listed: seq<Rule>, chain: seq<Rule>, c: Scope, ports: seq<int>): seq<Rule> {
    if ports == [] then chain
    else Covered(listed, Restricted(listed, chain, c, ports[..|ports| - 1]), c, ports[|ports| - 1])
  }

  /** One of the two loops of `EnsureIngressRestrictions`, when no command fails. */
  method RestrictPorts(listed: seq<Rule>, chain: seq<Rule>, c: Scope, ports: seq<int>)
      returns (after: seq<Rule>, changed: bool)
    ensures after == Restricted(listed, chain, c, ports)
    ensures !changed ==> after == chain
  {
    after, changed := chain, false;
    for i := 0 to |ports|
      invariant after == Restricted(listed, chain, c, ports[..i])
      invariant !changed ==> after == chain
    {
      hide HasComment, AllowComments, DenyComments, AllowRule, DenyRule;
      assert ports[..i + 1][..i] == ports[..i];
      if !Allowed(listed, c, ports[i]) {
        after := [AllowRule(c.udp, ports[i], c.clients)] + after;
        changed := true;
      }
      if !Denied(listed, c, ports[i]) {
        after := after + [DenyRule(c.udp, ports[i])];
        changed := true;
      }
    }
    assert ports[..|ports|] == ports;
  }

  /** A client is let in to every port whose allow rule was missing, nobody else is let in by
      the new rules, and packets the chain left undecided are dropped on every port whose deny
      rule was missing. Everything else is decided as before. */
  lemma {:induction false} RestrictedDecides(listed: seq<Rule>, chain: seq<Rule>, c: Scope, ports: seq<int>, p: Packet)
    ensures var before, after := Decide(chain, p), Decide(Restricted(listed, chain, c, ports), p);
      var mine := p.udp == c.udp && p.port in ports;
      after == if mine && c.clients in p.nets && !Allowed(listed, c, p.port) then Some(Accept)
               else if before.None? && mine && !Denied(listed, c, p.port) then Some(Drop)
               else before
  {
    if ports != [] {
      var n := |ports| - 1;
      var front, port := ports[..n], ports[n];
      RestrictedDecides(listed, chain, c, front, p);
      InFrontOrLast(ports, p.port);
      CoveredDecides(listed, Restricted(listed, chain, c, front), c, port, p);
      hide Decide, Allowed, Denied, Covered;
    }
  }

  lemma InFrontOrLast(ports: seq<int>, x: int)
    requires ports != []
    ensures x in ports <==> x in ports[..|ports| - 1] || x == ports[|ports| - 1]
  {
    assert ports == ports[..|ports| - 1] + [ports[|ports| - 1]];
  }

  lemma CoveredDecides(listed: seq<Rule>, chain: seq<Rule>, c: Scope, port: int, p: Packet)
    ensures var before, after := Decide(chain, p), Decide(Covered(listed, chain, c, port), p);
      var mine := p.udp == c.udp && p.port == port;
      after == if mine && c.clients in p.nets && !Allowed(listed, c, port) then Some(Accept)
               else if before.None? && mine && !Denied(listed, c, port) then Some(Drop)
               else before
  {
    hide Decide, Allowed, Denied, AllowComment, DenyComment;
    var allow, deny := AllowRule(c.udp, port, c.clients), DenyRule(c.udp, port);
    DecideOne(allow, p);
    DecideOne(deny, p);
    DecideConcat([allow], chain, p);
    DecideConcat(chain, [deny], p);
    DecideConcat([allow] + chain, [deny], p);
  }

  lemma DecideOne(r: Rule, p: Packet)
    ensures Decide([r], p) == if Matches(r, p) then Some(r.verdict) else None
  {
    assert [r][1..] == [];
  }

  /** Rules that were there stay there. */
  lemma {:induction false} RestrictedKeeps(listed: seq<Rule>, chain: seq<Rule>, c: Scope, ports: seq<int>)
    ensures forall r :: r in chain ==> r in Restricted(listed, chain, c, ports)
  {
    hide Allowed, Denied, AllowRule, DenyRule;
    if ports != [] {
      RestrictedKeeps(listed, chain, c, ports[..|ports| - 1]);
    }
  }

  /** Every missing rule has been added. */
  lemma {:induction false} RestrictedAdds(listed: seq<Rule>, chain: seq<Rule>, c: Scope, ports: seq<int>, k: nat)
    requires k < |ports|
    ensures Allowed(listed, c, ports[k]) || AllowRule(c.udp, ports[k], c.clients) in Restricted(listed, chain, c, ports)
    ensures Denied(listed, c, ports[k]) || DenyRule(c.udp, ports[k]) in Restricted(listed, chain, c, ports)
  {
    hide Allowed, Denied, AllowRule, DenyRule;
    if k < |ports| - 1 {
      RestrictedAdds(listed, chain, c, ports[..|ports| - 1], k);
    }
  }

  /** With every port covered the loop adds nothing. */
  lemma {:induction false} NothingToAdd(listed: seq<Rule>, chain: seq<Rule>, c: Scope, ports: seq<int>)
    requires forall k | 0 <= k < |ports| :: Allowed(listed, c, ports[k]) && Denied(listed, c, ports[k])
    ensures Restricted(listed, chain, c, ports) == chain
  {
    hide Allowed, Denied;
    if ports != [] {
      NothingToAdd(listed, chain, c, ports[..|ports| - 1]);
    }
  }

  /** Both loops of `EnsureIngressRestrictions`, over one listing of the chain; the first TCP port
      as configured is also covered by the rules for the panel. */
  function Ingress(listed: seq<Rule>, clients: string, first: int, tcp: seq<int>, udp: seq<int>): seq<Rule> {
    Restricted(listed, Restricted(listed, listed, Scope(clients, false, first), tcp), Scope(clients, true, 0), udp)
  }

  /** `EnsureIngressRestrictions`, when no command fails. */
  method EnsureIngress(listed: seq<Rule>, clients: string, tcpPorts: seq<int>, udpPorts: seq<int>)
      returns (after: seq<Rule>, changed: bool, ghost tcp: seq<int>, ghost udp: seq<int>)
    ensures Ascending(tcp) && forall x :: x in tcp <==> IsPort(x) && x in tcpPorts
    ensures Ascending(udp) && forall x :: x in udp <==> IsPort(x) && x in udpPorts
    ensures after == Ingress(listed, clients, FirstPort(tcpPorts), tcp, udp)
    ensures !changed ==> after == listed
  {
    var t := CleanPorts(tcpPorts);
    var u := CleanPorts(udpPorts);
    tcp, udp := t, u;
    var middle, tcpChanged := RestrictPorts(listed, listed, Scope(clients, false, FirstPort(tcpPorts)), t);
    var udpChanged;
    after, udpChanged := RestrictPorts(listed, middle, Scope(clients, true, 0), u);
    changed := tcpChanged || udpChanged;
  }

  /** What both loops make of a packet: a client is let in where its allow rule was missing, an
      undecided packet is dropped where its deny rule was missing. */
  lemma IngressDecides(listed: seq<Rule>, clients: string, first: int, tcp: seq<int>, udp: seq<int>, p: Packet)
    ensures var before, after := Decide(listed, p), Decide(Ingress(listed, clients, first, tcp, udp), p);
      var c := Scope(clients, p.udp, if p.udp then 0 else first);
      var mine := p.port in if p.udp then udp else tcp;
      after == if mine && clients in p.nets && !Allowed(listed, c, p.port) then Some(Accept)
               else if before.None? && mine && !Denied(listed, c, p.port) then Some(Drop)
               else before
  {
    hide Restricted, Decide, Allowed, Denied;
    RestrictedDecides(listed, listed, Scope(clients, false, first), tcp, p);
    var middle := Restricted(listed, listed, Scope(clients, false, first), tcp);
    RestrictedDecides(listed, middle, Scope(clients, true, 0), udp, p);
  }

  /** Running it again on its own result changes nothing. */
  lemma IngressTwice(chain: seq<Rule>, clients: string, first: int, tcp: seq<int>, udp: seq<int>)
    ensures var once := Ingress(chain, clients, first, tcp, udp);
      Ingress(once, clients, first, tcp, udp) == once
  {
    hide Restricted, Allowed, Denied;
    var t, u := Scope(clients, false, first), Scope(clients, true, 0);
    var middle := Restricted(chain, chain, t, tcp);
    var once := Restricted(chain, middle, u, udp);
    RestrictedKeeps(chain, chain, t, tcp);
    RestrictedKeeps(chain, middle, u, udp);
    AllCovered(chain, chain, once, t, tcp);
    AllCovered(chain, middle, once, u, udp);
    NothingToAdd(once, once, t, tcp);
    NothingToAdd(once, once, u, udp);
  }

  lemma AllCovered(listed: seq<Rule>, chain: seq<Rule>, once: seq<Rule>, c: Scope, ports: seq<int>)
    requires forall r :: r in listed ==> r in once
    requires forall r :: r in Restricted(listed, chain, c, ports) ==> r in once
    ensures forall k | 0 <= k < |ports| :: Allowed(once, c, ports[k]) && Denied(once, c, ports[k])
  {
    hide Restricted, Allowed, Denied;
    forall k | 0 <= k < |ports|
      ensures Allowed(once, c, ports[k]) && Denied(once, c, ports[k])
    {
      RestrictedAdds(listed, chain, c, ports, k);
      CoveredNow(listed, once, c, ports[k]);
    }
  }

  lemma CoveredNow(chain: seq<Rule>, once: seq<Rule>, c: Scope, port: int)
    requires forall r :: r in chain ==> r in once
    requires Allowed(chain, c, port) || AllowRule(c.udp, port, c.clients) in once
    requires Denied(chain, c, port) || DenyRule(c.udp, port) in once
    ensures Allowed(once, c, port) && Denied(once, c, port)
  {
    hide AllowComment, DenyComment;
  }

  // ---------- QUIC takeover ----------

  /** A QUIC packet of a client. */
  predicate IsClientQuic(p: Packet, clients: string) {
    p.udp && p.port == 443 && clients in p.nets
  }

  function QuicAccept(clients: string): Rule {
    Rule(QUIC_COMMENT, Some(clients), true, {443}, Accept, None)
  }

  predicate IsQuicAccept(r: Rule) {
    r.comment == QUIC_COMMENT && r.verdict == Accept
  }

  predicate HasQuicAccept(chain: seq<Rule>) {
    exists r :: r in chain && IsQuicAccept(r)
  }

  /** The handles of the rejecting rules, in chain order. */
  function RejectHandles(chain: seq<Rule>): seq<nat> {
    if chain == [] then []
    else
      var last := chain[|chain| - 1];
      RejectHandles(chain[..|chain| - 1])
      + if last.comment == QUIC_REJECT && last.handle.Some? then [last.handle.value] else []
  }

  /** Which rules the takeover looks for: an accept with its own comment, and the rejects of the
      installer, which it knows by their handles. */
  lemma {:induction false} QuicRulesMeaning(chain: seq<Rule>, h: nat)
    ensures HasQuicAccept(chain) <==> exists r :: r in chain && r.comment == "5gpn-quic-takeover" && r.verdict == Accept
    ensures h in RejectHandles(chain) <==>
      exists r :: r in chain && r.comment == "5gpn-dns-quic" && r.handle == Some(h)
  {
    if chain != [] {
      var front, last := chain[..|chain| - 1], chain[|chain| - 1];
      QuicRulesMeaning(front, h);
      assert chain == front + [last];
    }
  }

  predicate HandleIn(r: Rule, handles: seq<nat>) {
    r.handle.Some? && r.handle.value in handles
  }

  /** The chain after the rules with these handles have been deleted. */
  function Without(chain: seq<Rule>, handles: seq<nat>): seq<Rule> {
    if chain == [] then []
    else
      var last := chain[|chain| - 1];
      Without(chain[..|chain| - 1], handles) + if HandleIn(last, handles) then [] else [last]
  }

  lemma {:induction false} WithoutNone(chain: seq<Rule>)
    ensures Without(chain, []) == chain
  {
    if chain != [] {
      WithoutNone(chain[..|chain| - 1]);
    }
  }

  lemma WithoutLast(chain: seq<Rule>, last: Rule, handles: seq<nat>)
    ensures HandleIn(last, handles) ==> Without(chain + [last], handles) == Without(chain, handles)
    ensures !HandleIn(last, handles) ==> Without(chain + [last], handles) == Without(chain, handles) + [last]
  {
    assert (chain + [last])[..|chain|] == chain;
    assert Without(chain, handles) + [] == Without(chain, handles);
  }

  lemma {:induction false} WithoutMore(chain: seq<Rule>, handles: seq<nat>, h: nat)
    ensures Without(Without(chain, handles), [h]) == Without(chain, handles + [h])
  {
    if chain != [] {
      var front, last := chain[..|chain| - 1], chain[|chain| - 1];
      WithoutMore(front, handles, h);
      assert HandleIn(last, handles + [h]) <==> HandleIn(last, handles) || HandleIn(last, [h]);
      assert chain == front + [last];
      hide Without, HandleIn;
      WithoutLast(front, last, handles);
      WithoutLast(front, last, handles + [h]);
      WithoutLast(Without(front, handles), last, [h]);
    }
  }

  /** `EnsureQUICAccept`: the accept first, then the rejects one by one; any command may fail.
      `seen` are the chains a packet can meet on the way. */
  method EnsureQuicAccept(chain: seq<Rule>, clients: string, addFails: bool, deleteFails: nat -> bool)
      returns (after: seq<Rule>, ok: bool, ghost seen: seq<seq<Rule>>)
    ensures seen != [] && after == seen[|seen| - 1] && AllOnTheWay(chain, clients, seen)
    ensures ok ==> after == Without(Accepting(chain, clients), RejectHandles(chain))
    ensures !addFails && (forall h: nat :: !deleteFails(h)) ==> ok
  {
    hide Without, RejectHandles, QuicAccept, OnTheWay, AllOnTheWay;
    StartOfTheWay(chain, clients);
    if !HasQuicAccept(chain) && addFails {
      return chain, false, [chain];
    }
    var accepting := if HasQuicAccept(chain) then chain else [QuicAccept(clients)] + chain;
    ghost var later;
    after, ok, later := DeleteRules(accepting, RejectHandles(chain), deleteFails);
    RestOfTheWay(chain, clients, later);
    seen := [chain] + later;
  }

  ghost predicate AllOnTheWay(chain: seq<Rule>, clients: string, seen: seq<seq<Rule>>) {
    forall i | 0 <= i < |seen| :: OnTheWay(chain, clients, seen[i])
  }

  lemma StartOfTheWay(chain: seq<Rule>, clients: string)
    ensures AllOnTheWay(chain, clients, [chain])
  {
  }

  lemma RestOfTheWay(chain: seq<Rule>, clients: string, later: seq<seq<Rule>>)
    requires forall i | 0 <= i < |later| :: PartlyDeleted(Accepting(chain, clients), RejectHandles(chain), later[i])
    ensures AllOnTheWay(chain, clients, [chain] + later)
  {
    hide Without, RejectHandles, Accepting;
  }

  ghost predicate PartlyDeleted(chain: seq<Rule>, handles: seq<nat>, c: seq<Rule>) {
    exists n: nat :: n <= |handles| && c == Without(chain, handles[..n])
  }

  lemma StillPartly(chain: seq<Rule>, handles: seq<nat>, n: nat)
    requires n <= |handles|
    ensures PartlyDeleted(chain, handles, Without(chain, handles[..n]))
  {
  }

  /** Rules deleted one handle at a time, until a command fails. */
  method DeleteRules(chain: seq<Rule>, handles: seq<nat>, deleteFails: nat -> bool)
      returns (after: seq<Rule>, ok: bool, ghost seen: seq<seq<Rule>>)
    ensures seen != [] && after == seen[|seen| - 1]
    ensures forall i | 0 <= i < |seen| :: PartlyDeleted(chain, handles, seen[i])
    ensures ok ==> after == Without(chain, handles)
    ensures !ok ==> exists h: nat :: deleteFails(h)
  {
    WithoutNone(chain);
    assert handles[..0] == [];
    assert PartlyDeleted(chain, handles, chain);
    hide Without, PartlyDeleted;
    after, seen := chain, [chain];
    for i := 0 to |handles|
      invariant after == Without(chain, handles[..i])
      invariant seen != [] && after == seen[|seen| - 1]
      invariant forall j | 0 <= j < |seen| :: PartlyDeleted(chain, handles, seen[j])
    {
      if deleteFails(handles[i]) {
        return after, false, seen;
      }
      WithoutMore(chain, handles[..i], handles[i]);
      assert handles[..i + 1] == handles[..i] + [handles[i]];
      after := Without(after, [handles[i]]);
      StillPartly(chain, handles, i + 1);
      seen := seen + [after];
    }
    assert handles[..|handles|] == handles;
    return after, true, seen;
  }

  /** The chain once the accept is in place. */
  function Accepting(chain: seq<Rule>, clients: string): seq<Rule> {
    if HasQuicAccept(chain) then chain else [QuicAccept(clients)] + chain
  }

  /** The listed chain, or the accepting one with some of the rejects already gone. */
  ghost predicate OnTheWay(chain: seq<Rule>, clients: string, c: seq<Rule>) {
    || c == chain
    || PartlyDeleted(Accepting(chain, clients), RejectHandles(chain), c)
  }

  /** Handles are unique, so deleting the rejects deletes no accept. */
  ghost predicate UniqueHandles(chain: seq<Rule>) {
    forall i, j | 0 <= i < |chain| && 0 <= j < |chain| && chain[i].handle.Some? && chain[i].handle == chain[j].handle ::
      i == j
  }

  lemma {:induction false} HandlesAreRejects(chain: seq<Rule>, h: nat) returns (i: nat)
    requires h in RejectHandles(chain)
    ensures i < |chain| && chain[i].comment == QUIC_REJECT && chain[i].handle == Some(h)
  {
    var last := chain[|chain| - 1];
    if last.comment == QUIC_REJECT && last.handle == Some(h) {
      i := |chain| - 1;
    } else {
      i := HandlesAreRejects(chain[..|chain| - 1], h);
    }
  }

  /** A rule that `EnsureQuicAccept` deletes. */
  predicate IsQuicReject(r: Rule) {
    r.comment == QUIC_REJECT && r.handle.Some?
  }

  /** The rules with that comment are what their name says. */
  predicate RejectsReject(chain: seq<Rule>) {
    forall r :: r in chain && IsQuicReject(r) ==> r.verdict == Reject
  }

  /** The verdict of the first matching rule that is not one of the deleted rejects. */
  function DecideKept(chain: seq<Rule>, p: Packet): Option<Verdict> {
    if chain == [] then None
    else if Matches(chain[0], p) && !IsQuicReject(chain[0]) then Some(chain[0].verdict)
    else DecideKept(chain[1..], p)
  }

  /** Accepted, or refused with an answer. */
  predicate Answered(v: Option<Verdict>) {
    v == Some(Accept) || v == Some(Reject)
  }

  /** Deleting by handle deletes rejects only. */
  lemma OnlyRejectsGo(chain: seq<Rule>, r: Rule, n: nat)
    requires UniqueHandles(chain) && r in chain && n <= |RejectHandles(chain)|
    ensures HandleIn(r, RejectHandles(chain)[..n]) ==> IsQuicReject(r)
  {
    hide RejectHandles;
    var handles := RejectHandles(chain);
    if HandleIn(r, handles[..n]) {
      var i := HandlesAreRejects(chain, r.handle.value);
      var j :| 0 <= j < |chain| && chain[j] == r;
    }
  }

  lemma {:induction false} RejectsListed(chain: seq<Rule>, r: Rule)
    requires r in chain && IsQuicReject(r)
    ensures HandleIn(r, RejectHandles(chain))
  {
    var front, last := chain[..|chain| - 1], chain[|chain| - 1];
    assert chain == front + [last];
    if r != last {
      RejectsListed(front, r);
    }
  }

  lemma EmptyWithout(handles: seq<nat>)
    ensures Without([], handles) == []
  {
  }

  lemma {:induction false} WithoutFirst(first: Rule, rest: seq<Rule>, handles: seq<nat>)
    ensures Without([first] + rest, handles)
          == (if HandleIn(first, handles) then [] else [first]) + Without(rest, handles)
  {
    hide HandleIn, Without;
    EmptyWithout(handles);
    if rest == [] {
      WithoutLast([], first, handles);
      assert [] + [first] == [first] == [first] + rest;
    } else {
      var front, last := rest[..|rest| - 1], rest[|rest| - 1];
      assert rest == front + [last] && [first] + rest == ([first] + front) + [last];
      WithoutFirst(first, front, handles);
      WithoutLast(front, last, handles);
      WithoutLast([first] + front, last, handles);
    }
  }

  /** With some of the rejects gone, the packet meets a reject or the first rule that is kept. */
  lemma {:induction false} StageDecides(chain: seq<Rule>, handles: seq<nat>, p: Packet)
    requires forall r :: r in chain && HandleIn(r, handles) ==> IsQuicReject(r)
    requires RejectsReject(chain)
    ensures var d := Decide(Without(chain, handles), p);
      && (d == Some(Reject) || d == DecideKept(chain, p))
      && ((forall r :: r in chain && IsQuicReject(r) ==> HandleIn(r, handles)) ==> d == DecideKept(chain, p))
  {
    hide HandleIn, IsQuicReject, Matches, Without;
    if chain == [] {
      EmptyWithout(handles);
    } else {
      var first, rest := chain[0], chain[1..];
      assert chain == [first] + rest;
      StageDecides(rest, handles, p);
      WithoutFirst(first, rest, handles);
      var after := Without(rest, handles);
      assert [] + after == after && ([first] + after)[1..] == after;
    }
  }

  /** With an accept already listed, the stages of the deletion are decided one way or another by
      rejects that are left and by the first rule that is kept, and in the end by that one. */
  lemma StagesDecide(chain: seq<Rule>, p: Packet, n: nat)
    requires UniqueHandles(chain) && RejectsReject(chain) && n <= |RejectHandles(chain)|
    ensures var d := Decide(Without(chain, RejectHandles(chain)[..n]), p);
      && (d == Some(Reject) || d == DecideKept(chain, p))
      && (n == |RejectHandles(chain)| ==> d == DecideKept(chain, p))
  {
    hide RejectHandles, HandleIn, IsQuicReject, Decide, Without, DecideKept;
    var handles := RejectHandles(chain)[..n];
    assert n == |RejectHandles(chain)| ==> handles == RejectHandles(chain);
    forall r | r in chain
      ensures HandleIn(r, handles) ==> IsQuicReject(r)
      ensures n == |RejectHandles(chain)| && IsQuicReject(r) ==> HandleIn(r, handles)
    {
      OnlyRejectsGo(chain, r, n);
      if IsQuicReject(r) {
        RejectsListed(chain, r);
      }
    }
    StageDecides(chain, handles, p);
  }

  /** Without an accept listed, client QUIC is accepted from the moment one is inserted. */
  lemma InsertedDecides(chain: seq<Rule>, clients: string, handles: seq<nat>, p: Packet)
    requires IsClientQuic(p, clients) && !HasQuicAccept(chain)
    ensures Decide(Without(Accepting(chain, clients), handles), p) == Some(Accept)
  {
    WithoutFirst(QuicAccept(clients), chain, handles);
  }

  /** Never neither accept nor reject: in every chain a packet can meet client QUIC is accepted or
      refused with an answer, if and only if it is so in the listed chain and either no accept is
      listed or the first matching rule that is not a deleted reject accepts or refuses it. */
  lemma NoGapIff(chain: seq<Rule>, clients: string, p: Packet)
    requires UniqueHandles(chain) && RejectsReject(chain) && IsClientQuic(p, clients)
    ensures (forall c :: OnTheWay(chain, clients, c) ==> Answered(Decide(c, p)))
            <==> Answered(Decide(chain, p)) && (!HasQuicAccept(chain) || Answered(DecideKept(chain, p)))
  {
    hide *;
    var handles, accepting := RejectHandles(chain), Accepting(chain, clients);
    var last := Without(accepting, handles[..|handles|]);
    Stage(chain, clients, p, last, |handles|);
    OnceOnTheWay(chain, clients, |handles|);
    forall c | OnTheWay(chain, clients, c)
      ensures c == chain || Answered(Decide(c, p)) || !(!HasQuicAccept(chain) || Answered(DecideKept(chain, p)))
    {
      if c != chain {
        var n := StageOf(chain, clients, c);
        Stage(chain, clients, p, c, n);
      }
    }
    assert OnTheWay(chain, clients, chain) && OnTheWay(chain, clients, last);
  }

  lemma Stage(chain: seq<Rule>, clients: string, p: Packet, c: seq<Rule>, n: nat)
    requires UniqueHandles(chain) && RejectsReject(chain) && IsClientQuic(p, clients)
    requires n <= |RejectHandles(chain)| && c == Without(Accepting(chain, clients), RejectHandles(chain)[..n])
    ensures !HasQuicAccept(chain) || Answered(DecideKept(chain, p)) ==> Answered(Decide(c, p))
    ensures n == |RejectHandles(chain)| && HasQuicAccept(chain) ==> Decide(c, p) == DecideKept(chain, p)
  {
    hide RejectHandles, Decide, Without, DecideKept, RejectsReject, IsClientQuic, UniqueHandles;
    if HasQuicAccept(chain) {
      StagesDecide(chain, p, n);
    } else {
      InsertedDecides(chain, clients, RejectHandles(chain)[..n], p);
    }
  }

  lemma StageOf(chain: seq<Rule>, clients: string, c: seq<Rule>) returns (n: nat)
    requires OnTheWay(chain, clients, c) && c != chain
    ensures n <= |RejectHandles(chain)| && c == Without(Accepting(chain, clients), RejectHandles(chain)[..n])
  {
    hide RejectHandles, Without;
    n :| n <= |RejectHandles(chain)| && c == Without(Accepting(chain, clients), RejectHandles(chain)[..n]);
  }

  lemma OnceOnTheWay(chain: seq<Rule>, clients: string, n: nat)
    requires n <= |RejectHandles(chain)|
    ensures OnTheWay(chain, clients, chain)
    ensures OnTheWay(chain, clients, Without(Accepting(chain, clients), RejectHandles(chain)[..n]))
  {
    hide RejectHandles, Without;
    StillPartly(Accepting(chain, clients), RejectHandles(chain), n);
  }

  /** A newly added accept decides at once, in front of everything else. */
  lemma {:induction false} AcceptedAtOnce(chain: seq<Rule>, clients: string, p: Packet)
    requires IsClientQuic(p, clients) && !HasQuicAccept(chain)
    ensures Decide(Accepting(chain, clients), p) == Some(Accept)
  {
  }

  /** An accept left over from another client network stops the new one from being added: the
      reject goes and client QUIC is left to the policy. */
  lemma StaleAcceptLeavesGap(clients: string, other: string, p: Packet)
    requires IsClientQuic(p, clients) && other !in p.nets
    ensures var chain := [QuicAccept(other), Rule(QUIC_REJECT, Some(clients), true, {443}, Reject, Some(7))];
      && Decide(chain, p) == Some(Reject)
      && Decide(Without(Accepting(chain, clients), RejectHandles(chain)), p) == None
  {
    var stale, reject := QuicAccept(other), Rule(QUIC_REJECT, Some(clients), true, {443}, Reject, Some(7));
    assert |QUIC_COMMENT| != |QUIC_REJECT|;
    assert !Matches(stale, p) && Matches(reject, p);
    RejectDeleted(stale, reject, 7);
    assert stale in [stale, reject] && IsQuicAccept(stale);
    hide RejectHandles, Without, QuicAccept, Matches;
    assert [stale, reject][1..] == [reject] && [reject][1..] == [] && [stale][1..] == [];
  }

  /** A reject, the drop for the public and an accept behind it: once the reject is deleted client
      QUIC is dropped without an answer. */
  lemma DropLeavesGap(clients: string, p: Packet)
    requires IsClientQuic(p, clients)
    ensures var drop := Rule("5gpn-deny-public-udp", None, true, {443}, Drop, None);
      var chain := [Rule(QUIC_REJECT, Some(clients), true, {443}, Reject, Some(7)), drop, QuicAccept(clients)];
      && UniqueHandles(chain) && HasQuicAccept(chain) && Decide(chain, p) == Some(Reject)
      && Decide(Without(Accepting(chain, clients), RejectHandles(chain)), p) == Some(Drop)
  {
    var drop := Rule("5gpn-deny-public-udp", None, true, {443}, Drop, None);
    var reject := Rule(QUIC_REJECT, Some(clients), true, {443}, Reject, Some(7));
    var chain := [reject, drop, QuicAccept(clients)];
    assert chain[2] in chain && IsQuicAccept(chain[2]);
    assert drop.comment[5] == 'd' && drop.comment[6] == 'e' && QUIC_REJECT[6] == 'n';
    var handles := RejectHandles(chain);
    assert handles[..|handles|] == handles;
    StagesDecide(chain, p, |handles|);
    hide RejectHandles, Without, Matches;
    assert chain[1..][0] == drop;
  }

  lemma RejectDeleted(stale: Rule, reject: Rule, h: nat)
    requires stale.comment != QUIC_REJECT && stale.handle.None? && reject.comment == QUIC_REJECT
          && reject.handle == Some(h)
    ensures RejectHandles([stale, reject]) == [h] && Without([stale, reject], [h]) == [stale]
  {
    var chain := [stale, reject];
    assert chain[..1] == [stale] && [stale][..0] == [];
    assert RejectHandles([stale]) == [] && Without([stale], [h]) == [stale];
  }
}
