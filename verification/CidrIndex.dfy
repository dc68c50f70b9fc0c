/** The address rule set: sorted prefix lists searched by a binary search and a back-scan of
    64 entries, against the plain list of prefixes that were added. */
module CidrIndex {
  import opened Bytes
  import opened Common
  import opened Text

  // ---------- Addresses and prefixes ----------

  datatype Addr = V4(n: nat) | V6(n: nat, zone: string)

  /** `Unmap`: an IPv4-mapped IPv6 address becomes the IPv4 address it carries. */
  function Unmap(a: Addr): Addr {
    if a.V6? && 0xFFFF_0000_0000 <= a.n <= 0xFFFF_FFFF_FFFF then V4(a.n - 0xFFFF_0000_0000) else a
  }

  function Width(v4: bool): nat {
    if v4 then 32 else 128
  }

  datatype RawPrefix = Prefix(v4: bool, addr: nat, bits: nat)

  /** What `ParsePrefix` can return: the length fits the family. */
  type Prefix = p: RawPrefix | p.bits <= Width(p.v4) witness RawPrefix.Prefix(true, 0, 0)

  /** The number of addresses in a prefix. */
  function Size(p: Prefix): (r: nat)
    ensures r > 0
  {
    Pow2(Width(p.v4) - p.bits)
  }

  /** `Masked`: the bits past the prefix length are cleared. */
  function Masked(p: Prefix): Prefix {
    p.(addr := RoundDown(p.addr, Size(p)))
  }

  function RoundDown(x: nat, d: nat): nat
    requires d > 0
  {
    Product(x / d, d);
    x / d * d
  }

  /** `Contains`, for an address of the same family: the first `bits` bits agree. */
  predicate Contains(p: Prefix, x: nat) {
    x / Size(p) == p.addr / Size(p)
  }

  /** An entry of one of the two lists. */
  predicate IsEntry(p: Prefix, v4: bool) {
    p.v4 == v4 && p.addr % Size(p) == 0
  }

  predicate AllEntries(s: seq<Prefix>, v4: bool) {
    forall i | 0 <= i < |s| :: IsEntry(s[i], v4)
  }

  predicate Sorted(s: seq<Prefix>) {
    forall i, j | 0 <= i < j < |s| :: s[i].addr <= s[j].addr
  }

  /** `p` is a sub-block of `q`: at least as long, and it begins inside. */
  predicate Nested(p: Prefix, q: Prefix) {
    p.v4 == q.v4 && q.bits <= p.bits && Contains(q, p.addr)
  }

  /** The naive scan. */
  predicate Covered(s: seq<Prefix>, x: nat) {
    exists i | 0 <= i < |s| :: Contains(s[i], x)
  }

  // ---------- Blocks are nested or disjoint ----------

  lemma {:induction false} Pow2Split(a: nat, b: nat)
    ensures Pow2(a + b) == Pow2(a) * Pow2(b)
  {
    if a > 0 {
      Pow2Split(a - 1, b);
    }
  }

  /** A shorter prefix cannot tell apart addresses a longer one holds together. */
  lemma {:induction false} LongerAgrees(p: Prefix, q: Prefix, x: nat, y: nat)
    requires p.v4 == q.v4 && q.bits <= p.bits
    requires x / Size(p) == y / Size(p)
    ensures x / Size(q) == y / Size(q)
  {
    var a, c := Width(p.v4) - p.bits, p.bits - q.bits;
    Pow2Split(a, c);
    DivideTwice(x, Pow2(a), Pow2(c));
    DivideTwice(y, Pow2(a), Pow2(c));
  }

  /** Nesting is inclusion of the address sets. */
  lemma NestedIncludes(p: Prefix, q: Prefix, x: nat)
    requires Nested(p, q) && Contains(p, x)
    ensures Contains(q, x)
  {
    LongerAgrees(p, q, x, p.addr);
  }

  /** Two prefixes of one family that share an address are nested one way or the other. */
  lemma {:induction false} NestedOrDisjoint(p: Prefix, q: Prefix, x: nat)
    requires p.v4 == q.v4 && Contains(p, x) && Contains(q, x)
    ensures Nested(p, q) || Nested(q, p)
    ensures p.bits >= q.bits ==> Nested(p, q)
  {
    if p.bits >= q.bits {
      LongerAgrees(p, q, x, p.addr);
    } else {
      LongerAgrees(q, p, x, q.addr);
    }
  }

  lemma {:induction false} DivMonotone(x: nat, y: nat, d: nat)
    requires x <= y && d > 0
    ensures x / d <= y / d
  {
    assert (x / d - y / d) * d == x - y + y % d - x % d;
    AtLeastOne(x / d - y / d, d);
  }

  /** An entry starts at or before every address it holds, and holds what lies between. */
  lemma StartsBefore(p: Prefix, x: nat)
    requires IsEntry(p, p.v4) && Contains(p, x)
    ensures p.addr <= x
  {
    assert p.addr == p.addr / Size(p) * Size(p);
    assert x == x / Size(p) * Size(p) + x % Size(p);
  }

  /** The addresses of an entry form one range. */
  lemma {:induction false} EntryRange(p: Prefix, x: nat)
    requires IsEntry(p, p.v4)
    ensures Contains(p, x) <==> p.addr <= x < p.addr + Size(p)
  {
    hide Pow2;
    var d, k := Size(p), p.addr / Size(p);
    assert p.addr == k * d;
    if p.addr <= x < p.addr + d {
      QuotientIs(x, d, k, x - p.addr);
    }
    if Contains(p, x) {
      assert x == k * d + x % d;
    }
  }

  lemma MaskedFixed(p: Prefix)
    requires IsEntry(p, p.v4)
    ensures Masked(p) == p
  {
    hide Pow2;
  }

  lemma {:induction false} HoldsBetween(p: Prefix, y: nat, x: nat)
    requires Contains(p, x) && p.addr <= y <= x
    ensures Contains(p, y)
  {
    DivMonotone(p.addr, y, Size(p));
    DivMonotone(y, x, Size(p));
  }

  lemma {:induction false} MaskedIsEntry(p: Prefix, x: nat)
    ensures IsEntry(Masked(p), p.v4)
    ensures Contains(Masked(p), x) == Contains(p, x)
  {
    hide Pow2, RoundDown;
    RoundedIsMultiple(p.addr, Size(p));
    assert Size(Masked(p)) == Size(p);
    hide Size;
  }

  lemma {:induction false} RoundedIsMultiple(x: nat, d: nat)
    requires d > 0
    ensures RoundDown(x, d) % d == 0 && RoundDown(x, d) / d == x / d
  {
    MultipleOf(x / d, d);
  }

  lemma {:induction false} MultipleOf(q: nat, d: nat)
    requires d > 0
    ensures q * d % d == 0 && q * d / d == q
  {
    QuotientIs(q * d, d, q, 0);
    assert q * d == (q * d / d) * d + q * d % d;
  }

  // ---------- The search ----------

  /** The first index whose entry starts after `x`. */
  ghost predicate IsBound(list: seq<Prefix>, x: nat, i: nat) {
    && i <= |list|
    && (forall k | 0 <= k < i :: list[k].addr <= x)
    && (forall k | i <= k < |list| :: list[k].addr > x)
  }

  const WINDOW := 64

  /** Some entry among the last 64 that start at or before `x` holds it. */
  ghost predicate InWindow(list: seq<Prefix>, x: nat) {
    exists i: nat, j: nat :: IsBound(list, x, i) && Holds(list, j, x) && j < i <= j + WINDOW
  }

  ghost predicate Holds(list: seq<Prefix>, j: nat, x: nat) {
    j < |list| && Contains(list[j], x)
  }

  /** Some entry after the `j`-th holds `x`. */
  ghost predicate HeldLater(list: seq<Prefix>, j: nat, x: nat) {
    exists k: nat :: j < k && Holds(list, k, x)
  }

  /** `Match` on one list: binary search, then the bounded back-scan. No prefix contains an
      address with a zone. */
  method Lookup(list: seq<Prefix>, x: nat, zoned: bool) returns (r: bool)
    requires Sorted(list)
    ensures r == (!zoned && InWindow(list, x))
  {
    hide Contains;
    if |list| == 0 {
      return false;
    }
    var i := Search(list, x);
    var j := i - 1;
    while j >= 0 && j >= i - WINDOW
      invariant -1 <= j < i && j >= i - WINDOW - 1
      invariant forall k | j < k < i :: zoned || !Contains(list[k], x)
    {
      if !zoned && Contains(list[j], x) {
        assert Holds(list, j, x);
        return true;
      }
      j := j - 1;
    }
    BoundUnique(list, x, i);
    return false;
  }

  /** `sort.Search`, with the predicate "the entry starts after `x`". */
  method Search(list: seq<Prefix>, x: nat) returns (i: nat)
    requires Sorted(list)
    ensures IsBound(list, x, i)
  {
    i := 0;
    var j := |list|;
    while i < j
      invariant 0 <= i <= j <= |list|
      invariant forall k | 0 <= k < i :: list[k].addr <= x
      invariant forall k | j <= k < |list| :: list[k].addr > x
    {
      var h := (i + j) / 2;
      if list[h].addr <= x {
        i := h + 1;
      } else {
        j := h;
      }
    }
  }

  lemma BoundsOrdered(list: seq<Prefix>, x: nat, i: nat, k: nat)
    requires IsBound(list, x, i) && IsBound(list, x, k)
    ensures i <= k
  {
    if k < |list| {
      var start := list[k].addr;
      assert start > x;
    }
  }

  lemma BoundUnique(list: seq<Prefix>, x: nat, i: nat)
    requires IsBound(list, x, i)
    ensures forall k: nat | IsBound(list, x, k) :: k == i
  {
    forall k: nat | IsBound(list, x, k)
      ensures k == i
    {
      BoundsOrdered(list, x, i, k);
      BoundsOrdered(list, x, k, i);
    }
  }

  lemma BoundExists(list: seq<Prefix>, x: nat) returns (i: nat)
    requires Sorted(list)
    ensures IsBound(list, x, i)
  {
    i := 0;
    while i < |list| && list[i].addr <= x
      invariant 0 <= i <= |list|
      invariant forall k | 0 <= k < i :: list[k].addr <= x
    {
      i := i + 1;
    }
  }

  /** The search never accepts an address outside every listed prefix. */
  lemma {:induction false} WindowSound(list: seq<Prefix>, x: nat)
    ensures InWindow(list, x) ==> Covered(list, x)
  {
    if !InWindow(list, x) {
      return;
    }
    var i: nat, j: nat :| IsBound(list, x, i) && Holds(list, j, x) && j < i <= j + WINDOW;
    assert Contains(list[j], x);
  }

  lemma {:induction false} LastHolding(list: seq<Prefix>, x: nat, n: nat) returns (j: nat)
    requires n <= |list| && exists k: nat :: k < n && Holds(list, k, x)
    ensures j < n && Holds(list, j, x) && forall k: nat | j < k < n :: !Holds(list, k, x)
  {
    if Holds(list, n - 1, x) {
      j := n - 1;
    } else {
      j := LastHolding(list, x, n - 1);
    }
  }

  /** Entry `j` is the last to hold `x`, and 64 later entries start at or before `x`. */
  ghost predicate MissedAt(list: seq<Prefix>, j: nat, x: nat) {
    && Holds(list, j, x) && !HeldLater(list, j, x)
    && j + WINDOW < |list| && list[j + WINDOW].addr <= x
  }

  /** Whether one covered address is missed: exactly when 64 further entries start between
      the last entry that holds it and the address. */
  lemma MissedIff(list: seq<Prefix>, v4: bool, x: nat)
    requires Sorted(list) && AllEntries(list, v4)
    ensures Covered(list, x) && !InWindow(list, x)
      <==> exists j: nat :: MissedAt(list, j, x)
  {
    if Covered(list, x) && !InWindow(list, x) {
      var j := LastReach(list, v4, x);
      assert MissedAt(list, j, x);
    }
    forall j: nat | MissedAt(list, j, x)
      ensures Covered(list, x) && !InWindow(list, x)
    {
      OutOfReach(list, j, x);
    }
  }

  lemma LastReach(list: seq<Prefix>, v4: bool, x: nat) returns (j: nat)
    requires Sorted(list) && AllEntries(list, v4) && Covered(list, x) && !InWindow(list, x)
    ensures MissedAt(list, j, x)
  {
    hide Contains;
    var i := BoundExists(list, x);
    var k :| 0 <= k < |list| && Contains(list[k], x);
    assert Holds(list, k, x);
    j := LastHolding(list, x, |list|);
    StartsBefore(list[j], x);
    assert j < i;
    assert j + WINDOW < i;
    assert list[j + WINDOW].addr <= x;
  }

  lemma OutOfReach(list: seq<Prefix>, j: nat, x: nat)
    requires MissedAt(list, j, x)
    ensures Covered(list, x) && !InWindow(list, x)
  {
    hide Contains;
    assert Contains(list[j], x);
    forall i: nat, k: nat | IsBound(list, x, i) && Holds(list, k, x)
      ensures !(k < i <= k + WINDOW)
    {
      assert k <= j;
      var far := list[j + WINDOW];
      assert j + WINDOW < i;
    }
  }

  /** The region of entry `j` beyond the start of entry `j + 64` must be held by later entries. */
  ghost predicate TailHeldLater(list: seq<Prefix>, j: nat) {
    j + WINDOW < |list| ==>
      forall x: nat | list[j + WINDOW].addr <= x && Holds(list, j, x) :: HeldLater(list, j, x)
  }

  /** The search agrees with the naive scan on every address exactly when no entry reaches,
      unaided by later entries, past the start of the entry 64 places on. */
  lemma AgreesIff(list: seq<Prefix>, v4: bool)
    requires Sorted(list) && AllEntries(list, v4)
    ensures (forall x: nat :: InWindow(list, x) <==> Covered(list, x))
       <==> forall j: nat | j < |list| :: TailHeldLater(list, j)
  {
    hide InWindow, Covered, TailHeldLater;
    if forall j: nat | j < |list| :: TailHeldLater(list, j) {
      forall x: nat
        ensures InWindow(list, x) <==> Covered(list, x)
      {
        MissedIff(list, v4, x);
        WindowSound(list, x);
        if exists j: nat :: MissedAt(list, j, x) {
          var j: nat :| MissedAt(list, j, x);
          TailIff(list, j);
        }
      }
    } else {
      var j: nat :| j < |list| && !TailHeldLater(list, j);
      TailIff(list, j);
      var x: nat :| MissedAt(list, j, x);
      MissedIff(list, v4, x);
    }
  }

  lemma TailIff(list: seq<Prefix>, j: nat)
    ensures TailHeldLater(list, j) <==> forall x: nat :: !MissedAt(list, j, x)
  {
    hide HeldLater, Holds;
    if j + WINDOW < |list| && exists x: nat ::
        list[j + WINDOW].addr <= x && Holds(list, j, x) && !HeldLater(list, j, x) {
      var x: nat :| list[j + WINDOW].addr <= x && Holds(list, j, x) && !HeldLater(list, j, x);
      assert MissedAt(list, j, x);
    }
  }

  // ---------- A condition on the rules alone ----------

  /** How many of the listed prefixes are sub-blocks of `q`, `q` itself included if listed. */
  function CountNested(s: seq<Prefix>, q: Prefix): nat {
    if s == [] then 0 else (if Nested(s[0], q) then 1 else 0) + CountNested(s[1..], q)
  }

  /** No listed prefix has more than 63 other listed prefixes nested inside it. */
  predicate ShallowNesting(s: seq<Prefix>) {
    forall q | q in s :: CountNested(s, q) <= WINDOW
  }

  lemma {:induction false} CountConcat(s: seq<Prefix>, t: seq<Prefix>, q: Prefix)
    ensures CountNested(s + t, q) == CountNested(s, q) + CountNested(t, q)
  {
    if s == [] {
      assert s + t == t;
    } else {
      assert (s + t)[1..] == s[1..] + t;
      CountConcat(s[1..], t, q);
    }
  }

  lemma {:induction false} CountAll(s: seq<Prefix>, q: Prefix)
    requires forall i | 0 <= i < |s| :: Nested(s[i], q)
    ensures CountNested(s, q) == |s|
  {
    if s != [] {
      CountAll(s[1..], q);
    }
  }

  /** The count does not depend on the order of the list. */
  lemma {:induction false} CountPermuted(s: seq<Prefix>, t: seq<Prefix>, q: Prefix)
    requires multiset(s) == multiset(t)
    ensures CountNested(s, q) == CountNested(t, q)
  {
    if s == [] {
      assert |multiset(t)| == 0;
    } else {
      var p := s[0];
      assert p in multiset(t);
      var i :| 0 <= i < |t| && t[i] == p;
      var a, b := t[..i], t[i + 1..];
      RemoveFirst(s, t, i);
      assert t == a + ([p] + b);
      CountPermuted(s[1..], a + b, q);
      CountConcat(a, b, q);
      CountConcat(a, [p] + b, q);
      assert ([p] + b)[1..] == b;
    }
  }

  lemma RemoveFirst(s: seq<Prefix>, t: seq<Prefix>, i: nat)
    requires multiset(s) == multiset(t) && s != [] && i < |t| && t[i] == s[0]
    ensures multiset(s[1..]) == multiset(t[..i] + t[i + 1..])
  {
    assert s == [s[0]] + s[1..];
    assert t == t[..i] + [t[i]] + t[i + 1..];
    assert multiset(s[1..]) == multiset(s) - multiset{s[0]};
    assert multiset(t[..i] + t[i + 1..]) == multiset(t) - multiset{t[i]};
  }

  lemma ShallowPermuted(s: seq<Prefix>, t: seq<Prefix>)
    requires multiset(s) == multiset(t) && ShallowNesting(s)
    ensures ShallowNesting(t)
  {
    forall q | q in t
      ensures CountNested(t, q) <= WINDOW
    {
      assert q in multiset(s);
      CountPermuted(s, t, q);
    }
  }

  lemma CoveredPermuted(s: seq<Prefix>, t: seq<Prefix>, x: nat)
    requires multiset(s) == multiset(t)
    ensures Covered(s, x) == Covered(t, x)
  {
    if Covered(s, x) {
      var i :| 0 <= i < |s| && Contains(s[i], x);
      assert s[i] in multiset(t);
    }
    if Covered(t, x) {
      var i :| 0 <= i < |t| && Contains(t[i], x);
      assert t[i] in multiset(s);
    }
  }

  /** Entries that start between the last holder of `x` and `x` lie inside that holder. */
  lemma BetweenIsNested(list: seq<Prefix>, v4: bool, x: nat, j: nat, k: nat)
    requires Sorted(list) && AllEntries(list, v4)
    requires Holds(list, j, x) && !HeldLater(list, j, x) && j <= k < |list| && list[k].addr <= x
    ensures Nested(list[k], list[j])
  {
    if k > j {
      HoldsBetween(list[j], list[k].addr, x);
      NestedOrDisjoint(list[k], list[j], list[k].addr);
      if Nested(list[j], list[k]) {
        NestedIncludes(list[j], list[k], x);
        assert Holds(list, k, x);
      }
    }
  }

  /** With shallow nesting the search finds every covered address, whatever order the sort
      gave equal starts. */
  lemma ShallowComplete(list: seq<Prefix>, v4: bool, x: nat)
    requires Sorted(list) && AllEntries(list, v4) && ShallowNesting(list)
    ensures InWindow(list, x) <==> Covered(list, x)
  {
    MissedIff(list, v4, x);
    if InWindow(list, x) {
      WindowSound(list, x);
    } else if Covered(list, x) {
      var j: nat :| MissedAt(list, j, x);
      forall k | j <= k <= j + WINDOW
        ensures Nested(list[k], list[j])
      {
        BetweenIsNested(list, v4, x, j, k);
      }
      assert list[j] in list;
      CountRun(list, j, j + WINDOW + 1, list[j]);
    }
  }

  lemma CountRun(list: seq<Prefix>, lo: nat, hi: nat, q: Prefix)
    requires lo <= hi <= |list| && forall k | lo <= k < hi :: Nested(list[k], q)
    ensures CountNested(list, q) >= hi - lo
  {
    hide Nested;
    var block := list[lo..hi];
    assert list == list[..lo] + (block + list[hi..]);
    CountAll(block, q);
    CountConcat(list[..lo], block + list[hi..], q);
    CountConcat(block, list[hi..], q);
  }

  // ---------- The set ----------

  /** `netip`'s parsers and printer. */
  datatype Netip = Netip(parsePrefix: string -> Option<Prefix>, parseAddr: string -> Option<Addr>,
                         text: Addr -> string)

  /** What follows the last comma, if there is one. */
  function AfterLastComma(s: string): Option<string> {
    if s == "" then None
    else
      match AfterLastComma(s[1..])
      case Some(rest) => Some(rest)
      case None => if s[0] == ',' then Some(s[1..]) else None
  }

  /** A rule type in front of the prefix is skipped when what follows it is a prefix. */
  function DropRuleType(net: Netip, line: string): string {
    match AfterLastComma(line)
    case None => line
    case Some(tail) =>
      var cand := TrimSpace(tail);
      if ('/' in cand || '.' in cand || ':' in cand) && net.parsePrefix(cand).Some? then cand else line
  }

  /** The prefix a line stands for, masked; a bare address stands for itself alone. */
  function ParsePrefixLine(net: Netip, raw: string): Option<Prefix> {
    var trimmed := TrimSpace(raw);
    if trimmed == "" || HasPrefix(trimmed, "#") || HasPrefix(trimmed, "//") then None
    else
      var line := DropRuleType(net, if '#' in trimmed then TrimSpace(Before(trimmed, '#')) else trimmed);
      var text :=
        if '/' in line then Some(line)
        else
          match net.parseAddr(line)
          case None => None
          case Some(a) => Some(net.text(a) + "/" + Decimal(Width(a.V4?)));
      match text
      case None => None
      case Some(t) =>
        match net.parsePrefix(t)
        case None => None
        case Some(p) => Some(Masked(p))
  }

  /** The naive answer: the address, unmapped and without a zone, lies in an added prefix of
      its own family. */
  predicate NaiveMatch(added: seq<Prefix>, addr: Option<Addr>) {
    addr.Some? && NaiveUnmapped(added, Unmap(addr.value))
  }

  predicate NaiveUnmapped(added: seq<Prefix>, x: Addr) {
    && !Zoned(x)
    && exists i | 0 <= i < |added| :: added[i].v4 == x.V4? && Contains(added[i], x.n)
  }

  function OfFamily(added: seq<Prefix>, v4: bool): (r: seq<Prefix>)
    ensures forall p | p in r :: p in added && p.v4 == v4
    ensures forall p | p in added && p.v4 == v4 :: p in r
  {
    if added == [] then []
    else
      var n := |added| - 1;
      OfFamily(added[..n], v4) + if added[n].v4 == v4 then [added[n]] else []
  }

  /** A list holds exactly the added prefixes of its family. */
  ghost predicate Holding(list: seq<Prefix>, v4: bool, added: seq<Prefix>) {
    AllEntries(list, v4) && multiset(list) == multiset(OfFamily(added, v4))
  }

  lemma HoldingOneMore(list: seq<Prefix>, v4: bool, added: seq<Prefix>, p: Prefix)
    requires Holding(list, v4, added) && IsEntry(p, p.v4)
    ensures Holding(if p.v4 == v4 then list + [p] else list, v4, added + [p])
  {
    hide IsEntry, OfFamily;
    OfFamilyAppend(added, p);
  }

  class CIDRSet {
    var v4: seq<Prefix>
    var v6: seq<Prefix>
    /** Every prefix added so far, in order. */
    ghost var added: seq<Prefix>

    ghost predicate Valid()
      reads this
    {
      Holding(v4, true, added) && Holding(v6, false, added)
    }

    ghost predicate Finalized()
      reads this
    {
      Valid() && Sorted(v4) && Sorted(v6)
    }

    constructor ()
      ensures Finalized() && added == []
    {
      v4, v6, added := [], [], [];
    }

    method Len() returns (n: nat)
      requires Valid()
      ensures n == |added|
    {
      FamilySizes(added);
      assert |multiset(v4)| == |v4| && |multiset(v6)| == |v6|;
      assert |multiset(OfFamily(added, true))| == |OfFamily(added, true)|;
      assert |multiset(OfFamily(added, false))| == |OfFamily(added, false)|;
      return |v4| + |v6|;
    }

    /** `AddRule`: a line that parses adds its masked prefix, any other adds nothing. */
    method AddRule(net: Netip, raw: string)
      requires Valid()
      modifies this
      ensures Valid()
      ensures added == old(added) + match ParsePrefixLine(net, raw) case Some(p) => [p] case None => []
    {
      hide TrimSpace, Before, AfterLastComma, Decimal, Valid;
      assert added == added + [];
      var line := TrimSpace(raw);
      if line == "" || HasPrefix(line, "#") || HasPrefix(line, "//") {
        return;
      }
      if '#' in line {
        line := TrimSpace(Before(line, '#'));
      }
      match AfterLastComma(line) {
        case None =>
        case Some(tail) =>
          var cand := TrimSpace(tail);
          if '/' in cand || '.' in cand || ':' in cand {
            if net.parsePrefix(cand).Some? {
              line := cand;
            }
          }
      }
      if '/' !in line {
        var addr := net.parseAddr(line);
        if addr.None? {
          return;
        }
        line := net.text(addr.value) + "/" + Decimal(Width(addr.value.V4?));
      }
      var parsed := net.parsePrefix(line);
      if parsed.None? {
        return;
      }
      Append(Masked(parsed.value), parsed.value);
    }

    method Append(p: Prefix, ghost raw: Prefix)
      requires Valid() && p == Masked(raw)
      modifies this
      ensures Valid() && added == old(added) + [p]
    {
      MaskedIsEntry(raw, 0);
      hide IsEntry, Masked, Holding;
      HoldingOneMore(v4, true, added, p);
      HoldingOneMore(v6, false, added, p);
      added := added + [p];
      if p.v4 {
        v4 := v4 + [p];
      } else {
        v6 := v6 + [p];
      }
    }

    /** `Finalize`: both lists are sorted, nothing is lost or added. */
    method Finalize()
      requires Valid()
      modifies this
      ensures Finalized() && added == old(added)
    {
      v4 := SortPrefixes(v4, true);
      v6 := SortPrefixes(v6, false);
    }

    /** `Match` on a finalized set. The zero address is `None`. */
    method Match(addr: Option<Addr>) returns (r: bool)
      requires Finalized()
      ensures r ==> NaiveMatch(added, addr)
      ensures ShallowNesting(added) ==> r == NaiveMatch(added, addr)
      ensures addr.Some? ==>
        var x := Unmap(addr.value);
        r == (!Zoned(x) && InWindow(if x.V6? then v6 else v4, x.n))
    {
      if addr.None? {
        return false;
      }
      var x := Unmap(addr.value);
      var list := if x.V6? then v6 else v4;
      ListAnswers(added, list, x);
      hide InWindow, NaiveMatch, ShallowNesting, Sorted;
      r := Lookup(list, x.n, Zoned(x));
    }
  }

  lemma OfFamilyAppend(added: seq<Prefix>, p: Prefix)
    ensures OfFamily(added + [p], p.v4) == OfFamily(added, p.v4) + [p]
    ensures OfFamily(added + [p], !p.v4) == OfFamily(added, !p.v4)
  {
    assert (added + [p])[..|added|] == added;
  }

  predicate Zoned(x: Addr) {
    x.V6? && x.zone != ""
  }

  /** Stands for `sort.Slice`: some ordered rearrangement, and nothing more is promised. */
  method SortPrefixes(ps: seq<Prefix>, ghost v4: bool) returns (r: seq<Prefix>)
    requires AllEntries(ps, v4)
    ensures Sorted(r) && AllEntries(r, v4) && multiset(r) == multiset(ps)
  {
    hide IsEntry, Sorted;
    r := [];
    assert Sorted(r) by { EmptySorted(); }
    for n := 0 to |ps|
      invariant Sorted(r) && AllEntries(r, v4) && multiset(r) == multiset(ps[..n])
    {
      assert ps[..n + 1] == ps[..n] + [ps[n]];
      r := InsertSorted(r, ps[n]);
      SameEntries(r, ps[..n + 1], v4);
    }
    assert ps[..|ps|] == ps;
  }

  lemma SameEntries(r: seq<Prefix>, s: seq<Prefix>, v4: bool)
    requires multiset(r) == multiset(s) && AllEntries(s, v4)
    ensures AllEntries(r, v4)
  {
    hide IsEntry;
    forall i | 0 <= i < |r|
      ensures IsEntry(r[i], v4)
    {
      assert r[i] in multiset(s);
    }
  }

  lemma EmptySorted()
    ensures Sorted([])
  {
  }

  method InsertSorted(s: seq<Prefix>, p: Prefix) returns (r: seq<Prefix>)
    requires Sorted(s)
    ensures Sorted(r) && multiset(r) == multiset(s) + multiset{p}
  {
    var i := Search(s, p.addr);
    r := s[..i] + [p] + s[i..];
    assert s == s[..i] + s[i..];
  }

  lemma {:induction false} FamilySizes(added: seq<Prefix>)
    ensures |OfFamily(added, true)| + |OfFamily(added, false)| == |added|
  {
    if added != [] {
      FamilySizes(added[..|added| - 1]);
    }
  }

  /** Nesting is counted within one family. */
  lemma {:induction false} CountOfFamily(added: seq<Prefix>, q: Prefix)
    ensures CountNested(OfFamily(added, q.v4), q) == CountNested(added, q)
  {
    hide Nested;
    if added != [] {
      var front, last := added[..|added| - 1], added[|added| - 1];
      CountOfFamily(front, q);
      assert added == front + [last];
      CountConcat(front, [last], q);
      CountConcat(OfFamily(front, q.v4), [last], q);
      assert OfFamily(front, q.v4) + [] == OfFamily(front, q.v4);
      OtherFamily(last, q);
      hide CountNested;
    }
  }

  lemma OtherFamily(p: Prefix, q: Prefix)
    ensures p.v4 != q.v4 ==> CountNested([p], q) == 0
  {
    assert [p][1..] == [];
  }

  /** The answer of the list of one family against the naive scan of all rules. */
  lemma {:induction false} ListAnswers(added: seq<Prefix>, list: seq<Prefix>, x: Addr)
    requires Sorted(list) && AllEntries(list, x.V4?) && multiset(list) == multiset(OfFamily(added, x.V4?))
    ensures Zoned(x) ==> !NaiveUnmapped(added, x)
    ensures !Zoned(x) && InWindow(list, x.n) ==> NaiveUnmapped(added, x)
    ensures !Zoned(x) && ShallowNesting(added) ==> (InWindow(list, x.n) <==> NaiveUnmapped(added, x))
  {
    FamilyCovers(added, x);
    CoveredPermuted(list, OfFamily(added, x.V4?), x.n);
    if InWindow(list, x.n) {
      WindowSound(list, x.n);
    }
    if ShallowNesting(added) {
      ShallowFamily(added, x.V4?);
      ShallowPermuted(OfFamily(added, x.V4?), list);
      ShallowComplete(list, x.V4?, x.n);
    }
  }

  lemma ShallowFamily(added: seq<Prefix>, v4: bool)
    requires ShallowNesting(added)
    ensures ShallowNesting(OfFamily(added, v4))
  {
    forall q | q in OfFamily(added, v4)
      ensures CountNested(OfFamily(added, v4), q) <= WINDOW
    {
      CountOfFamily(added, q);
    }
  }

  lemma FamilyCovers(added: seq<Prefix>, x: Addr)
    ensures !Zoned(x) ==> NaiveUnmapped(added, x) == Covered(OfFamily(added, x.V4?), x.n)
  {
    hide Contains, OfFamily;
    var list := OfFamily(added, x.V4?);
    if NaiveUnmapped(added, x) {
      var i :| 0 <= i < |added| && added[i].v4 == x.V4? && Contains(added[i], x.n);
      assert added[i] in list;
    }
    if Covered(list, x.n) && !Zoned(x) {
      var i :| 0 <= i < |list| && Contains(list[i], x.n);
      assert list[i] in added;
    }
  }

  // ---------- Where it fails ----------

  /** 10.0.0.0/8 followed by the 64 blocks 10.0.1.0/24 to 10.0.64.0/24. */
  function CrowdedRules(): (r: seq<Prefix>)
    ensures |r| == 65 && r[0] == RawPrefix.Prefix(true, 10 * 0x100_0000, 8)
    ensures forall k | 1 <= k <= 64 :: r[k] == RawPrefix.Prefix(true, 10 * 0x100_0000 + k * 256, 24)
  {
    [RawPrefix.Prefix(true, 10 * 0x100_0000, 8)] +
    seq(64, k requires 0 <= k < 64 => RawPrefix.Prefix(true, 10 * 0x100_0000 + (k + 1) * 256, 24))
  }

  /** The bound of 64 bites: with one more nested block than `ShallowNesting` allows, the
      covered address 10.255.0.0 is not found. */
  lemma {:induction false} CrowdedMisses()
    ensures Sorted(CrowdedRules()) && AllEntries(CrowdedRules(), true)
    ensures Covered(CrowdedRules(), 10 * 0x100_0000 + 255 * 0x1_0000)
    ensures !InWindow(CrowdedRules(), 10 * 0x100_0000 + 255 * 0x1_0000)
  {
    var list, x := CrowdedRules(), 10 * 0x100_0000 + 255 * 0x1_0000;
    Pow2Split(8, 16);
    assert Pow2(8) == 256 && Pow2(16) == 0x1_0000 && Pow2(24) == 0x100_0000;
    hide Pow2, CrowdedRules;
    assert Contains(list[0], x);
    forall k | 1 <= k <= 64
      ensures IsEntry(list[k], true) && !Contains(list[k], x)
    {
      QuotientIs(list[k].addr, 256, 10 * 0x1_0000 + k, 0);
    }
    assert IsBound(list, x, 65);
    BoundUnique(list, x, 65);
  }
}
