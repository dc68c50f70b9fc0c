/** The statistics store: counters per day and per host, and the flush protocol that keeps
    them on disk. */
module Stats {
  import opened Common
  import opened Text
  import opened Lists
  import MapSum

  const MAX_DAYS := 90
  const MAX_HOSTS := 400
  const MAX_RECENT := 100

  datatype Day = Day(up: nat, down: nat, conns: nat, direct: nat, proxy: nat, blocked: nat,
                     adBlocked: nat, failed: nat)

  /** A calendar day; its number orders days as their names (YYYY-MM-DD) do. */
  datatype Date = Date(n: int)

  datatype Hit = Hit(host: string, at: int)

  datatype Aggregate = Aggregate(count: nat, lastAt: int)

  datatype Data = Data(days: map<Date, Day>, domains: map<string, nat>, since: Date,
                       adTotal: nat, adSince: Option<Date>, blocked: map<string, Aggregate>, recent: seq<Hit>)

  const ZERO := Day(0, 0, 0, 0, 0, 0, 0, 0)

  function EmptyData(today: Date): Data {
    Data(map[], map[], today, 0, None, map[], [])
  }

  // ---------- Recording ----------

  function DayAt(d: Data, day: Date): Day {
    if day in d.days then d.days[day] else ZERO
  }

  function CountConn(x: Day, action: string, failed: bool): Day {
    var x := x.(conns := x.conns + 1, failed := x.failed + if failed then 1 else 0);
    if action == "direct" then x.(direct := x.direct + 1)
    else if action == "proxy" then x.(proxy := x.proxy + 1)
    else if action == "block" then x.(blocked := x.blocked + 1)
    else x
  }

  function WithConn(d: Data, day: Date, action: string, failed: bool): Data {
    d.(days := d.days[day := CountConn(DayAt(d, day), action, failed)])
  }

  function Clamp(n: int): nat {
    if n < 0 then 0 else n
  }

  function AddBytes(x: Day, up: nat, down: nat): Day {
    x.(up := x.up + up, down := x.down + down)
  }

  function AddDomain(domains: map<string, nat>, key: string, bytes: nat): map<string, nat> {
    domains[key := (if key in domains then domains[key] else 0) + bytes]
  }

  /** `key` is empty when the host does not count: an address literal, or nothing. */
  function WithTraffic(d: Data, day: Date, key: string, up: nat, down: nat): Data {
    d.(days := d.days[day := AddBytes(DayAt(d, day), up, down)],
       domains := if key == "" then d.domains else AddDomain(d.domains, key, up + down))
  }

  function LastHits(s: seq<Hit>): (r: seq<Hit>)
    ensures |r| <= MAX_RECENT
  {
    if |s| > MAX_RECENT then s[|s| - MAX_RECENT..] else s
  }

  function WithHit(d: Data, day: Date, since: Date, hit: Hit): Data {
    var x := DayAt(d, day);
    var count := if hit.host in d.blocked then d.blocked[hit.host].count else 0;
    d.(days := d.days[day := x.(adBlocked := x.adBlocked + 1)],
       adTotal := d.adTotal + 1,
       adSince := if d.adSince.None? then Some(since) else d.adSince,
       blocked := d.blocked[hit.host := Aggregate(count + 1, hit.at)],
       recent := LastHits(d.recent + [hit]))
  }

  function HostKey(host: string): string {
    ToLower(TrimSuffix(TrimSpace(host), "."))
  }

  // ---------- Pruning ----------

  /** `after` keeps the `limit` greatest keys of `before`, or all of them. */
  ghost predicate LatestKept(before: map<Date, Day>, after: map<Date, Day>, limit: nat) {
    && after == (map k | k in before && k in after :: before[k])
    && |after| == (if |before| > limit then limit else |before|)
    && forall k, j | k in after && j in before && j !in after :: j.n < k.n
  }

  /** Higher values first; among equal ones the order of names, if they count. */
  predicate Outranks(m: map<string, nat>, byName: bool, k: string, j: string)
    requires k in m && j in m
  {
    m[k] > m[j] || (m[k] == m[j] && (byName ==> Less(k, j)))
  }

  /** `after` keeps `limit` entries of `before` that outrank the others, or all of them. */
  ghost predicate TopKept(before: map<string, nat>, after: map<string, nat>, limit: nat, byName: bool) {
    && after == (map k | k in before && k in after :: before[k])
    && |after| == (if |before| > limit then limit else |before|)
    && forall k, j | k in after && j in before && j !in after :: k in before && Outranks(before, byName, k, j)
  }

  /** With names to break ties there is only one way to prune. */
  lemma TopIsUnique(m: map<string, nat>, a: map<string, nat>, b: map<string, nat>, limit: nat)
    requires TopKept(m, a, limit, true) && TopKept(m, b, limit, true)
    ensures a == b
  {
    hide Outranks;
    if !(a.Keys <= b.Keys) {
      var k :| k in a.Keys && k !in b.Keys;
      NotSubset(a.Keys, b.Keys, k);
      var j :| j in b.Keys && j !in a.Keys;
      OneOutranks(m, k, j);
      assert false;
    }
    SameSize(a.Keys, b.Keys);
    assert forall k :: k in a <==> k in b by { assert a.Keys == b.Keys; }
  }

  lemma NotSubset(a: set<string>, b: set<string>, k: string)
    requires |a| == |b| && k in a && k !in b
    ensures !(b <= a)
  {
    if b <= a {
      SameSize(b, a);
    }
  }

  lemma SameSize(a: set<string>, b: set<string>)
    requires a <= b && |a| == |b|
    ensures a == b
  {
    assert |b - a| == |b| - |a|;
  }

  lemma OneOutranks(m: map<string, nat>, k: string, j: string)
    requires k in m && j in m
    ensures !(Outranks(m, true, k, j) && Outranks(m, true, j, k))
  {
    if Less(k, j) && Less(j, k) {
      LessTransitive(k, j, k);
      LessIrreflexive(k);
    }
  }

  function Counts(m: map<string, Aggregate>): map<string, nat> {
    map k | k in m :: m[k].count
  }

  /** What `prune` may leave. Which of equally used hosts stay is not fixed; of equally often blocked
      ones those with the first names do. */
  ghost predicate Pruned(before: Data, after: Data) {
    && LatestKept(before.days, after.days, MAX_DAYS)
    && TopKept(before.domains, after.domains, MAX_HOSTS, false)
    && after.blocked == (map k | k in before.blocked && k in after.blocked :: before.blocked[k])
    && TopKept(Counts(before.blocked), Counts(after.blocked), MAX_HOSTS, true)
    && after.recent == LastHits(before.recent)
    && after.since == before.since && after.adTotal == before.adTotal && after.adSince == before.adSince
  }

  // ---------- The store ----------

  /** The store as seen between two critical sections. */
  datatype View = View(data: Data, dirty: bool, flight: Option<Data>, file: Option<Data>)

  class Store {
    var data: Data
    var dirty: bool
    /** What the file holds; a write to it is the final rename, all or nothing. */
    var file: Option<Data>
    /** The snapshot of a flush whose writing has not finished. */
    ghost var flight: Option<Data>

    ghost function Now(): View
      reads this
    {
      View(data, dirty, flight, file)
    }

    /** `New` and `load`. A missing or unreadable file gives an empty store. */
    constructor (file: Option<Data>, today: Date)
      ensures Now() == View(Loaded(file, today), false, None, file)
    {
      this.file := file;
      data := if file.Some? then file.value else EmptyData(today);
      dirty, flight := false, None;
    }

    method Conn(day: Date, action: string, failed: bool)
      modifies `data, `dirty
      ensures Now() == old(Now()).(data := WithConn(old(data), day, action, failed), dirty := true)
    {
      var d := if day in data.days then data.days[day] else ZERO;
      d := d.(conns := d.conns + 1);
      if action == "direct" {
        d := d.(direct := d.direct + 1);
      } else if action == "proxy" {
        d := d.(proxy := d.proxy + 1);
      } else if action == "block" {
        d := d.(blocked := d.blocked + 1);
      }
      if failed {
        d := d.(failed := d.failed + 1);
      }
      data := data.(days := data.days[day := d]);
      dirty := true;
    }

    /** `isAddress` says whether the host, brackets off, is an address literal. */
    method Traffic(day: Date, host: string, up: int, down: int, isAddress: string -> bool)
      modifies `data, `dirty
      ensures var key := if isAddress(HostKey(host)) then "" else HostKey(host);
        Now() == if Clamp(up) == 0 && Clamp(down) == 0 then old(Now())
          else old(Now()).(data := WithTraffic(old(data), day, key, Clamp(up), Clamp(down)), dirty := true)
    {
      hide HostKey;
      var u, w := Clamp(up), Clamp(down);
      if u == 0 && w == 0 {
        return;
      }
      hide AddBytes, AddDomain, DayAt;
      var days := data.days[day := AddBytes(DayAt(data, day), u, w)];
      var key := HostKey(host);
      if key != "" && !isAddress(key) {
        data := data.(days := days, domains := AddDomain(data.domains, key, u + w));
      } else {
        data := data.(days := days);
      }
      dirty := true;
    }

    /** The day counted is read under the lock, the time and day of the hit before it. */
    method AdBlockSuccess(host: string, at: int, since: Date, day: Date)
      modifies `data, `dirty
      ensures Now() == if HostKey(host) == "" then old(Now())
        else old(Now()).(data := WithHit(old(data), day, since, Hit(HostKey(host), at)), dirty := true)
    {
      hide HostKey;
      var key := HostKey(host);
      if key == "" {
        return;
      }
      var d := DayAt(data, day);
      data := data.(days := data.days[day := d.(adBlocked := d.adBlocked + 1)], adTotal := data.adTotal + 1);
      if data.adSince.None? {
        data := data.(adSince := Some(since));
      }
      var agg := if key in data.blocked then data.blocked[key] else Aggregate(0, 0);
      data := data.(blocked := data.blocked[key := Aggregate(agg.count + 1, at)],
                    recent := data.recent + [Hit(key, at)]);
      if |data.recent| > MAX_RECENT {
        var drop := |data.recent| - MAX_RECENT;
        data := data.(recent := data.recent[drop..]);
      }
      dirty := true;
    }

    /** The locked part of `Flush`: prune, snapshot, clear the flag. `marshalled` is whether
        the encoder succeeded. */
    method FlushBegin(marshalled: bool) returns (snapshot: Option<Data>)
      requires flight.None?
      modifies this
      ensures Begun(old(Now()), Now(), marshalled) && snapshot == flight
    {
      if !dirty {
        return None;
      }
      data := Prune(data);
      if !marshalled {
        return None;
      }
      dirty := false;
      flight := Some(data);
      return Some(data);
    }

    /** The rest of `Flush`, after the three file operations: only the rename changes the file. */
    method FlushEnd(made: bool, written: bool, renamed: bool, snapshot: Data) returns (ok: bool)
      requires flight == Some(snapshot)
      modifies this
      ensures ok == (made && written && renamed) && Now() == Ended(old(Now()), ok)
    {
      flight := None;
      if !made || !written || !renamed {
        dirty := true;
        return false;
      }
      file := Some(snapshot);
      return true;
    }
  }

  function Loaded(file: Option<Data>, today: Date): Data {
    if file.Some? then file.value else EmptyData(today)
  }

  ghost predicate Begun(v: View, w: View, marshalled: bool) {
    if !v.dirty then w == v
    else
      && Pruned(v.data, w.data)
      && w == (if marshalled then View(w.data, false, Some(w.data), v.file) else v.(data := w.data))
  }

  function Ended(v: View, ok: bool): View
    requires v.flight.Some?
  {
    if ok then v.(flight := None, file := v.flight) else v.(flight := None, dirty := true)
  }

  // ---------- Prune ----------

  method Prune(d: Data) returns (r: Data)
    ensures Pruned(d, r)
  {
    var days := PruneDays(d.days);
    var domains := KeepTop(d.domains, MAX_HOSTS, false);
    var counts := Counts(d.blocked);
    var kept := KeepTop(counts, MAX_HOSTS, true);
    var blocked := map k | k in d.blocked && k in kept :: d.blocked[k];
    assert Counts(blocked) == kept;
    r := d.(days := days, domains := domains, blocked := blocked, recent := LastHits(d.recent));
  }

  /** The keys sorted, then all but the last 90 deleted. */
  method PruneDays(days: map<Date, Day>) returns (r: map<Date, Day>)
    ensures LatestKept(days, r, MAX_DAYS)
  {
    r := days;
    if |days| <= MAX_DAYS {
      return;
    }
    var keys := SortedKeys(days.Keys);
    var n := |keys| - MAX_DAYS;
    AscendingDistinct(keys);
    r := DropAll(days, keys[..n]);
    assert r == (map k | k in days && k in r :: days[k]) by { WithoutIsPart(days, keys[..n], r); }
    forall k, j | k in r && j in days && j !in r
      ensures j.n < k.n
    {
      hide Ascending;
      assert k in days.Keys && j in days.Keys;
      assert k in keys && k !in keys[..n] && j in keys[..n];
      EarlierKey(keys, n, j, k);
    }
  }

  lemma AscendingDistinct(keys: seq<Date>)
    requires Ascending(keys)
    ensures Distinct(keys) && forall n | 0 <= n <= |keys| :: Distinct(keys[..n])
  {
  }

  lemma EarlierKey(keys: seq<Date>, n: nat, j: Date, k: Date)
    requires Ascending(keys) && n <= |keys| && j in keys[..n] && k in keys && k !in keys[..n]
    ensures j.n < k.n
  {
    var a :| 0 <= a < n && keys[..n][a] == j;
    var b :| 0 <= b < |keys| && keys[b] == k;
    assert forall c | 0 <= c < n :: keys[c] == keys[..n][c];
  }

  predicate Ascending(s: seq<Date>) {
    forall i, j | 0 <= i < j < |s| :: s[i].n < s[j].n
  }

  /** Stands for collecting the keys and `sort.Strings`. */
  method SortedKeys(keys: set<Date>) returns (s: seq<Date>)
    ensures Ascending(s) && |s| == |keys| && forall k :: k in s <==> k in keys
  {
    s := [];
    var left := keys;
    while |left| > 0
      invariant left <= keys && Ascending(s) && |s| + |left| == |keys|
      invariant forall k :: k in s <==> k in keys && k !in left
      decreases |left|
    {
      var k := Pick(left);
      left := left - {k};
      s := InsertKey(s, k);
    }
  }

  method InsertKey(s: seq<Date>, k: Date) returns (r: seq<Date>)
    requires Ascending(s) && k !in s
    ensures Ascending(r) && |r| == |s| + 1 && forall j :: j in r <==> j in s || j == k
  {
    var i := 0;
    while i < |s| && s[i].n < k.n
      invariant 0 <= i <= |s| && forall j | 0 <= j < i :: s[j].n < k.n
    {
      i := i + 1;
    }
    InsertedMembers(s, i, k);
    hide InsertAt;
    assert i < |s| ==> k.n < s[i].n;
    r := InsertAt(s, i, k);
  }

  /** Sorted by value, highest first, then all but the first `limit` deleted. */
  method KeepTop(m: map<string, nat>, limit: nat, byName: bool) returns (r: map<string, nat>)
    ensures TopKept(m, r, limit, byName)
  {
    hide Ranking, Outranks;
    r := m;
    if |m| <= limit {
      return;
    }
    var list := Ranked(m, byName);
    RankingDistinct(list, m, byName, limit);
    r := DropAll(m, list[limit..]);
    assert r == (map k | k in m && k in r :: m[k]) by { WithoutIsPart(m, list[limit..], r); }
    forall k, j | k in r && j in m && j !in r
      ensures k in m && Outranks(m, byName, k, j)
    {
      RankedBelow(list, m, byName, limit, k, j);
    }
  }

  lemma RankingDistinct(list: seq<string>, m: map<string, nat>, byName: bool, limit: nat)
    requires Ranking(list, m, byName) && limit <= |list|
    ensures Distinct(list[limit..]) && forall k | k in list[limit..] :: k in m
  {
  }

  ghost predicate Without<K(!new), V(!new)>(m: map<K, V>, dropped: seq<K>, r: map<K, V>) {
    forall k :: (k in r <==> k in m && k !in dropped) && (k in r ==> r[k] == m[k])
  }

  lemma WithoutIsPart<K(!new), V(!new)>(m: map<K, V>, dropped: seq<K>, r: map<K, V>)
    requires Without(m, dropped, r)
    ensures r == map k | k in m && k in r :: m[k]
  {
  }

  /** Deleting entries one by one. */
  method DropAll<K(==, !new), V(!new)>(m: map<K, V>, list: seq<K>) returns (r: map<K, V>)
    requires Distinct(list) && forall k | k in list :: k in m
    ensures Without(m, list, r) && |r| == |m| - |list|
  {
    r := m;
    for i := 0 to |list|
      invariant Without(m, list[..i], r) && |r| == |m| - i
    {
      assert list[..i + 1] == list[..i] + [list[i]];
      assert list[i] !in list[..i] && list[i] in list;
      OneLess(m, list[..i], r, list[i]);
      hide Without;
      r := r - {list[i]};
    }
    assert list[..|list|] == list;
  }

  lemma OneLess<K(!new), V(!new)>(m: map<K, V>, dropped: seq<K>, r: map<K, V>, k: K)
    requires Without(m, dropped, r) && k in m && k !in dropped
    ensures Without(m, dropped + [k], r - {k}) && |r - {k}| == |r| - 1
  {
    assert (r - {k}).Keys == r.Keys - {k};
  }

  lemma RankedBelow(list: seq<string>, m: map<string, nat>, byName: bool, limit: nat, k: string, j: string)
    requires Ranking(list, m, byName) && limit <= |list| && k in list && k in m && j in m
    requires k !in list[limit..] && j in list[limit..]
    ensures Outranks(m, byName, k, j)
  {
    hide Outranks;
    var a :| 0 <= a < |list| && list[a] == k;
    var b :| 0 <= b < |list| - limit && list[limit..][b] == j;
    assert list[limit + b] == j;
    assert forall c | limit <= c < |list| :: list[c] == list[limit..][c - limit];
  }

  predicate Ranking(list: seq<string>, m: map<string, nat>, byName: bool) {
    && (forall i | 0 <= i < |list| :: list[i] in m)
    && (forall i, j | 0 <= i < j < |list| :: list[i] != list[j] && Outranks(m, byName, list[i], list[j]))
  }

  /** Stands for collecting the entries and `sort.Slice`. */
  method Ranked(m: map<string, nat>, byName: bool) returns (list: seq<string>)
    ensures Ranking(list, m, byName) && |list| == |m| && forall k :: k in list <==> k in m
  {
    list := [];
    var left := m.Keys;
    while left != {}
      invariant left <= m.Keys && Ranking(list, m, byName) && |list| + |left| == |m|
      invariant forall k :: k in list <==> k in m && k !in left
      decreases |left|
    {
      var k :| k in left;
      left := left - {k};
      list := InsertRanked(list, m, byName, k);
    }
  }

  method InsertRanked(list: seq<string>, m: map<string, nat>, byName: bool, k: string) returns (r: seq<string>)
    requires Ranking(list, m, byName) && k !in list && k in m
    ensures Ranking(r, m, byName) && |r| == |list| + 1 && forall j :: j in r <==> j in list || j == k
  {
    hide Outranks;
    var i := 0;
    while i < |list| && Outranks(m, byName, list[i], k)
      invariant 0 <= i <= |list| && forall j | 0 <= j < i :: Outranks(m, byName, list[j], k)
    {
      i := i + 1;
    }
    OutranksRest(list, m, byName, i, k);
    InsertedRanks(list, m, byName, i, k);
    InsertedMembers(list, i, k);
    r := InsertAt(list, i, k);
  }

  lemma InsertedRanks(list: seq<string>, m: map<string, nat>, byName: bool, i: nat, k: string)
    requires Ranking(list, m, byName) && k !in list && k in m && i <= |list|
    requires forall j | 0 <= j < i :: Outranks(m, byName, list[j], k)
    requires forall j | i <= j < |list| :: Outranks(m, byName, k, list[j])
    ensures Ranking(InsertAt(list, i, k), m, byName)
  {
    hide Outranks;
    var r := InsertAt(list, i, k);
    forall a, b | 0 <= a < b < |r|
      ensures r[a] != r[b] && r[a] in m && r[b] in m && Outranks(m, byName, r[a], r[b])
    {
      assert a != i ==> r[a] == list[if a < i then a else a - 1];
      assert b != i ==> r[b] == list[if b < i then b else b - 1];
    }
  }

  lemma OutranksRest(list: seq<string>, m: map<string, nat>, byName: bool, i: nat, k: string)
    requires Ranking(list, m, byName) && k !in list && k in m && i <= |list|
    requires i < |list| ==> !Outranks(m, byName, list[i], k)
    ensures forall j | i <= j < |list| :: Outranks(m, byName, k, list[j])
  {
    if i < |list| {
      LessTotal(k, list[i]);
      forall j | i <= j < |list|
        ensures Outranks(m, byName, k, list[j])
      {
        if Less(k, list[i]) && Less(list[i], list[j]) {
          LessTransitive(k, list[i], list[j]);
        }
      }
    }
  }
}
