/** The summaries: sums of days over all time and over calendar windows. */
module StatsSummary {
  import opened Common
  import opened Lists
  import opened Stats
  import StatsRuns

  /** `accumulate`. */
  function Plus(a: Day, b: Day): Day {
    Day(a.up + b.up, a.down + b.down, a.conns + b.conns, a.direct + b.direct, a.proxy + b.proxy,
        a.blocked + b.blocked, a.adBlocked + b.adBlocked, a.failed + b.failed)
  }

  predicate AtMost(a: Day, b: Day) {
    && a.up <= b.up && a.down <= b.down && a.conns <= b.conns && a.direct <= b.direct && a.proxy <= b.proxy
    && a.blocked <= b.blocked && a.adBlocked <= b.adBlocked && a.failed <= b.failed
  }

  /** The fieldwise sum of all days of a map. */
  ghost function Total<K(!new)>(days: map<K, Day>): Day
    decreases |days|
  {
    if days == map[] then ZERO
    else
      var k :| k in days;
      Plus(days[k], Total(days - {k}))
  }

  lemma {:induction false} TotalRemove<K(!new)>(days: map<K, Day>, k: K)
    requires k in days
    ensures Total(days) == Plus(days[k], Total(days - {k}))
    decreases |days|
  {
    var j :| j in days && Total(days) == Plus(days[j], Total(days - {j}));
    if j != k {
      TotalRemove(days - {j}, k);
      TotalRemove(days - {k}, j);
      assert days - {j} - {k} == days - {k} - {j};
      var rest := Total(days - {j} - {k});
      hide Total;
      assert Plus(days[j], Plus(days[k], rest)) == Plus(days[k], Plus(days[j], rest));
    }
  }

  /** The days from `first` to `last`. */
  function Window(days: map<Date, Day>, first: int, last: int): map<Date, Day> {
    map k | k in days && first <= k.n <= last :: days[k]
  }

  /** A part of the days sums to at most the whole, in every field. */
  lemma {:induction false} PartAtMost<K(!new)>(part: map<K, Day>, days: map<K, Day>)
    requires forall k | k in part :: k in days && part[k] == days[k]
    ensures AtMost(Total(part), Total(days))
    decreases |days|
  {
    hide Total;
    if days == map[] {
      assert part == map[];
    } else if exists k :: k in days && k !in part {
      var k :| k in days && k !in part;
      TotalRemove(days, k);
      PartAtMost(part, days - {k});
    } else {
      assert part == days;
    }
  }

  /** Days7 <= Days30 <= AllTime in every summed field. */
  lemma WindowsNested(days: map<Date, Day>, today: Date)
    ensures AtMost(Total(Window(days, today.n - 6, today.n)), Total(Window(days, today.n - 29, today.n)))
    ensures AtMost(Total(Window(days, today.n - 29, today.n)), Total(days))
  {
    PartAtMost(Window(days, today.n - 6, today.n), Window(days, today.n - 29, today.n));
    PartAtMost(Window(days, today.n - 29, today.n), days);
  }

  /** Balanced days sum to a balanced total. */
  lemma {:induction false} TotalBalanced<K(!new)>(days: map<K, Day>)
    requires forall k | k in days :: StatsRuns.DayBalanced(days[k])
    ensures StatsRuns.DayBalanced(Total(days))
    decreases |days|
  {
    if days != map[] {
      var k :| k in days && Total(days) == Plus(days[k], Total(days - {k}));
      TotalBalanced(days - {k});
      BalancedSum(days[k], Total(days - {k}));
    }
  }

  lemma BalancedSum(a: Day, b: Day)
    requires StatsRuns.DayBalanced(a) && StatsRuns.DayBalanced(b)
    ensures StatsRuns.DayBalanced(Plus(a, b))
  {
  }

  datatype Sums = Sums(days7: Day, days30: Day, allTime: Day)

  datatype Summary = Summary(today: Day, sums: Sums, recent: seq<Day>)

  ghost predicate Inside(keys: seq<Date>, days: map<Date, Day>) {
    forall i | 0 <= i < |keys| :: keys[i] in days
  }

  /** The first `n` days of a sorted list of keys, latest first. */
  ghost function LatestFirst(days: map<Date, Day>, keys: seq<Date>, n: nat): seq<Day>
    requires Inside(keys, days)
  {
    seq(if n < |keys| then n else |keys|, i requires 0 <= i < |keys| => days[keys[|keys| - 1 - i]])
  }

  ghost function Seen(days: map<Date, Day>, keys: seq<Date>): map<Date, Day> {
    map k | k in days && k in keys :: days[k]
  }

  lemma SeeOneMore(days: map<Date, Day>, keys: seq<Date>, k: Date, first: int, last: int)
    requires k in days && k !in keys
    ensures Total(Window(Seen(days, [k] + keys), first, last)) ==
      AddIf(Total(Window(Seen(days, keys), first, last)), first <= k.n <= last, days[k])
  {
    var more, less := Window(Seen(days, [k] + keys), first, last), Window(Seen(days, keys), first, last);
    if first <= k.n <= last {
      TotalRemove(more, k);
      assert more - {k} == less;
    } else {
      assert more == less;
    }
  }

  lemma SeeOneMoreDay(days: map<Date, Day>, keys: seq<Date>, k: Date)
    requires k in days && k !in keys
    ensures Total(Seen(days, [k] + keys)) == Plus(Total(Seen(days, keys)), days[k])
  {
    TotalRemove(Seen(days, [k] + keys), k);
    assert Seen(days, [k] + keys) - {k} == Seen(days, keys);
  }

  function AddIf(sum: Day, wanted: bool, d: Day): Day {
    if wanted then Plus(sum, d) else sum
  }

  function AddDay(s: Sums, k: Date, d: Day, today: Date): Sums {
    Sums(AddIf(s.days7, today.n - 6 <= k.n <= today.n, d), AddIf(s.days30, today.n - 29 <= k.n <= today.n, d),
         Plus(s.allTime, d))
  }

  /** What the sums are once the days of `seen` have been added. */
  ghost predicate Summed(s: Sums, days: map<Date, Day>, seen: seq<Date>, today: Date) {
    && s.days7 == Total(Window(Seen(days, seen), today.n - 6, today.n))
    && s.days30 == Total(Window(Seen(days, seen), today.n - 29, today.n))
    && s.allTime == Total(Seen(days, seen))
  }

  lemma SumOneMore(s: Sums, days: map<Date, Day>, seen: seq<Date>, k: Date, today: Date)
    requires k in days && k !in seen && Summed(s, days, seen, today)
    ensures Summed(AddDay(s, k, days[k], today), days, [k] + seen, today)
  {
    hide Total, Plus, Window, Seen, AddIf;
    SeeOneMore(days, seen, k, today.n - 6, today.n);
    SeeOneMore(days, seen, k, today.n - 29, today.n);
    SeeOneMoreDay(days, seen, k);
  }

  /** `Summary`: days newest first, each added to every sum it belongs to. */
  method Summarize(days: map<Date, Day>, recentDays: nat, today: Date) returns (s: Summary, ghost keys: seq<Date>)
    ensures s.today == (if today in days then days[today] else ZERO)
    ensures s.sums.days7 == Total(Window(days, today.n - 6, today.n))
    ensures s.sums.days30 == Total(Window(days, today.n - 29, today.n))
    ensures s.sums.allTime == Total(days)
    ensures Ascending(keys) && (forall k :: k in keys <==> k in days)
    ensures Inside(keys, days) && s.recent == LatestFirst(days, keys, recentDays)
  {
    hide Added, AddDay, Ascending, LatestFirst, Total, Window, Inside;
    var sorted := SortedKeys(days.Keys);
    keys := sorted;
    KeysInside(days, sorted);
    var sums, recent := Sums(ZERO, ZERO, ZERO), [];
    NothingAdded(days, sorted, sums, recentDays, today);
    for i := 0 to |sorted|
      invariant Added(sums, recent, days, sorted, i, recentDays, today)
    {
      var k := sorted[|sorted| - 1 - i];
      OneMoreAdded(sums, recent, days, sorted, i, recentDays, today);
      sums := AddDay(sums, k, days[k], today);
      if i < recentDays {
        recent := recent + [days[k]];
      }
    }
    AllAdded(sums, recent, days, sorted, recentDays, today);
    s := Summary(if today in days then days[today] else ZERO, sums, recent);
  }

  /** The busiest hosts, from the end of `Summary`. Cutting the list at a negative `topN` panics. */
  method TopHosts(domains: map<string, nat>, topN: int) returns (top: Option<seq<string>>)
    ensures top.None? <==> topN < 0
    ensures top.Some? ==>
      && Ranking(top.value, domains, false) && |top.value| == (if |domains| > topN then topN else |domains|)
      && forall j, k | j in domains && j !in top.value && k in top.value :: k in domains && domains[j] <= domains[k]
  {
    var list := Ranked(domains, false);
    if |list| <= topN {
      return Some(list);
    }
    if topN < 0 {
      return None;
    }
    hide Ranking;
    RankingFront(list, domains, topN);
    forall j, k | j in domains && j !in list[..topN] && k in list[..topN]
      ensures k in domains && domains[j] <= domains[k]
    {
      CutBehind(list, domains, topN, k, j);
    }
    return Some(list[..topN]);
  }

  lemma RankingFront(list: seq<string>, m: map<string, nat>, n: nat)
    requires Ranking(list, m, false) && n <= |list|
    ensures Ranking(list[..n], m, false)
  {
  }

  lemma CutBehind(list: seq<string>, m: map<string, nat>, n: nat, k: string, j: string)
    requires Ranking(list, m, false) && n <= |list| && k in list[..n] && j in list && j !in list[..n]
    ensures k in m && j in m && m[j] <= m[k]
  {
    var a :| 0 <= a < n && list[..n][a] == k;
    var b :| 0 <= b < |list| && list[b] == j;
    assert forall c | 0 <= c < n :: list[..n][c] == list[c];
  }

  /** The state of the loop after the `i` latest days. */
  ghost predicate Added(sums: Sums, recent: seq<Day>, days: map<Date, Day>, sorted: seq<Date>, i: nat,
                        recentDays: nat, today: Date) {
    && i <= |sorted| && Inside(sorted, days)
    && Summed(sums, days, sorted[|sorted| - i..], today)
    && recent == LatestFirst(days, sorted, if i < recentDays then i else recentDays)
  }

  lemma NothingAdded(days: map<Date, Day>, sorted: seq<Date>, sums: Sums, recentDays: nat, today: Date)
    requires Inside(sorted, days) && sums == Sums(ZERO, ZERO, ZERO)
    ensures Added(sums, [], days, sorted, 0, recentDays, today)
  {
    hide Total, Summed, LatestFirst;
    NothingSeen(days, sorted, today, sums);
    assert sorted[|sorted|..] == [];
  }

  lemma OneMoreAdded(sums: Sums, recent: seq<Day>, days: map<Date, Day>, sorted: seq<Date>, i: nat,
                     recentDays: nat, today: Date)
    requires Added(sums, recent, days, sorted, i, recentDays, today) && i < |sorted| && Ascending(sorted)
    ensures var k := sorted[|sorted| - 1 - i];
      k in days && Added(AddDay(sums, k, days[k], today), if i < recentDays then recent + [days[k]] else recent,
                         days, sorted, i + 1, recentDays, today)
  {
    hide LatestFirst, Summed, AddDay, Ascending;
    var k := sorted[|sorted| - 1 - i];
    NotYetSeen(sorted, i);
    assert k in days;
    SumOneMore(sums, days, sorted[|sorted| - i..], k, today);
    RecentOneMore(days, sorted, i);
  }

  lemma AllAdded(sums: Sums, recent: seq<Day>, days: map<Date, Day>, sorted: seq<Date>, recentDays: nat, today: Date)
    requires Added(sums, recent, days, sorted, |sorted|, recentDays, today) && forall k :: k in sorted <==> k in days
    ensures sums.days7 == Total(Window(days, today.n - 6, today.n))
    ensures sums.days30 == Total(Window(days, today.n - 29, today.n)) && sums.allTime == Total(days)
    ensures recent == LatestFirst(days, sorted, recentDays)
  {
    hide Total, Window, LatestFirst;
    ShortRecent(days, sorted, recentDays);
    AllSeen(sums, days, sorted, sorted[0..], today);
  }

  lemma ShortRecent(days: map<Date, Day>, sorted: seq<Date>, n: nat)
    requires Inside(sorted, days)
    ensures n > |sorted| ==> LatestFirst(days, sorted, n) == LatestFirst(days, sorted, |sorted|)
  {
  }

  lemma KeysInside(days: map<Date, Day>, sorted: seq<Date>)
    requires forall k :: k in sorted <==> k in days.Keys
    ensures Inside(sorted, days) && forall k :: k in sorted <==> k in days
  {
  }

  lemma RecentOneMore(days: map<Date, Day>, sorted: seq<Date>, i: nat)
    requires Inside(sorted, days)
    ensures i < |sorted| ==>
      LatestFirst(days, sorted, i + 1) == LatestFirst(days, sorted, i) + [days[sorted[|sorted| - 1 - i]]]
  {
  }

  lemma AllSeen(s: Sums, days: map<Date, Day>, sorted: seq<Date>, seen: seq<Date>, today: Date)
    requires (forall k :: k in sorted <==> k in days) && seen == sorted[0..] && Summed(s, days, seen, today)
    ensures s.days7 == Total(Window(days, today.n - 6, today.n))
    ensures s.days30 == Total(Window(days, today.n - 29, today.n)) && s.allTime == Total(days)
  {
    hide Total;
    assert seen == sorted;
    assert Seen(days, seen) == days;
  }

  lemma NothingSeen(days: map<Date, Day>, sorted: seq<Date>, today: Date, s: Sums)
    requires s == Sums(ZERO, ZERO, ZERO) && Inside(sorted, days)
    ensures Summed(s, days, [], today) && LatestFirst(days, sorted, 0) == []
  {
    assert Seen(days, []) == map[];
    assert Window(map[], today.n - 6, today.n) == map[] && Window(map[], today.n - 29, today.n) == map[];
  }

  lemma NotYetSeen(sorted: seq<Date>, i: nat)
    requires Ascending(sorted) && i < |sorted|
    ensures var n := |sorted| - 1 - i;
      sorted[n] !in sorted[n + 1..] && sorted[n..] == [sorted[n]] + sorted[n + 1..]
  {
  }
}
