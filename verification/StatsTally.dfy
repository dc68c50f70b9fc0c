/** Every counter is the number of things it counts: over all runs, the data against the recordings
    it is to hold. */
module StatsTally {
  import opened Common
  import opened Text
  import opened Stats
  import opened StatsRuns

  // ---------- Counting in a list of operations ----------

  /** What the counters of a day count. */
  datatype Counter = Connections | Directs | Proxied | Blocked | Failures | AdHits

  predicate Counts(c: Counter, op: Op, day: Date) {
    match c
    case Connections => op.Conn? && op.day == day
    case Directs => op.Conn? && op.day == day && op.action == "direct"
    case Proxied => op.Conn? && op.day == day && op.action == "proxy"
    case Blocked => op.Conn? && op.day == day && op.action == "block"
    case Failures => op.Conn? && op.day == day && op.failed
    case AdHits => op.Hit? && op.day == day
  }

  function Count(c: Counter, log: seq<Op>, day: Date): nat {
    if log == [] then 0
    else Count(c, log[..|log| - 1], day) + if Counts(c, log[|log| - 1], day) then 1 else 0
  }

  /** The bytes sent up (or down) on a day. */
  function DayBytes(up: bool, log: seq<Op>, day: Date): nat {
    if log == [] then 0
    else
      var last := log[|log| - 1];
      DayBytes(up, log[..|log| - 1], day)
      + if last.Traffic? && last.day == day then (if up then last.up else last.down) else 0
  }

  /** All bytes of a host. */
  function HostBytes(log: seq<Op>, host: string): nat {
    if log == [] then 0
    else
      var last := log[|log| - 1];
      HostBytes(log[..|log| - 1], host)
      + if last.Traffic? && last.key == host then last.up + last.down else 0
  }

  /** The blocked requests to a host. */
  function HostHits(log: seq<Op>, host: string): nat {
    if log == [] then 0
    else
      var last := log[|log| - 1];
      HostHits(log[..|log| - 1], host) + if last.Hit? && last.hit.host == host then 1 else 0
  }

  // ---------- What the data is to hold ----------

  /** One entry of the data: a day, a host with its traffic, or a blocked host. */
  datatype Item = OfDay(day: Date) | OfHost(host: string) | OfBlocked(host: string)

  predicate Held(i: Item, d: Data) {
    match i
    case OfDay(day) => day in d.days
    case OfHost(host) => host in d.domains
    case OfBlocked(host) => host in d.blocked
  }

  /** The entry says exactly what the list says; an entry that is missing counts as zero. */
  predicate Tallies(i: Item, d: Data, log: seq<Op>) {
    match i
    case OfDay(day) =>
      var x := DayAt(d, day);
      && x.conns == Count(Connections, log, day) && x.direct == Count(Directs, log, day)
      && x.proxy == Count(Proxied, log, day) && x.blocked == Count(Blocked, log, day)
      && x.failed == Count(Failures, log, day) && x.adBlocked == Count(AdHits, log, day)
      && x.up == DayBytes(true, log, day) && x.down == DayBytes(false, log, day)
    case OfHost(host) => (if host in d.domains then d.domains[host] else 0) == HostBytes(log, host)
    case OfBlocked(host) => (if host in d.blocked then d.blocked[host].count else 0) == HostHits(log, host)
  }

  lemma {:induction false} NothingTallied(i: Item, today: Date)
    ensures Tallies(i, EmptyData(today), [])
  {
  }

  /** The operations an entry goes back to: all of a run, but a restart falls back to those of the
      file, and pruning an entry away forgets its own. */
  datatype Past = Past(now: seq<Op>, flight: Option<seq<Op>>, file: Option<seq<Op>>)

  predicate Dropped(i: Item, st: State, op: Op) {
    op.Begin? && st.dirty && Held(i, st.book.data) && !Held(i, op.after)
  }

  function Later(i: Item, p: Past, st: State, op: Op): Past
    requires op.End? ==> st.flight.Some?
  {
    var now := if Dropped(i, st, op) then [] else p.now + [op];
    match op
    case Begin(marshalled, _) => p.(now := now, flight := if st.dirty && marshalled then Some(now) else p.flight)
    case End(ok) => p.(now := now, flight := None, file := if ok then p.flight else p.file)
    case Restart(_) => Past(if p.file.Some? then p.file.value else [], None, p.file)
    case _ => p.(now := now)
  }

  ghost function PastOf(i: Item, today: Date, run: seq<Op>): Past
    requires Execute(today, run).Some?
  {
    if run == [] then Past([], None, None)
    else
      var before := run[..|run| - 1];
      Later(i, PastOf(i, today, before), Execute(today, before).value, run[|run| - 1])
  }

  ghost predicate AllTally(i: Item, st: State, p: Past) {
    && Tallies(i, st.book.data, p.now)
    && (st.flight.Some? <==> p.flight.Some?) && (st.file.Some? <==> p.file.Some?)
    && (st.flight.Some? ==> Tallies(i, st.flight.value.data, p.flight.value))
    && (st.file.Some? ==> Tallies(i, st.file.value.data, p.file.value))
  }

  // ---------- Every step counts right ----------

  /** An operation that does not record leaves every count as it was. */
  lemma {:induction false} Uncounted(i: Item, d: Data, log: seq<Op>, op: Op)
    requires Tallies(i, d, log) && !op.Conn? && !op.Traffic? && !op.Hit?
    ensures Tallies(i, d, log + [op])
  {
    assert (log + [op])[..|log|] == log;
    hide DayAt;
  }

  /** What one more operation adds to the tallies of a day and of a host. */
  lemma {:induction false} OneMore(log: seq<Op>, op: Op, day: Date, host: string)
    ensures forall c :: Count(c, log + [op], day) == Count(c, log, day) + if Counts(c, op, day) then 1 else 0
    ensures var mine := op.Traffic? && op.day == day;
      && DayBytes(true, log + [op], day) == DayBytes(true, log, day) + (if mine then op.up else 0)
      && DayBytes(false, log + [op], day) == DayBytes(false, log, day) + (if mine then op.down else 0)
    ensures HostBytes(log + [op], host)
         == HostBytes(log, host) + if op.Traffic? && op.key == host then op.up + op.down else 0
    ensures HostHits(log + [op], host) == HostHits(log, host) + if op.Hit? && op.hit.host == host then 1 else 0
  {
    assert (log + [op])[..|log|] == log;
    hide Counts;
  }

  lemma {:induction false} ConnTallied(i: Item, d: Data, log: seq<Op>, op: Op)
    requires Tallies(i, d, log) && op.Conn?
    ensures Tallies(i, WithConn(d, op.day, op.action, op.failed), log + [op])
  {
    OneMore(log, op, if i.OfDay? then i.day else op.day, if i.OfDay? then "" else i.host);
    hide Count, DayBytes, HostBytes, HostHits;
  }

  lemma {:induction false} TrafficTallied(i: Item, d: Data, log: seq<Op>, op: Op)
    requires Tallies(i, d, log) && op.Traffic? && (i.OfHost? ==> i.host != "")
    ensures Tallies(i, WithTraffic(d, op.day, op.key, op.up, op.down), log + [op])
    ensures op.up == 0 && op.down == 0 ==> Tallies(i, d, log + [op])
  {
    OneMore(log, op, if i.OfDay? then i.day else op.day, if i.OfDay? then "" else i.host);
    hide Count, DayBytes, HostBytes, HostHits;
  }

  lemma {:induction false} HitTallied(i: Item, d: Data, log: seq<Op>, op: Op)
    requires Tallies(i, d, log) && op.Hit?
    ensures Tallies(i, WithHit(d, op.day, op.since, op.hit), log + [op])
  {
    OneMore(log, op, if i.OfDay? then i.day else op.day, if i.OfDay? then "" else i.host);
    hide LastHits, Count, DayBytes, HostBytes, HostHits;
  }

  lemma {:induction false} PruneTallied(i: Item, before: Data, after: Data, log: seq<Op>, op: Op)
    requires Tallies(i, before, log) && Pruned(before, after) && op.Begin?
    ensures Tallies(i, after, if Held(i, before) && !Held(i, after) then [] else log + [op])
  {
    Uncounted(i, before, log, op);
    hide LastHits, TopKept, Outranks;
    var log' := if Held(i, before) && !Held(i, after) then [] else log + [op];
    match i {
      case OfDay(day) => assert DayAt(after, day) == if day in after.days then DayAt(before, day) else ZERO;
      case OfHost(host) => HostKept(before.domains, after.domains, host);
      case OfBlocked(host) =>
    }
  }

  lemma HostKept(before: map<string, nat>, after: map<string, nat>, host: string)
    requires TopKept(before, after, MAX_HOSTS, false)
    ensures host in after ==> host in before && after[host] == before[host]
  {
    hide Outranks;
  }

  lemma {:induction false} StepTallied(i: Item, st: State, p: Past, op: Op)
    requires AllTally(i, st, p) && Possible(st, op) && (i.OfHost? ==> i.host != "")
    ensures AllTally(i, Apply(st, op), Later(i, p, st, op))
  {
    hide Tallies, Pruned, WithConn, WithTraffic, WithHit, Held, EmptyBook;
    var d := st.book.data;
    match op {
      case Conn(_, _, _) => ConnTallied(i, d, p.now, op);
      case Traffic(_, _, _, _) => TrafficTallied(i, d, p.now, op);
      case Hit(_, _, _) => HitTallied(i, d, p.now, op);
      case Begin(_, after) =>
        if st.dirty {
          PruneTallied(i, d, after, p.now, op);
        } else {
          Uncounted(i, d, p.now, op);
        }
      case End(_) => Uncounted(i, d, p.now, op);
      case Restart(today) =>
        NothingTallied(i, today);
        EmptyIsEmpty(today);
    }
  }

  lemma EmptyIsEmpty(today: Date)
    ensures EmptyBook(today).data == EmptyData(today)
  {
  }

  /** In every run, whatever failed and whenever the process was restarted, every entry is exactly
      the tally of the recordings it goes back to; and so is what the file holds. */
  lemma {:induction false} CountersAreTallies(i: Item, today: Date, run: seq<Op>)
    requires Execute(today, run).Some? && (i.OfHost? ==> i.host != "")
    ensures AllTally(i, Execute(today, run).value, PastOf(i, today, run))
  {
    hide Tallies, Possible, Apply, Later;
    if run == [] {
      NothingTallied(i, today);
      EmptyIsEmpty(today);
    } else {
      var before := run[..|run| - 1];
      CountersAreTallies(i, today, before);
      StepTallied(i, Execute(today, before).value, PastOf(i, today, before), run[|run| - 1]);
    }
  }

  ghost predicate StateAt(today: Date, run: seq<Op>, k: nat, i: Item)
    requires k < |run|
  {
    Execute(today, run[..k]).Some? && !Dropped(i, Execute(today, run[..k]).value, run[k]) && !run[k].Restart?
  }

  /** The process was never restarted and the entry never pruned away. */
  ghost predicate Undisturbed(i: Item, today: Date, run: seq<Op>) {
    forall k | 0 <= k < |run| :: StateAt(today, run, k, i)
  }

  /** Then every entry is the tally of the whole run: each day's connections by action and failure,
      its bytes and blocked requests, and the bytes and blocked requests of each host. */
  lemma {:induction false} RunIsTallied(i: Item, today: Date, run: seq<Op>)
    requires Execute(today, run).Some? && Undisturbed(i, today, run) && (i.OfHost? ==> i.host != "")
    ensures Tallies(i, Execute(today, run).value.book.data, run)
  {
    CountersAreTallies(i, today, run);
    WholePast(i, today, run);
    hide Tallies, Execute;
  }

  lemma {:induction false} WholePast(i: Item, today: Date, run: seq<Op>)
    requires Execute(today, run).Some? && Undisturbed(i, today, run)
    ensures PastOf(i, today, run).now == run
  {
    if run != [] {
      var before, n := run[..|run| - 1], |run| - 1;
      assert run[..n] == before;
      assert StateAt(today, run, n, i);
      ShorterUndisturbed(i, today, run);
      WholePast(i, today, before);
      hide Dropped, Apply, Possible, Later, Undisturbed;
      GoesOn(i, PastOf(i, today, before), Execute(today, before).value, run[n]);
      assert before + [run[n]] == run;
    }
  }

  lemma GoesOn(i: Item, p: Past, st: State, op: Op)
    requires (op.End? ==> st.flight.Some?) && !Dropped(i, st, op) && !op.Restart?
    ensures Later(i, p, st, op).now == p.now + [op]
  {
    hide Dropped;
  }

  lemma {:induction false} ShorterUndisturbed(i: Item, today: Date, run: seq<Op>)
    requires run != [] && Undisturbed(i, today, run)
    ensures Undisturbed(i, today, run[..|run| - 1])
  {
    var before := run[..|run| - 1];
    hide Execute, Dropped;
    forall k | 0 <= k < |before|
      ensures StateAt(today, before, k, i)
    {
      assert StateAt(today, run, k, i);
      assert before[..k] == run[..k] && before[k] == run[k];
    }
  }

  // ---------- Under which name a host is counted ----------

  /** In small letters, without the spaces around it and without a final dot. */
  lemma {:induction false} HostKeyMeaning(left: string, host: string, dot: bool, right: string)
    requires AllSpace(left) && AllSpace(right) && host != "" && Tight(host) && host[|host| - 1] != '.'
    ensures HostKey(left + (host + if dot then "." else "") + right) == ToLower(host)
  {
    hide TrimSpace, ToLower, TrimSuffix, AllSpace, Tight;
    DotDropped(host, dot);
    TrimSpaceMeaning(left, host + if dot then "." else "", right);
  }

  lemma DotDropped(host: string, dot: bool)
    requires host != "" && Tight(host) && host[|host| - 1] != '.'
    ensures Tight(host + if dot then "." else "")
    ensures TrimSuffix(host + if dot then "." else "", ".") == host
  {
    var written := host + if dot then "." else "";
    assert written[0] == host[0];
    if dot {
      assert written[|host|..] == "." && written[..|host|] == host;
    } else {
      assert written == host && host[|host| - 1..] == [host[|host| - 1]];
    }
  }

  // ---------- What stays ----------

  lemma {:induction false} AllKept<K, V>(before: map<K, V>, after: map<K, V>)
    requires after == (map k | k in before && k in after :: before[k]) && |after| == |before|
    ensures after == before
  {
    var a, b := after.Keys, before.Keys;
    assert a <= b && |a| == |b|;
    assert |b - a| == |b| - |a|;
    assert a == b;
  }

  /** Pruning leaves at most 90 days, 400 hosts and 400 blocked hosts, and drops none while there are
      no more; of the hits the last 100 stay. */
  lemma {:induction false} RetentionMeaning(before: Data, after: Data)
    requires Pruned(before, after)
    ensures |after.days| <= 90 && |after.domains| <= 400 && |after.blocked| <= 400 && |after.recent| <= 100
    ensures |before.days| <= 90 ==> after.days == before.days
    ensures |before.domains| <= 400 ==> after.domains == before.domains
    ensures |before.blocked| <= 400 ==> after.blocked == before.blocked
    ensures |before.recent| <= 100 ==> after.recent == before.recent
    ensures after.since == before.since && after.adTotal == before.adTotal && after.adSince == before.adSince
  {
    hide Outranks;
    CountsSize(before.blocked);
    CountsSize(after.blocked);
    if |before.days| <= 90 {
      AllKept(before.days, after.days);
    }
    if |before.domains| <= 400 {
      AllKept(before.domains, after.domains);
    }
    if |before.blocked| <= 400 {
      AllKept(before.blocked, after.blocked);
    }
  }

  lemma CountsSize(m: map<string, Aggregate>)
    ensures |Stats.Counts(m)| == |m|
  {
    assert Stats.Counts(m).Keys == m.Keys;
  }

  /** A negative number of bytes counts as none. */
  lemma ClampMeaning(n: int)
    ensures n <= 0 ==> Clamp(n) == 0
    ensures n > 0 ==> Clamp(n) == n
  {
  }

  /** A new store is clean, empty, and has no file. */
  lemma NewStore(today: Date)
    ensures AsView(Fresh(today)) == View(EmptyData(today), false, None, None)
    ensures Fresh(today).start == Fresh(today).book
  {
  }

  predicate DropsNothing(st: State, op: Op) {
    op.Begin? && st.dirty ==> op.after.days == st.book.data.days && op.after.blocked == st.book.data.blocked
  }

  ghost predicate NothingDropped(today: Date, run: seq<Op>) {
    forall k | 0 <= k < |run| :: KeepsAll(today, run, k)
  }

  ghost predicate KeepsAll(today: Date, run: seq<Op>, k: nat)
    requires k < |run|
  {
    Execute(today, run[..k]).Some? ==> DropsNothing(Execute(today, run[..k]).value, run[k])
  }

  predicate Complete(b: Book) {
    !b.daysDropped && !b.hostsDropped
  }

  /** As long as no pruning drops a day or a blocked host, the sums over days and hosts are exact. */
  lemma {:induction false} SumsExact(today: Date, run: seq<Op>)
    requires Execute(today, run).Some? && NothingDropped(today, run)
    ensures var st := Execute(today, run).value;
      && Complete(st.book)
      && (st.flight.Some? ==> Complete(st.flight.value)) && (st.file.Some? ==> Complete(st.file.value))
  {
    if run != [] {
      var before, n := run[..|run| - 1], |run| - 1;
      assert run[..n] == before;
      assert KeepsAll(today, run, n);
      forall k | 0 <= k < |before|
        ensures KeepsAll(today, before, k)
      {
        assert KeepsAll(today, run, k);
        assert before[..k] == run[..k] && before[k] == run[k];
      }
      SumsExact(today, before);
      hide NothingDropped, KeepsAll, WithConn, WithTraffic, WithHit, Pruned;
    }
  }

  /** Which days and which blocked hosts stay is determined. */
  lemma {:induction false} PruningIsUnique(before: Data, a: Data, b: Data)
    requires Pruned(before, a) && Pruned(before, b)
    ensures a.days == b.days && a.blocked == b.blocked
  {
    hide LastHits, Outranks, TopKept;
    LatestIsUnique(before.days, a.days, b.days, MAX_DAYS);
    TopIsUnique(Stats.Counts(before.blocked), Stats.Counts(a.blocked), Stats.Counts(b.blocked), MAX_HOSTS);
    assert Stats.Counts(a.blocked).Keys == a.blocked.Keys && Stats.Counts(b.blocked).Keys == b.blocked.Keys;
    assert a.blocked.Keys == b.blocked.Keys;
  }

  lemma {:induction false} LatestIsUnique(m: map<Date, Day>, a: map<Date, Day>, b: map<Date, Day>, limit: nat)
    requires LatestKept(m, a, limit) && LatestKept(m, b, limit)
    ensures a == b
  {
    if !(a.Keys <= b.Keys) {
      var k :| k in a.Keys && k !in b.Keys;
      SomeMissing(a.Keys, b.Keys, k);
      var j :| j in b.Keys && j !in a.Keys;
      assert false;
    }
    assert |b.Keys - a.Keys| == |b.Keys| - |a.Keys|;
    assert a.Keys == b.Keys;
  }

  lemma SomeMissing<K>(a: set<K>, b: set<K>, k: K)
    requires |a| == |b| && k in a && k !in b
    ensures !(b <= a)
  {
    assert k in a - b && |a - b| > 0;
    assert b <= a ==> |a - b| == |a| - |b|;
  }

  /** When the first blocked request of a run was recorded. */
  function FirstHit(run: seq<Op>): Option<Date> {
    if run == [] then None
    else
      var before, last := FirstHit(run[..|run| - 1]), run[|run| - 1];
      if before.None? && last.Hit? then Some(last.since) else before
  }

  /** The ad statistics date from the first blocked request, over every run without a restart. */
  lemma {:induction false} AdSinceMeaning(today: Date, run: seq<Op>)
    requires Execute(today, run).Some? && forall k | 0 <= k < |run| :: !run[k].Restart?
    ensures Execute(today, run).value.book.data.adSince == FirstHit(run)
  {
    if run != [] {
      var before := run[..|run| - 1];
      AdSinceMeaning(today, before);
      AdSinceMoves(Execute(today, before).value, run[|run| - 1]);
      hide Apply, Possible;
    }
  }

  lemma AdSinceMoves(st: State, op: Op)
    requires Possible(st, op) && !op.Restart?
    ensures Apply(st, op).book.data.adSince
         == if st.book.data.adSince.None? && op.Hit? then Some(op.since) else st.book.data.adSince
  {
    hide LatestKept, TopKept, Outranks, LastHits, CountConn, AddBytes, AddDomain;
  }
}
