/** What holds after any interleaving of recorders, flushes with I/O failures, and restarts. */
module StatsRuns {
  import opened Common
  import opened Text
  import opened Stats
  import opened MapSum

  /** The data with the ad hits that went into it, and whether pruning has dropped anything. */
  datatype Book = Book(data: Data, hits: seq<Hit>, daysDropped: bool, hostsDropped: bool)

  /** The store between critical sections; `start` is what was loaded when the process began. */
  datatype State = State(book: Book, dirty: bool, flight: Option<Book>, file: Option<Book>, start: Book)

  datatype Op =
    | Conn(day: Date, action: string, failed: bool)
    | Traffic(day: Date, key: string, up: nat, down: nat)
    | Hit(day: Date, since: Date, hit: Stats.Hit)
    | Begin(marshalled: bool, after: Data)
    | End(ok: bool)
    | Restart(today: Date)

  function EmptyBook(today: Date): Book {
    Book(EmptyData(today), [], false, false)
  }

  function Fresh(today: Date): State {
    State(EmptyBook(today), false, None, None, EmptyBook(today))
  }

  ghost predicate Possible(st: State, op: Op) {
    match op
    case Begin(_, after) => st.flight.None? && (st.dirty ==> Pruned(st.book.data, after))
    case End(_) => st.flight.Some?
    case _ => true
  }

  function Touched(st: State, book: Book): State {
    st.(book := book, dirty := true)
  }

  function PrunedBook(b: Book, after: Data): Book {
    Book(after, b.hits, b.daysDropped || after.days != b.data.days, b.hostsDropped || after.blocked != b.data.blocked)
  }

  function Opened(file: Option<Book>, today: Date): Book {
    if file.Some? then file.value else EmptyBook(today)
  }

  function Apply(st: State, op: Op): State
    requires op.End? ==> st.flight.Some?
  {
    var b := st.book;
    match op
    case Conn(day, action, failed) => Touched(st, b.(data := WithConn(b.data, day, action, failed)))
    case Traffic(day, key, up, down) =>
      if up == 0 && down == 0 then st else Touched(st, b.(data := WithTraffic(b.data, day, key, up, down)))
    case Hit(day, since, hit) =>
      Touched(st, b.(data := WithHit(b.data, day, since, hit), hits := b.hits + [hit]))
    case Begin(marshalled, after) =>
      if !st.dirty then st
      else
        var p := PrunedBook(b, after);
        if marshalled then st.(book := p, dirty := false, flight := Some(p)) else st.(book := p)
    case End(ok) =>
      if ok then st.(flight := None, file := st.flight) else st.(flight := None, dirty := true)
    case Restart(today) =>
      var loaded := Opened(st.file, today);
      State(loaded, false, None, st.file, loaded)
  }

  /** The state after a run from an empty store, if every step of it was possible. */
  ghost function Execute(today: Date, run: seq<Op>): Option<State> {
    if run == [] then Some(Fresh(today))
    else
      match Execute(today, run[..|run| - 1])
      case None => None
      case Some(st) =>
        if Possible(st, run[|run| - 1]) then Some(Apply(st, run[|run| - 1])) else None
  }

  /** Each operation is what the store's methods do, read as views. */
  function AsView(st: State): View {
    View(st.book.data, st.dirty,
         if st.flight.Some? then Some(st.flight.value.data) else None,
         if st.file.Some? then Some(st.file.value.data) else None)
  }

  lemma {:induction false} RunsAreFlushes(st: State, op: Op)
    requires Possible(st, op)
    ensures op.Begin? ==>
      Begun(AsView(st), AsView(Apply(st, op)), op.marshalled)
    ensures op.End? ==> AsView(Apply(st, op)) == Ended(AsView(st), op.ok)
    ensures op.Restart? ==> AsView(Apply(st, op)).data == Loaded(AsView(st).file, op.today)
  {
    hide Pruned;
  }

  // ---------- Conservation ----------

  predicate DayBalanced(d: Day) {
    d.direct + d.proxy + d.blocked <= d.conns && d.failed <= d.conns
  }

  predicate DaysBalanced(days: map<Date, Day>) {
    forall k | k in days :: DayBalanced(days[k])
  }

  function AdDays(days: map<Date, Day>): map<Date, nat> {
    map k | k in days :: days[k].adBlocked
  }

  /** The counters agree with what was recorded; sums are exact until pruning drops something. */
  ghost predicate Conserved(b: Book) {
    && DaysBalanced(b.data.days)
    && b.data.adTotal == |b.hits|
    && b.data.recent == LastHits(b.hits)
    && Sum(AdDays(b.data.days)) <= b.data.adTotal
    && (!b.daysDropped ==> Sum(AdDays(b.data.days)) == b.data.adTotal)
    && Sum(Counts(b.data.blocked)) <= b.data.adTotal
    && (!b.hostsDropped ==> Sum(Counts(b.data.blocked)) == b.data.adTotal)
  }

  lemma EmptyConserved(today: Date)
    ensures Conserved(EmptyBook(today))
  {
    assert AdDays(map[]) == map[] && Counts(map[]) == map[];
  }

  lemma DayChanged(days: map<Date, Day>, day: Date, x: Day)
    ensures Sum(AdDays(days[day := x])) ==
      Sum(AdDays(days)) - (if day in days then days[day].adBlocked else 0) + x.adBlocked
  {
    var m := AdDays(days);
    assert AdDays(days[day := x]) == m[day := x.adBlocked];
    if day in days {
      SumUpdate(m, day, x.adBlocked);
    } else {
      SumInsert(m, day, x.adBlocked);
    }
  }

  lemma HostChanged(blocked: map<string, Aggregate>, host: string, x: Aggregate)
    ensures Sum(Counts(blocked[host := x])) ==
      Sum(Counts(blocked)) - (if host in blocked then blocked[host].count else 0) + x.count
  {
    var m := Counts(blocked);
    assert Counts(blocked[host := x]) == m[host := x.count];
    if host in blocked {
      SumUpdate(m, host, x.count);
    } else {
      SumInsert(m, host, x.count);
    }
  }

  lemma ConnConserved(b: Book, day: Date, action: string, failed: bool)
    requires Conserved(b)
    ensures Conserved(b.(data := WithConn(b.data, day, action, failed)))
  {
    var x := CountConn(DayAt(b.data, day), action, failed);
    DayChanged(b.data.days, day, x);
    assert DayBalanced(DayAt(b.data, day));
    assert DayBalanced(x);
    hide CountConn, LastHits;
  }

  lemma TrafficConserved(b: Book, day: Date, key: string, up: nat, down: nat)
    requires Conserved(b)
    ensures Conserved(b.(data := WithTraffic(b.data, day, key, up, down)))
  {
    hide LastHits, Sum, AdDays, AddDomain, Counts;
    var x := DayAt(b.data, day);
    DayChanged(b.data.days, day, AddBytes(x, up, down));
    assert DayBalanced(AddBytes(x, up, down));
  }

  /** The last hundred of a history do not need the rest of it. */
  lemma LastHitsAppend(s: seq<Stats.Hit>, hit: Stats.Hit)
    ensures LastHits(LastHits(s) + [hit]) == LastHits(s + [hit])
  {
  }

  lemma HitConserved(b: Book, day: Date, since: Date, hit: Stats.Hit)
    requires Conserved(b)
    ensures Conserved(b.(data := WithHit(b.data, day, since, hit), hits := b.hits + [hit]))
  {
    hide LastHits, Sum, AdDays, Counts;
    var x := DayAt(b.data, day);
    var count := if hit.host in b.data.blocked then b.data.blocked[hit.host].count else 0;
    DayChanged(b.data.days, day, x.(adBlocked := x.adBlocked + 1));
    HostChanged(b.data.blocked, hit.host, Aggregate(count + 1, hit.at));
    LastHitsAppend(b.hits, hit);
    assert DayBalanced(x);
  }

  lemma {:induction false} PruneConserved(b: Book, after: Data)
    requires Conserved(b) && Pruned(b.data, after)
    ensures Conserved(PrunedBook(b, after))
  {
    hide Sum, AdDays, Counts, LastHits, TopKept;
    FewerDays(b.data.days, after.days);
    FewerHosts(b.data.blocked, after.blocked);
    LastHitsTwice(b.hits);
  }

  lemma LastHitsTwice(s: seq<Stats.Hit>)
    ensures LastHits(LastHits(s)) == LastHits(s)
  {
  }

  lemma FewerDays(days: map<Date, Day>, after: map<Date, Day>)
    requires after == map k | k in days && k in after :: days[k]
    ensures Sum(AdDays(after)) <= Sum(AdDays(days))
  {
    SumRestrict(AdDays(days), after.Keys);
    assert (map k | k in AdDays(days) && k in after.Keys :: AdDays(days)[k]) == AdDays(after);
  }

  lemma FewerHosts(blocked: map<string, Aggregate>, after: map<string, Aggregate>)
    requires after == map k | k in blocked && k in after :: blocked[k]
    ensures Sum(Counts(after)) <= Sum(Counts(blocked))
  {
    SumRestrict(Counts(blocked), after.Keys);
    assert (map k | k in Counts(blocked) && k in after.Keys :: Counts(blocked)[k]) == Counts(after);
  }

  // ---------- The invariant ----------

  /** With no flush in flight and no unsaved change, the file holds the data; if there is no file
      nothing has been recorded since the start. */
  ghost predicate Saved(st: State) {
    !st.dirty ==>
      if st.flight.Some? then st.flight == Some(st.book)
      else if st.file.Some? then st.file == Some(st.book)
      else st.book == st.start
  }

  ghost predicate Inv(st: State) {
    && Saved(st)
    && Conserved(st.book) && Conserved(st.start)
    && (st.flight.Some? ==> Conserved(st.flight.value))
    && (st.file.Some? ==> Conserved(st.file.value))
  }

  lemma StepKept(st: State, op: Op)
    requires Inv(st) && Possible(st, op)
    ensures Inv(Apply(st, op))
  {
    hide Conserved, Pruned, WithConn, WithTraffic, WithHit, EmptyBook, PrunedBook;
    match op {
      case Conn(day, action, failed) => ConnConserved(st.book, day, action, failed);
      case Traffic(day, key, up, down) => TrafficConserved(st.book, day, key, up, down);
      case Hit(day, since, hit) => HitConserved(st.book, day, since, hit);
      case Begin(_, after) =>
        if st.dirty {
          PruneConserved(st.book, after);
        }
      case End(_) =>
      case Restart(today) => EmptyConserved(today);
    }
  }

  lemma {:induction false} InvariantOfRuns(today: Date, run: seq<Op>)
    requires Execute(today, run).Some?
    ensures Inv(Execute(today, run).value)
  {
    hide Conserved, Possible, Apply;
    if run == [] {
      EmptyConserved(today);
    } else {
      InvariantOfRuns(today, run[..|run| - 1]);
      StepKept(Execute(today, run[..|run| - 1]).value, run[|run| - 1]);
    }
  }

  /** Flushing loses nothing, whatever failed on the way: with nothing unsaved and no flush under
      way the file is the data, and without a file there is nothing to save. */
  lemma FileHoldsData(today: Date, run: seq<Op>)
    requires Execute(today, run).Some?
    ensures var st := Execute(today, run).value;
      !st.dirty && st.flight.None? ==> if st.file.Some? then st.file == Some(st.book) else st.book == st.start
  {
    hide Execute, Conserved;
    InvariantOfRuns(today, run);
  }

  /** After a flush that succeeds with no write during it, a restart finds all of the data. */
  lemma {:induction false} FinalFlushPersists(today: Date, run: seq<Op>, after: Data, later: Date)
    requires Execute(today, run).Some? && Possible(Execute(today, run).value, Begin(true, after))
    requires Execute(today, run).value.dirty
    ensures var st := Execute(today, run + [Begin(true, after)] + [End(true)] + [Restart(later)]);
      st.Some? && st.value.book == PrunedBook(Execute(today, run).value.book, after)
  {
    hide Execute, Conserved, Pruned, PrunedBook;
    var begin, end := Begin(true, after), End(true);
    var st := Execute(today, run).value;
    Extend(today, run, begin);
    Extend(today, run + [begin], end);
    Extend(today, run + [begin] + [end], Restart(later));
  }

  lemma Extend(today: Date, run: seq<Op>, op: Op)
    requires Execute(today, run).Some? && Possible(Execute(today, run).value, op)
    ensures Execute(today, run + [op]) == Some(Apply(Execute(today, run).value, op))
  {
    assert (run + [op])[..|run|] == run;
  }

  /** Counters are conserved in every reachable state. */
  lemma CountersConserved(today: Date, run: seq<Op>)
    requires Execute(today, run).Some?
    ensures var b := Execute(today, run).value.book;
      && (forall k | k in b.data.days :: DayBalanced(b.data.days[k]))
      && b.data.adTotal == |b.hits| && b.data.recent == LastHits(b.hits)
      && Sum(AdDays(b.data.days)) <= b.data.adTotal && Sum(Counts(b.data.blocked)) <= b.data.adTotal
      && (!b.daysDropped ==> Sum(AdDays(b.data.days)) == b.data.adTotal)
      && (!b.hostsDropped ==> Sum(Counts(b.data.blocked)) == b.data.adTotal)
  {
    hide Execute, Sum, AdDays, Counts, LastHits;
    InvariantOfRuns(today, run);
  }
}
