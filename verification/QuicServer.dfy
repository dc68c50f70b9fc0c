/** The whole relay: one reader, one session table, and the tasks of every session in any
    interleaving. */
module QuicServer {
  import opened Common
  import opened QuicSessions

  /** Where the read loop is. */
  datatype Reader = Reading | Delivering(sid: nat, d: Dgram) | Writing(sid: nat, d: Dgram) | AbortingSession(sid: nat)

  /** Sessions are numbered in order of creation, remotes in order of dialling. */
  datatype State = State(sessions: seq<Session>, table: map<string, nat>, reader: Reader,
                         dialled: nat, arrivals: nat)

  datatype Step = Receive(key: string, longHeader: bool, size: nat) | Act(sid: nat, e: Event)

  const INIT := State([], map[], Reading, 0, 0)

  predicate Possible(st: State, step: Step) {
    match step
    case Receive(_, _, _) => st.reader.Reading?
    case Act(sid, e) =>
      && sid < |st.sessions| && Enabled(st.sessions[sid], e)
      && (e.Deliver? ==> st.reader == Delivering(sid, e.d))
      && (e.WriteThrough? ==> st.reader == Writing(sid, e.d))
      && (e == Finish(Aborting) ==> st.reader == AbortingSession(sid))
      && (e.Dial? ==> e.r == st.dialled)
  }

  /** `dispatch`: an unknown sender opens a session only with a long header and below the limit. */
  function Dispatched(st: State, key: string, longHeader: bool, size: nat): State {
    var d := Dgram(st.arrivals, size);
    var st := st.(arrivals := st.arrivals + 1);
    if key in st.table then st.(reader := Delivering(st.table[key], d))
    else if !longHeader || |st.table| >= MAX_SESSIONS then st
    else
      var sid := |st.sessions|;
      st.(sessions := st.sessions + [NewSession(key)], table := st.table[key := sid], reader := Delivering(sid, d))
  }

  /** Where the reader goes after its part of `onDatagram`. */
  function NextReader(s: Session, sid: nat, e: Event, reader: Reader): Reader {
    if e.Deliver? then
      if !s.closer.Open? then Reading
      else if s.remote.Some? then Writing(sid, e.d)
      else if !s.resolving && e.outcome.Unreadable? then AbortingSession(sid)
      else Reading
    else if e.WriteThrough? || e == Finish(Aborting) then Reading
    else reader
  }

  function Acted(st: State, sid: nat, e: Event): State
    requires sid < |st.sessions| && Enabled(st.sessions[sid], e)
  {
    var s := st.sessions[sid];
    State(
      st.sessions[sid := Advance(s, e)],
      if e.DeleteEntry? then st.table - {s.key} else st.table,
      NextReader(s, sid, e, st.reader),
      if e.Dial? then st.dialled + 1 else st.dialled,
      st.arrivals)
  }

  function Apply(st: State, step: Step): State
    requires Possible(st, step)
  {
    match step
    case Receive(key, longHeader, size) => Dispatched(st, key, longHeader, size)
    case Act(sid, e) => Acted(st, sid, e)
  }

  /** The state after a run, if every step of it was possible. */
  function Execute(run: seq<Step>): Option<State> {
    if run == [] then Some(INIT)
    else
      match Execute(run[..|run| - 1])
      case None => None
      case Some(st) =>
        if Possible(st, run[|run| - 1]) then Some(Apply(st, run[|run| - 1])) else None
  }

  // ---------- The invariant ----------

  /** The session has not been taken out of the table yet. */
  predicate Registered(s: Session) {
    s.closer.Open? || s.closer.Closing? || s.closer.Deleting?
  }

  /** The table leads to the registered sessions, each under its key. */
  ghost predicate Entries(sessions: seq<Session>, table: map<string, nat>) {
    && (forall key | key in table :: table[key] < |sessions| && sessions[table[key]].key == key
          && Registered(sessions[table[key]]))
    && (forall i | 0 <= i < |sessions| && Registered(sessions[i]) ::
          sessions[i].key in table && table[sessions[i].key] == i)
  }

  ghost predicate TableOk(st: State) {
    |st.table| <= MAX_SESSIONS && Entries(st.sessions, st.table)
  }

  ghost predicate AllGood(sessions: seq<Session>) {
    forall i | 0 <= i < |sessions| :: Good(sessions[i])
  }

  predicate Owns(s: Session, r: nat) {
    s.dialled == Some(r)
  }

  ghost predicate Owned(sessions: seq<Session>, r: nat) {
    exists i | 0 <= i < |sessions| :: Owns(sessions[i], r)
  }

  /** Every remote was dialled by exactly one session. */
  ghost predicate RemotesNumbered(sessions: seq<Session>, dialled: nat) {
    && (forall r | 0 <= r < dialled :: Owned(sessions, r))
    && (forall i | 0 <= i < |sessions| && sessions[i].dialled.Some? :: sessions[i].dialled.value < dialled)
    && (forall i, j | 0 <= i < |sessions| && 0 <= j < |sessions| && sessions[i].dialled.Some?
          && sessions[i].dialled == sessions[j].dialled :: i == j)
  }

  ghost predicate ArrivedBy(sessions: seq<Session>, n: nat) {
    forall i | 0 <= i < |sessions| :: After(sessions[i].arrived) <= n
  }

  ghost predicate ReaderOk(st: State) {
    match st.reader
    case Reading => ArrivedBy(st.sessions, st.arrivals)
    case Delivering(sid, d) => sid < |st.sessions| && ArrivedBy(st.sessions, d.no) && d.no < st.arrivals
    case Writing(sid, d) => sid < |st.sessions| && ArrivedBy(st.sessions, st.arrivals) && Newest(st.sessions[sid], d)
    case AbortingSession(sid) => sid < |st.sessions| && ArrivedBy(st.sessions, st.arrivals)
  }

  ghost predicate Inv(st: State) {
    TableOk(st) && AllGood(st.sessions) && RemotesNumbered(st.sessions, st.dialled) && ReaderOk(st)
  }

  // ---------- Every step keeps it ----------

  lemma ReceiveKept(st: State, key: string, longHeader: bool, size: nat)
    requires Inv(st) && st.reader.Reading?
    ensures Inv(Dispatched(st, key, longHeader, size))
  {
    ReceiveTable(st, key, longHeader, size);
    NewIsGood(key);
    NewIsPlain(key);
    MoreSessions(st.sessions, st.dialled, NewSession(key));
    ReceiveRead(st, key, longHeader, size);
    hide TableOk, Good, After, NewSession, RemotesNumbered, ReaderOk;
  }

  lemma ReceiveRead(st: State, key: string, longHeader: bool, size: nat)
    requires TableOk(st) && ReaderOk(st) && st.reader.Reading?
    ensures ReaderOk(Dispatched(st, key, longHeader, size))
  {
    hide After, NewSession, Registered;
    NewIsPlain(key);
  }

  lemma NewIsPlain(key: string)
    ensures var s := NewSession(key);
      s.dialled.None? && After(s.arrived) == 0 && s.key == key && Registered(s)
  {
  }

  lemma ReceiveTable(st: State, key: string, longHeader: bool, size: nat)
    requires TableOk(st)
    ensures TableOk(Dispatched(st, key, longHeader, size))
  {
    hide NewSession, Registered, After;
    NewIsPlain(key);
  }

  lemma MoreSessions(sessions: seq<Session>, dialled: nat, s: Session)
    requires RemotesNumbered(sessions, dialled) && s.dialled.None?
    ensures RemotesNumbered(sessions + [s], dialled)
  {
    forall r | 0 <= r < dialled
      ensures Owned(sessions + [s], r)
    {
      assert Owned(sessions, r);
      var i :| 0 <= i < |sessions| && Owns(sessions[i], r);
      assert Owns((sessions + [s])[i], r);
    }
  }

  predicate SameBut(t: Session, s: Session, arrived: seq<Dgram>) {
    t.key == s.key && t.dialled == s.dialled && t.arrived == arrived && (Registered(t) <==> Registered(s))
  }

  /** Which fields a step may touch. */
  lemma {:induction false} Untouched(s: Session, e: Event)
    requires Enabled(s, e)
    ensures var t := Advance(s, e);
      && t.key == s.key
      && t.dialled == (if e.Dial? then Some(e.r) else s.dialled)
      && t.arrived == (if e.Deliver? then s.arrived + [e.d] else s.arrived)
      && (Registered(t) <==> Registered(s) && !e.DeleteEntry?)
  {
    hide Delivered, FinishedBy, Connected, Replayed;
    match e {
      case Deliver(d, outcome) => DeliverTouches(s, d, outcome);
      case Finish(caller) => FinishTouches(s, caller);
      case Connect(action) => ConnectTouches(s, action);
      case Replay(written, failed) => ReplayTouches(s, written, failed);
      case _ =>
    }
  }

  lemma DeliverTouches(s: Session, d: Dgram, outcome: Outcome)
    ensures SameBut(Delivered(s, d, outcome), s, s.arrived + [d])
  {
    hide Buffered;
    var a := Arrived(s, d);
    BufferTouches(a, d);
  }

  lemma BufferTouches(s: Session, d: Dgram)
    ensures SameBut(Buffered(s, d), s, s.arrived)
  {
  }

  lemma CloseTouches(s: Session, host: string, action: string)
    ensures SameBut(Finished(s, host, action), s, s.arrived)
    ensures Finished(s, host, action).pumping == s.pumping && Finished(s, host, action).connector == s.connector
  {
  }

  lemma FinishTouches(s: Session, caller: Caller)
    ensures SameBut(FinishedBy(s, caller), s, s.arrived)
  {
    hide Finished;
    match caller {
      case Janitor => CloseTouches(s, "", "");
      case Aborting => CloseTouches(s, "", "nohost");
      case Pumping => CloseTouches(s, s.host, s.action);
      case Connecting =>
        if s.connector.GivingUp? {
          CloseTouches(s, s.host, s.connector.action);
        }
    }
  }

  lemma ConnectTouches(s: Session, action: string)
    ensures SameBut(Connected(s, action), s, s.arrived)
  {
  }

  lemma ReplayTouches(s: Session, written: bool, failed: bool)
    ensures SameBut(Replayed(s, written, failed), s, s.arrived)
  {
  }

  lemma {:induction false} TableKept(st: State, sid: nat, e: Event)
    requires TableOk(st) && sid < |st.sessions| && Enabled(st.sessions[sid], e)
    ensures TableOk(Acted(st, sid, e))
  {
    var s := st.sessions[sid];
    if e.DeleteEntry? {
      assert Registered(s);
    }
    hide Advance, Enabled, Registered, NextReader;
    Untouched(s, e);
    var t := Advance(s, e);
    if e.DeleteEntry? {
      EntryDeleted(st.sessions, st.table, sid, t);
    } else {
      EntryStays(st.sessions, st.table, sid, t);
    }
  }

  lemma EntryStays(sessions: seq<Session>, table: map<string, nat>, sid: nat, t: Session)
    requires Entries(sessions, table) && sid < |sessions|
    requires t.key == sessions[sid].key && (Registered(t) <==> Registered(sessions[sid]))
    ensures Entries(sessions[sid := t], table)
  {
    hide Registered;
  }

  lemma EntryDeleted(sessions: seq<Session>, table: map<string, nat>, sid: nat, t: Session)
    requires Entries(sessions, table) && sid < |sessions|
    requires t.key == sessions[sid].key && Registered(sessions[sid]) && !Registered(t)
    ensures Entries(sessions[sid := t], table - {sessions[sid].key})
    ensures |table - {sessions[sid].key}| <= |table|
  {
    hide Registered;
  }

  lemma {:induction false} NumberedKept(st: State, sid: nat, e: Event)
    requires RemotesNumbered(st.sessions, st.dialled) && sid < |st.sessions| && Enabled(st.sessions[sid], e)
    requires e.Dial? ==> e.r == st.dialled && st.sessions[sid].dialled.None?
    ensures var st' := Acted(st, sid, e); RemotesNumbered(st'.sessions, st'.dialled)
  {
    hide Advance, Enabled, NextReader;
    var s := st.sessions[sid];
    Untouched(s, e);
    var st' := Acted(st, sid, e);
    forall r | 0 <= r < st'.dialled
      ensures Owned(st'.sessions, r)
    {
      if e.Dial? && r == st.dialled {
        assert Owns(st'.sessions[sid], r);
      } else {
        assert Owned(st.sessions, r);
        var i :| 0 <= i < |st.sessions| && Owns(st.sessions[i], r);
        assert Owns(st'.sessions[i], r);
      }
    }
  }

  lemma ArrivedMore(sessions: seq<Session>, sid: nat, t: Session, m: nat, n: nat)
    requires ArrivedBy(sessions, m) && sid < |sessions| && m <= n && After(t.arrived) <= n
    ensures ArrivedBy(sessions[sid := t], n)
  {
    hide After;
  }

  /** The reader's own step. */
  lemma {:induction false} DeliveryRead(st: State, sid: nat, e: Event)
    requires ReaderOk(st) && Possible(st, Act(sid, e)) && Good(st.sessions[sid]) && e.Deliver?
    ensures ReaderOk(Acted(st, sid, e))
  {
    hide Advance, Enabled, Good, Newest, After;
    var s := st.sessions[sid];
    var t := Advance(s, e);
    Untouched(s, e);
    LastArrived(s.arrived, e.d);
    ArrivedMore(st.sessions, sid, t, e.d.no, st.arrivals);
    if s.closer.Open? && s.remote.Some? {
      DeliveredIsNewest(s, e.d, e.outcome);
      IsDelivered(s, e);
    }
  }

  lemma IsDelivered(s: Session, e: Event)
    requires Enabled(s, e) && e.Deliver?
    ensures Advance(s, e) == Delivered(s, e.d, e.outcome)
  {
    hide Delivered;
  }

  lemma {:induction false} ReaderKept(st: State, sid: nat, e: Event)
    requires ReaderOk(st) && Possible(st, Act(sid, e)) && Good(st.sessions[sid])
    ensures ReaderOk(Acted(st, sid, e))
  {
    hide Advance, Enabled, Good, Newest, After;
    var s := st.sessions[sid];
    var t := Advance(s, e);
    if e.Deliver? {
      DeliveryRead(st, sid, e);
    } else {
      Untouched(s, e);
      var n := if st.reader.Delivering? then st.reader.d.no else st.arrivals;
      ArrivedMore(st.sessions, sid, t, n, n);
      if st.reader.Writing? && st.reader.sid == sid && !e.WriteThrough? {
        NewestKept(s, e, st.reader.d);
      }
    }
  }

  lemma LastArrived(s: seq<Dgram>, d: Dgram)
    ensures After(s + [d]) == d.no + 1
  {
  }

  /** A datagram handed over to an open relay is the newest of its session. */
  lemma DeliveredIsNewest(s: Session, d: Dgram, outcome: Outcome)
    requires Good(s) && After(s.arrived) <= d.no
    ensures s.closer.Open? && s.remote.Some? ==> Newest(Delivered(s, d, outcome), d)
  {
    BelowAfter(s.arrived);
  }

  lemma {:induction false} ActKept(st: State, sid: nat, e: Event)
    requires Inv(st) && Possible(st, Act(sid, e))
    ensures Inv(Acted(st, sid, e))
  {
    var s := st.sessions[sid];
    TableKept(st, sid, e);
    assert e.Dial? ==> s.dialled.None?;
    NumberedKept(st, sid, e);
    ReaderKept(st, sid, e);
    assert Fits(s, e);
    GoodKept(s, e);
    hide TableOk, RemotesNumbered, ReaderOk, Good, Advance, Enabled;
  }

  lemma {:induction false} InvariantOfRuns(run: seq<Step>)
    requires Execute(run).Some?
    ensures Inv(Execute(run).value)
  {
    hide Inv, Possible, Apply;
    if run == [] {
      InitOk();
    } else {
      var st, step := Execute(run[..|run| - 1]).value, run[|run| - 1];
      InvariantOfRuns(run[..|run| - 1]);
      StepKept(st, step);
    }
  }

  lemma InitOk()
    ensures Inv(INIT)
  {
  }

  lemma {:induction false} StepKept(st: State, step: Step)
    requires Inv(st) && Possible(st, step)
    ensures Inv(Apply(st, step))
  {
    hide Inv, Dispatched, Acted;
    match step {
      case Receive(key, longHeader, size) => ReceiveKept(st, key, longHeader, size);
      case Act(sid, e) => ActKept(st, sid, e);
    }
  }

  // ---------- What holds in every run ----------

  /** The table is bounded, and an entry leads to the session of its key. */
  lemma {:induction false} TableBounded(run: seq<Step>)
    requires Execute(run).Some?
    ensures var st := Execute(run).value;
      && |st.table| <= MAX_SESSIONS
      && forall key | key in st.table ::
           st.table[key] < |st.sessions| && st.sessions[st.table[key]].key == key
  {
    hide Execute;
    InvariantOfRuns(run);
  }

  /** `finish` deletes only its own entry: when it gets to it, the key still leads to the very
      session being finished, even if its sender has come back since. */
  lemma {:induction false} DeletesOwnEntry(run: seq<Step>, sid: nat)
    requires Execute(run).Some? && Possible(Execute(run).value, Act(sid, DeleteEntry))
    ensures var st := Execute(run).value;
      st.sessions[sid].key in st.table && st.table[st.sessions[sid].key] == sid
  {
    InvariantOfRuns(run);
    hide Execute;
  }

  /** Connect is started at most once per session, and so is its pump. */
  lemma {:induction false} ConnectsOnce(run: seq<Step>, sid: nat)
    requires Execute(run).Some? && sid < |Execute(run).value.sessions|
    ensures Execute(run).value.sessions[sid].connects <= 1 && Execute(run).value.sessions[sid].pumps <= 1
  {
    hide Execute;
    InvariantOfRuns(run);
    assert Good(Execute(run).value.sessions[sid]);
  }

  /** A session is reported at most once; once its tasks are done, exactly when it was counted. */
  lemma ReportedOnce(run: seq<Step>, sid: nat)
    requires Execute(run).Some? && sid < |Execute(run).value.sessions|
    ensures var s := Execute(run).value.sessions[sid];
      s.reports <= 1 && (Owed(s) == 0 ==> (s.reports == 1 <==> s.counted))
  {
    hide Execute;
    InvariantOfRuns(run);
    assert Good(Execute(run).value.sessions[sid]);
  }

  /** Every dialled remote belongs to one session and is in exactly one place: held by that
      session while it is open, in the hands of its `connect` or `finish`, or closed, once. */
  lemma {:induction false} RemoteAccounted(run: seq<Step>, r: nat) returns (sid: nat)
    requires Execute(run).Some? && r < Execute(run).value.dialled
    ensures var st := Execute(run).value;
      && sid < |st.sessions| && Owns(st.sessions[sid], r)
      && (forall i | 0 <= i < |st.sessions| && Owns(st.sessions[i], r) :: i == sid)
      && InHand(st.sessions[sid]) + st.sessions[sid].closes == 1
      && (st.sessions[sid].remote.Some? ==> st.sessions[sid].closer.Open?)
  {
    hide Execute;
    InvariantOfRuns(run);
    var st := Execute(run).value;
    assert Owned(st.sessions, r);
    sid :| 0 <= sid < |st.sessions| && Owns(st.sessions[sid], r);
    assert Good(st.sessions[sid]);
  }

  /** When everything of a session has ended, its remote has been closed. */
  lemma NothingLeaks(run: seq<Step>, sid: nat)
    requires Execute(run).Some? && sid < |Execute(run).value.sessions|
    requires Execute(run).value.sessions[sid].closer.Gone?
    requires var c := Execute(run).value.sessions[sid].connector; c.Idle? || c.Ended?
    ensures var s := Execute(run).value.sessions[sid]; s.closes == if s.dialled.Some? then 1 else 0
  {
    hide Execute;
    InvariantOfRuns(run);
    assert Good(Execute(run).value.sessions[sid]);
  }

  /** The waiting datagrams, and later those still to be replayed, are a subsequence of the
      arrivals in order, within 16 datagrams and 32 KiB. */
  lemma {:induction false} BufferBounded(run: seq<Step>, sid: nat)
    requires Execute(run).Some? && sid < |Execute(run).value.sessions|
    ensures var s := Execute(run).value.sessions[sid];
      && |s.pending| <= MAX_PENDING_DATAGRAMS && TotalSize(s.pending) <= MAX_PENDING_BYTES
      && Increasing(s.arrived) && DrawnFrom(s.pending, s.arrived)
      && (s.connector.Replaying? ==>
            && |s.connector.rest| <= MAX_PENDING_DATAGRAMS && TotalSize(s.connector.rest) <= MAX_PENDING_BYTES
            && DrawnFrom(s.connector.rest, s.arrived))
  {
    hide Execute;
    InvariantOfRuns(run);
    assert Good(Execute(run).value.sessions[sid]);
  }

  /** The remote receives datagrams in order of arrival exactly when no buffered one is
      replayed after one that was written through. */
  lemma InOrderIff(run: seq<Step>, sid: nat)
    requires Execute(run).Some? && sid < |Execute(run).value.sessions|
    ensures var s := Execute(run).value.sessions[sid];
      (forall d | d in s.wire :: d in s.arrived) && (Increasing(s.wire) <==> !s.late)
  {
    hide Execute;
    InvariantOfRuns(run);
    assert Good(Execute(run).value.sessions[sid]);
  }

  // ---------- Replay can be overtaken ----------

  lemma Extend(run: seq<Step>, step: Step)
    requires Execute(run).Some? && Possible(Execute(run).value, step)
    ensures Execute(run + [step]) == Some(Apply(Execute(run).value, step))
  {
    assert (run + [step])[..|run|] == run;
  }

  const CLIENT := "c"
  const FIRST := Dgram(0, 1200)
  const SECOND := Dgram(1, 1200)

  /** One datagram has been buffered, its session is being connected and has a remote, and
      the reader has just been told to write the second datagram through. */
  function Contended(wire: seq<Dgram>): Session {
    Session(CLIENT, Open, true, "h", "proxy", true, Some(0), [], 0, Replaying(0, [FIRST], false), false,
            [FIRST, SECOND], wire, 1, 0, Some(0), 0, 1, 1, wire != [], false)
  }

  /** The session right after its first datagram named the host. */
  function Starting(): Session {
    Session(CLIENT, Open, true, "h", "", false, None, [FIRST], 1200, Dialling, false,
            [FIRST], [], 1, 0, None, 0, 0, 0, false, false)
  }

  /** The session with its remote published and reported, before anything is replayed. */
  function Relaying(): Session {
    Session(CLIENT, Open, true, "h", "proxy", true, Some(0), [], 0, Replaying(0, [FIRST], false), false,
            [FIRST], [], 1, 0, Some(0), 0, 1, 1, false, false)
  }

  /** The table while the one session is open. */
  function Solo(s: Session, reader: Reader, dialled: nat, arrivals: nat): State {
    State([s], map[CLIENT := 0], reader, dialled, arrivals)
  }

  lemma {:induction false} SoloAct(run: seq<Step>, s: Session, reader: Reader, dialled: nat, arrivals: nat, e: Event)
      returns (longer: seq<Step>)
    requires Execute(run) == Some(Solo(s, reader, dialled, arrivals))
    requires Possible(Solo(s, reader, dialled, arrivals), Act(0, e)) && !e.DeleteEntry?
    ensures Execute(longer) == Some(Solo(Advance(s, e), NextReader(s, 0, e, reader),
      if e.Dial? then dialled + 1 else dialled, arrivals))
  {
    hide Execute, Advance, NextReader, Enabled;
    longer := Then(run, Act(0, e));
    assert [s][0 := Advance(s, e)] == [Advance(s, e)];
  }

  lemma {:induction false} SoloReceive(run: seq<Step>, s: Session, dialled: nat,
                                       arrivals: nat) returns (longer: seq<Step>)
    requires Execute(run) == Some(Solo(s, Reading, dialled, arrivals))
    ensures Execute(longer) == Some(Solo(s, Delivering(0, Dgram(arrivals, 1200)), dialled, arrivals + 1))
  {
    hide Execute;
    longer := Then(run, Receive(CLIENT, false, 1200));
  }

  lemma FirstReceived() returns (run: seq<Step>)
    ensures Execute(run) == Some(Solo(NewSession(CLIENT), Delivering(0, FIRST), 0, 1))
  {
    FirstDispatch();
    run := [];
    assert Execute(run) == Some(INIT);
    hide Execute, NewSession, Dispatched, Solo;
    run := Then(run, Receive(CLIENT, true, 1200));
  }

  lemma FirstDispatch()
    ensures Dispatched(INIT, CLIENT, true, 1200) == Solo(NewSession(CLIENT), Delivering(0, FIRST), 0, 1)
  {
    hide NewSession;
    assert [] + [NewSession(CLIENT)] == [NewSession(CLIENT)];
  }

  lemma SessionSteps()
    ensures Delivered(NewSession(CLIENT), FIRST, Resolved("h")) == Starting()
    ensures var dialled := Starting().(connector := Dialled(0), dialled := Some(0));
      Reported(Connected(dialled, "proxy")) == Relaying() && Connected(dialled, "proxy").connector.report
    ensures Delivered(Relaying(), SECOND, Ignored) == Contended([])
  {
    assert [] + [FIRST] == [FIRST];
    assert [FIRST] + [SECOND] == [FIRST, SECOND];
  }

  lemma FirstDatagram() returns (run: seq<Step>)
    ensures Execute(run) == Some(Solo(Starting(), Reading, 0, 1))
  {
    run := FirstReceived();
    SessionSteps();
    var s := NewSession(CLIENT);
    assert s.closer.Open? && s.remote.None? && !s.resolving;
    hide Execute, NewSession, Solo, Delivered, Starting;
    assert Possible(Solo(s, Delivering(0, FIRST), 0, 1), Act(0, Deliver(FIRST, Resolved("h")))) by { SoloState(s,
        Delivering(0, FIRST), 0, 1); }
    run := SoloAct(run, s, Delivering(0, FIRST), 0, 1, Deliver(FIRST, Resolved("h")));
  }

  lemma SoloState(s: Session, reader: Reader, dialled: nat, arrivals: nat)
    ensures var st := Solo(s, reader, dialled, arrivals);
      |st.sessions| == 1 && st.sessions[0] == s && st.reader == reader && st.dialled == dialled
  {
  }

  lemma RemoteDialled() returns (run: seq<Step>)
    ensures Execute(run) == Some(Solo(Starting().(connector := Dialled(0), dialled := Some(0)), Reading, 1, 1))
  {
    run := FirstDatagram();
    var s0 := Starting();
    assert s0.connector.Dialling?;
    hide Execute, Solo, Starting;
    SoloState(s0, Reading, 0, 1);
    run := SoloAct(run, s0, Reading, 0, 1, Dial(0));
  }

  lemma PossibleAlone(s: Session, e: Event)
    requires Enabled(s, e) && !e.Deliver? && !e.WriteThrough? && e != Finish(Aborting)
    requires e.Dial? ==> e.r == 1
    ensures Possible(Solo(s, Reading, 1, 1), Act(0, e)) && NextReader(s, 0, e, Reading) == Reading
  {
    hide Enabled;
  }

  lemma RemoteConnected() returns (run: seq<Step>)
    ensures Execute(run)
          == Some(Solo(Connected(Starting().(connector := Dialled(0), dialled := Some(0)), "proxy"), Reading, 1, 1))
  {
    hide Execute, Solo, Connected, Starting;
    var s := Starting().(connector := Dialled(0), dialled := Some(0));
    assert s.connector.Dialled?;
    run := RemoteDialled();
    PossibleAlone(s, Connect("proxy"));
    run := SoloAct(run, s, Reading, 1, 1, Connect("proxy"));
  }

  lemma RemotePublished() returns (run: seq<Step>)
    ensures Execute(run) == Some(Solo(Relaying(), Reading, 1, 1))
  {
    SessionSteps();
    var s := Connected(Starting().(connector := Dialled(0), dialled := Some(0)), "proxy");
    assert s.connector.Replaying?;
    hide Execute, Solo, Connected, Reported, Starting, Relaying;
    run := RemoteConnected();
    PossibleAlone(s, Report);
    run := SoloAct(run, s, Reading, 1, 1, Report);
  }

  lemma {:induction false} Prelude() returns (run: seq<Step>)
    ensures Execute(run) == Some(Solo(Contended([]), Writing(0, SECOND), 1, 2))
  {
    hide Execute, Solo, Delivered, Relaying, Contended;
    run := RemotePublished();
    SessionSteps();
    assert Relaying().closer.Open? && Relaying().remote.Some?;
    run := SoloReceive(run, Relaying(), 1, 1);
    SoloState(Relaying(), Delivering(0, SECOND), 1, 2);
    run := SoloAct(run, Relaying(), Delivering(0, SECOND), 1, 2, Deliver(SECOND, Ignored));
  }

  lemma {:induction false} Then(run: seq<Step>, step: Step) returns (longer: seq<Step>)
    requires Execute(run).Some? && Possible(Execute(run).value, step)
    ensures Execute(longer) == Some(Apply(Execute(run).value, step))
  {
    Extend(run, step);
    longer := run + [step];
  }

  /** The remote can see the second datagram before the first: the order the comment in the
      source promises for the replay does not hold against a concurrent reader. */
  lemma {:induction false} ReplayOvertaken() returns (run: seq<Step>)
    ensures Execute(run).Some? && |Execute(run).value.sessions| == 1
    ensures Execute(run).value.sessions[0].arrived == [FIRST, SECOND]
    ensures Execute(run).value.sessions[0].wire == [SECOND, FIRST]
  {
    hide Execute;
    run := Prelude();
    run := Then(run, Act(0, WriteThrough(SECOND, true)));
    run := Then(run, Act(0, Replay(true, false)));
  }
}
