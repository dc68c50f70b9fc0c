/** What becomes of a datagram: over whole runs, what the relay accepts reaches the remote. */
module QuicDelivery {
  import opened Common
  import opened QuicServer
  import opened QuicSessions

  function SessionAfter(run: seq<Step>, sid: nat): Session
    requires Execute(run).Some? && sid < |Execute(run).value.sessions|
  {
    Execute(run).value.sessions[sid]
  }

  predicate Exists(run: seq<Step>, sid: nat) {
    Execute(run).Some? && sid < |Execute(run).value.sessions|
  }

  lemma LastStep(run: seq<Step>)
    requires run != [] && Execute(run).Some?
    ensures var before := Execute(run[..|run| - 1]);
      && before.Some? && Possible(before.value, run[|run| - 1])
      && Execute(run) == Some(Apply(before.value, run[|run| - 1]))
  {
    hide Possible, Apply;
  }

  /** Every beginning of a run is a run, and a session once opened stays in the list. */
  lemma {:induction false} Beginning(run: seq<Step>, k: nat)
    requires Execute(run).Some? && k <= |run|
    ensures Execute(run[..k]).Some?
    ensures |Execute(run[..k]).value.sessions| <= |Execute(run).value.sessions|
  {
    hide Execute, Possible, Apply;
    if k == |run| {
      assert run[..k] == run;
    } else {
      LastStep(run);
      SessionsStay(Execute(run[..|run| - 1]).value, run[|run| - 1]);
      Beginning(run[..|run| - 1], k);
      assert run[..|run| - 1][..k] == run[..k];
    }
  }

  lemma SessionsStay(st: State, step: Step)
    requires Possible(st, step)
    ensures |st.sessions| <= |Apply(st, step).sessions|
  {
    hide Enabled, Advance;
  }

  /** A step advances its own session and leaves every other as it is. */
  lemma {:induction false} SessionStep(st: State, step: Step, sid: nat)
    requires Inv(st) && Possible(st, step) && sid < |st.sessions|
    ensures sid < |Apply(st, step).sessions| && Good(st.sessions[sid])
    ensures if step.Act? && step.sid == sid
      then Enabled(st.sessions[sid], step.e) && Fits(st.sessions[sid], step.e)
           && Apply(st, step).sessions[sid] == Advance(st.sessions[sid], step.e)
      else Apply(st, step).sessions[sid] == st.sessions[sid]
  {
    hide Good, Enabled, Advance, TableOk, RemotesNumbered, NextReader, Newest, After;
  }

  /** The last step of a run, seen from one session. */
  lemma {:induction false} LastOfSession(run: seq<Step>, sid: nat)
    requires run != [] && Execute(run).Some? && Exists(run[..|run| - 1], sid)
    ensures Exists(run, sid)
    ensures var s := SessionAfter(run[..|run| - 1], sid);
      var step := run[|run| - 1];
      && Good(s)
      && if step.Act? && step.sid == sid
         then Enabled(s, step.e) && Fits(s, step.e) && SessionAfter(run, sid) == Advance(s, step.e)
         else SessionAfter(run, sid) == s
  {
    LastStep(run);
    var before := run[..|run| - 1];
    InvariantOfRuns(before);
    hide Execute, Inv, Possible, Apply, Good, Enabled, Advance, Fits;
    SessionStep(Execute(before).value, run[|run| - 1], sid);
  }

  // ---------- To the session ----------

  ghost predicate Served(st: State, key: string) {
    exists i | 0 <= i < |st.sessions| :: st.sessions[i].key == key && Registered(st.sessions[i])
  }

  /** In every run a datagram is brought to a session of its sender: to the one still registered,
      or else, if its header is long and the table has room, to a new one. */
  lemma {:induction false} DispatchMeaning(run: seq<Step>, key: string, longHeader: bool, size: nat)
    requires Execute(run).Some? && Execute(run + [Receive(key, longHeader, size)]).Some?
    ensures var st, next := Execute(run).value, Execute(run + [Receive(key, longHeader, size)]).value;
      && (next.reader.Delivering? <==> Served(st, key) || (longHeader && |st.table| < 512))
      && (next.reader.Delivering? ==>
            && next.reader.sid < |next.sessions| && next.reader.d == Dgram(st.arrivals, size)
            && next.sessions[next.reader.sid].key == key && Registered(next.sessions[next.reader.sid]))
      && (next.sessions != st.sessions ==>
            !Served(st, key) && next.sessions == st.sessions + [NewSession(key)])
  {
    var longer := run + [Receive(key, longHeader, size)];
    InvariantOfRuns(run);
    LastStep(longer);
    assert longer[..|longer| - 1] == run;
    hide Execute, NewSession, Registered, AllGood, RemotesNumbered, ReaderOk;
    NewIsPlain(key);
    var st := Execute(run).value;
    if key in st.table {
      assert st.sessions[st.table[key]].key == key;
    }
  }

  // ---------- Into the buffer ----------

  /** What handing datagram `d` to session `s` must lead to. */
  ghost predicate TakenIn(s: Session, d: Dgram, outcome: Outcome, t: Session) {
    if !s.closer.Open? || s.remote.Some? then t.pending == s.pending && t.connector == s.connector
    else
      && t.pending == (if |s.pending| < 16 && TotalSize(s.pending) + d.size <= 32768
                       then s.pending + [d] else s.pending)
      && (if s.connector.Idle? && outcome.Resolved? then t.connector.Dialling? && t.host == outcome.host
          else t.connector == s.connector && t.host == s.host)
  }

  lemma {:induction false} DeliverTakesIn(s: Session, d: Dgram, outcome: Outcome)
    requires Good(s)
    ensures TakenIn(s, d, outcome, Delivered(s, d, outcome))
    ensures Delivered(s, d, outcome).wire == s.wire && Delivered(s, d, outcome).closer == s.closer
  {
    hide Remotes, Reports, ReplayBound, Wire, Increasing, DrawnFrom, TotalSize;
  }

  /** In every run a datagram brought to an open session without a remote is buffered, behind
      those already there, unless 16 of them or 32 KiB would be exceeded. One that names the host
      starts the connection, the first such only. With a remote, the reader goes on to write it. */
  lemma {:induction false} DeliveryMeaning(run: seq<Step>, sid: nat, d: Dgram, outcome: Outcome)
    requires Execute(run + [Act(sid, Deliver(d, outcome))]).Some?
    ensures Exists(run, sid) && Exists(run + [Act(sid, Deliver(d, outcome))], sid)
    ensures var longer := run + [Act(sid, Deliver(d, outcome))];
      var s := SessionAfter(run, sid);
      && TakenIn(s, d, outcome, SessionAfter(longer, sid))
      && (s.closer.Open? && s.remote.Some? <==> Execute(longer).value.reader == Writing(sid, d))
  {
    var longer := run + [Act(sid, Deliver(d, outcome))];
    LastStep(longer);
    assert longer[..|longer| - 1] == run;
    hide Execute, TakenIn, Advance, Good;
    LastOfSession(longer, sid);
    var s := SessionAfter(run, sid);
    DeliverTakesIn(s, d, outcome);
    IsDelivered(s, Deliver(d, outcome));
  }

  /** Nothing but a step of the reader itself takes it away from the datagram it is to write,
      and a write that succeeds puts that datagram at the end of the wire. */
  lemma {:induction false} WriteMeaning(run: seq<Step>, step: Step, sid: nat, d: Dgram)
    requires Execute(run + [step]).Some? && Execute(run).Some?
    requires Execute(run).value.reader == Writing(sid, d)
    ensures Exists(run, sid) && Exists(run + [step], sid)
    ensures var longer := run + [step];
      if step == Act(sid, WriteThrough(d, true)) then
        SessionAfter(longer, sid).wire == SessionAfter(run, sid).wire + [d]
      else if step == Act(sid, WriteThrough(d, false)) then SessionAfter(longer, sid) == SessionAfter(run, sid)
      else Execute(longer).value.reader == Writing(sid, d)
  {
    var longer := run + [step];
    InvariantOfRuns(run);
    LastStep(longer);
    assert longer[..|longer| - 1] == run;
    hide Execute, Advance, Good;
    LastOfSession(longer, sid);
    WriteAdvances(SessionAfter(run, sid), d);
  }

  lemma WriteAdvances(s: Session, d: Dgram)
    ensures Enabled(s, WriteThrough(d, true)) ==> Advance(s, WriteThrough(d, true)).wire == s.wire + [d]
    ensures Enabled(s, WriteThrough(d, false)) ==> Advance(s, WriteThrough(d, false)) == s
  {
  }

  /** Until the session is closed or its remote published, the buffer only grows. */
  predicate Waiting(s: Session) {
    s.closer.Open? && Unpublished(s)
  }

  lemma {:induction false} BufferGrows(s: Session, e: Event)
    requires Good(s) && Enabled(s, e) && Fits(s, e) && Waiting(Advance(s, e))
    ensures Waiting(s) && s.pending <= Advance(s, e).pending
  {
    hide Remotes, Reports, Traffic, TotalSize, Newest, After;
    match e {
      case Finish(caller) => hide FinishedBy; FinishCloses(s, caller);
      case _ =>
    }
  }

  lemma FinishCloses(s: Session, caller: Caller)
    requires Enabled(s, Finish(caller))
    ensures !FinishedBy(s, caller).closer.Open?
  {
  }

  lemma {:induction false} KeptWhileWaiting(run: seq<Step>, i: nat, sid: nat)
    requires i <= |run| && Exists(run, sid) && Exists(run[..i], sid)
    requires Waiting(SessionAfter(run, sid))
    ensures Waiting(SessionAfter(run[..i], sid))
    ensures SessionAfter(run[..i], sid).pending <= SessionAfter(run, sid).pending
  {
    if i == |run| {
      assert run[..i] == run;
    } else {
      var before := run[..|run| - 1];
      assert before[..i] == run[..i];
      Beginning(before, i);
      Beginning(run, |run| - 1);
      hide Execute, Good, Enabled, Advance, Fits, Waiting;
      LastOfSession(run, sid);
      var step := run[|run| - 1];
      if step.Act? && step.sid == sid {
        BufferGrows(SessionAfter(before, sid), step.e);
      }
      KeptWhileWaiting(before, i, sid);
    }
  }

  // ---------- Out of the buffer ----------

  /** The datagrams of `s` numbered below `n`, in their order. */
  function Older(s: seq<Dgram>, n: nat): seq<Dgram> {
    if s == [] then []
    else Older(s[..|s| - 1], n) + if s[|s| - 1].no < n then [s[|s| - 1]] else []
  }

  lemma OlderAppend(s: seq<Dgram>, d: Dgram, n: nat)
    ensures Older(s + [d], n) == Older(s, n) + if d.no < n then [d] else []
  {
    assert (s + [d])[..|s|] == s;
  }

  lemma {:induction false} OlderIn(s: seq<Dgram>, n: nat)
    ensures forall d | d in Older(s, n) :: d in s
  {
    if s != [] {
      OlderIn(s[..|s| - 1], n);
    }
  }

  /** The buffered datagrams `all` are on the wire, in order and once each, up to those left. */
  predicate Under(s: Session, all: seq<Dgram>) {
    && (s.connector.Replaying? || s.connector.Ended?)
    && Older(s.wire, s.cut) + (if s.connector.Replaying? then s.connector.rest else []) == all
  }

  predicate Written(e: Event) {
    e.Replay? ==> e.written && !e.failed
  }

  lemma {:induction false} ReplayStarts(s: Session, action: string)
    requires Good(s) && s.connector.Dialled? && s.closer.Open?
    ensures Under(Connected(s, action), s.pending)
  {
    hide Life, Remotes, Reports, Buffer, ReplayBound, After;
  }

  lemma {:induction false} ReplayGoesOn(s: Session, all: seq<Dgram>)
    requires Under(s, all) && Enabled(s, Replay(true, false)) && ReplayBound(s)
    ensures Under(Replayed(s, true, false), all)
  {
    var rest := s.connector.rest;
    OneReplayed(s);
    hide Enabled, Replayed, Older, DrawnFrom, AllBelow, TotalSize;
    HeadBelow(rest, s.cut);
    OlderAppend(s.wire, rest[0], s.cut);
    hide ReplayBound;
    Moved(Older(s.wire, s.cut), rest);
  }

  lemma OneReplayed(s: Session)
    requires Enabled(s, Replay(true, false))
    ensures s.connector.Replaying? && s.connector.rest != []
    ensures var t := Replayed(s, true, false);
      && t.connector.Replaying? && t.connector.rest == s.connector.rest[1..]
      && t.wire == s.wire + [s.connector.rest[0]] && t.cut == s.cut
  {
  }

  lemma Moved(x: seq<Dgram>, y: seq<Dgram>)
    requires y != []
    ensures x + [y[0]] + y[1..] == x + y
  {
  }

  lemma HeadBelow(rest: seq<Dgram>, n: nat)
    requires rest != [] && AllBelow(rest, n)
    ensures rest[0].no < n
  {
  }

  lemma {:induction false} FinishStays(s: Session, caller: Caller, all: seq<Dgram>)
    requires Under(s, all) && Enabled(s, Finish(caller))
    ensures Under(FinishedBy(s, caller), all)
  {
    hide Older, Finished;
    CloseLeaves(s, "", "");
    CloseLeaves(s, "", "nohost");
    CloseLeaves(s, s.host, s.action);
  }

  lemma {:induction false} UnderKept(s: Session, e: Event, all: seq<Dgram>)
    requires Good(s) && Enabled(s, e) && Fits(s, e) && Under(s, all) && Written(e)
    ensures Under(Advance(s, e), all)
  {
    hide Older, Life, Remotes, Reports, Buffer, Wire, ReplayBound;
    match e {
      case Replay(_, _) => ReplayGoesOn(s, all);
      case WriteThrough(d, _) => OlderAppend(s.wire, d, s.cut);
      case Finish(caller) => hide FinishedBy; FinishStays(s, caller, all);
      case Deliver(d, outcome) =>
        hide Good;
        assert Life(s);
        DeliverSpares(s, d, outcome);
      case _ => hide Newest, FinishedBy, Replayed, Delivered;
    }
  }

  lemma DeliverSpares(s: Session, d: Dgram, outcome: Outcome)
    requires Life(s) && !s.connector.Idle?
    ensures var t := Delivered(s, d, outcome);
      t.connector == s.connector && t.wire == s.wire && t.cut == s.cut
  {
  }

  /** No write of the session's replay after step `k` fails. */
  ghost predicate NoneFails(run: seq<Step>, k: nat, sid: nat) {
    forall i | k < i < |run| && run[i].Act? && run[i].sid == sid :: Written(run[i].e)
  }

  /** Over every run, whatever the other tasks do meanwhile: from the moment the remote of an open
      session is published, the datagrams buffered until then are on the wire, in order and once
      each, up to those still to be replayed; and all of them are when the replay has ended. */
  lemma {:induction false} EverythingReplayed(run: seq<Step>, k: nat, sid: nat)
    requires Execute(run).Some? && k < |run|
    requires run[k].Act? && run[k].sid == sid && run[k].e.Connect?
    requires NoneFails(run, k, sid)
    ensures Exists(run[..k], sid) && Exists(run, sid)
    ensures var buffered := SessionAfter(run[..k], sid);
      var s := SessionAfter(run, sid);
      buffered.closer.Open? ==>
        && (s.connector.Replaying? || s.connector.Ended?)
        && (s.connector.Replaying? ==> Older(s.wire, s.cut) + s.connector.rest == buffered.pending)
        && (s.connector.Ended? ==> Older(s.wire, s.cut) == buffered.pending)
  {
    Published(run, k, sid);
    hide Execute, Older;
  }

  lemma {:induction false} Published(run: seq<Step>, k: nat, sid: nat)
    requires Execute(run).Some? && k < |run|
    requires run[k].Act? && run[k].sid == sid && run[k].e.Connect?
    requires NoneFails(run, k, sid)
    ensures Exists(run[..k], sid) && Exists(run, sid)
    ensures SessionAfter(run[..k], sid).closer.Open? ==>
      Under(SessionAfter(run, sid), SessionAfter(run[..k], sid).pending)
  {
    var before, step := run[..|run| - 1], run[|run| - 1];
    LastStep(run);
    hide Execute, Good, Advance, Fits, Under, Apply;
    if k == |run| - 1 {
      assert run[..k] == before;
      LastOfSession(run, sid);
      var s := SessionAfter(before, sid);
      if s.closer.Open? {
        ConnectStep(s, step.e);
        ReplayStarts(s, step.e.action);
      }
    } else {
      assert before[..k] == run[..k];
      assert before[k] == run[k];
      NoneFailed(run, k, sid);
      Published(before, k, sid);
      LastOfSession(run, sid);
      var s := SessionAfter(before, sid);
      if SessionAfter(run[..k], sid).closer.Open? && step.Act? && step.sid == sid {
        UnderKept(s, step.e, SessionAfter(run[..k], sid).pending);
      }
    }
  }

  lemma ConnectStep(s: Session, e: Event)
    requires Enabled(s, e) && e.Connect?
    ensures s.connector.Dialled? && Advance(s, e) == Connected(s, e.action)
  {
    hide Connected;
  }

  lemma NoneFailed(run: seq<Step>, k: nat, sid: nat)
    requires NoneFails(run, k, sid) && k < |run| - 1
    ensures NoneFails(run[..|run| - 1], k, sid)
    ensures run[|run| - 1].Act? && run[|run| - 1].sid == sid ==> Written(run[|run| - 1].e)
  {
    var before := run[..|run| - 1];
    forall i | k < i < |before| && before[i].Act? && before[i].sid == sid
      ensures Written(before[i].e)
    {
      assert run[i] == before[i];
    }
  }

  /** From end to end: a datagram that went into the buffer before the connection was made, of a
      session still open then, has reached the remote or still waits its turn, if no write of the
      replay fails; and it has reached it once the pump runs. */
  lemma {:induction false} BufferedReachesRemote(run: seq<Step>, i: nat, k: nat, sid: nat, d: Dgram)
    requires Execute(run).Some? && i <= k < |run| && Exists(run[..i], sid)
    requires d in SessionAfter(run[..i], sid).pending
    requires run[k].Act? && run[k].sid == sid && run[k].e.Connect?
    requires Exists(run[..k], sid) && SessionAfter(run[..k], sid).closer.Open?
    requires NoneFails(run, k, sid)
    ensures Exists(run, sid)
    ensures var s := SessionAfter(run, sid);
      && (d in s.wire || (s.connector.Replaying? && d in s.connector.rest))
      && (s.pumps > 0 ==> d in s.wire)
  {
    EverythingReplayed(run, k, sid);
    var s := SessionAfter(run, sid);
    OlderIn(s.wire, s.cut);
    PumpMeansEnded(run, sid);
    assert d in SessionAfter(run[..k], sid).pending by {
      AtConnect(run, k, sid);
      assert run[..k][..i] == run[..i];
      hide Execute;
      KeptWhileWaiting(run[..k], i, sid);
    }
    hide Execute, Older;
  }

  lemma PumpMeansEnded(run: seq<Step>, sid: nat)
    requires Exists(run, sid)
    ensures SessionAfter(run, sid).pumps > 0 ==> SessionAfter(run, sid).connector.Ended?
  {
    InvariantOfRuns(run);
    hide Execute, Traffic, Remotes, Reports;
    assert Good(SessionAfter(run, sid));
  }

  lemma ConnectIsFirst(s: Session, e: Event)
    requires Enabled(s, e) && e.Connect?
    ensures Unpublished(s)
  {
  }

  lemma ConnectingBefore(run: seq<Step>, sid: nat)
    requires run != [] && Execute(run).Some? && Exists(run[..|run| - 1], sid)
    requires run[|run| - 1].Act? && run[|run| - 1].sid == sid && run[|run| - 1].e.Connect?
    ensures Unpublished(SessionAfter(run[..|run| - 1], sid))
  {
    hide Execute, Good, Fits, Advance, Enabled;
    LastOfSession(run, sid);
    ConnectIsFirst(SessionAfter(run[..|run| - 1], sid), run[|run| - 1].e);
  }

  lemma OneMore(run: seq<Step>, k: nat)
    requires k < |run|
    ensures var upTo := run[..k + 1];
      |upTo| == k + 1 && upTo[..|upTo| - 1] == run[..k] && upTo[|upTo| - 1] == run[k]
  {
  }

  lemma AtConnect(run: seq<Step>, k: nat, sid: nat)
    requires Execute(run).Some? && k < |run| && Exists(run[..k], sid)
    requires run[k].Act? && run[k].sid == sid && run[k].e.Connect?
    ensures Unpublished(SessionAfter(run[..k], sid))
  {
    hide Execute;
    Beginning(run, k + 1);
    OneMore(run, k);
    ConnectingBefore(run[..k + 1], sid);
  }

  // ---------- A failed write ----------

  lemma {:induction false} FailedWrite(s: Session, written: bool)
    requires Good(s) && Enabled(s, Replay(written, true))
    ensures var t := Replayed(s, written, true);
      Under(t, Older(t.wire, t.cut)) && t.connector.Replaying? && t.connector.rest == []
  {
    hide Good, Older;
  }

  predicate NothingLeft(s: Session) {
    s.connector.Replaying? ==> s.connector.rest == []
  }

  lemma {:induction false} NothingLeftKept(s: Session, e: Event, all: seq<Dgram>)
    requires Good(s) && Enabled(s, e) && Fits(s, e) && Under(s, all) && NothingLeft(s)
    ensures Under(Advance(s, e), all) && NothingLeft(Advance(s, e))
  {
    assert Written(e);
    UnderKept(s, e, all);
    hide Good, Older, Fits, Under;
    assert !e.Connect? && !e.Replay?;
    match e {
      case Deliver(d, outcome) => hide Delivered; assert Life(s); DeliverSpares(s, d, outcome);
      case Finish(caller) => hide FinishedBy; ReplayUntouched(s, caller);
      case _ =>
    }
  }

  lemma ReplayUntouched(s: Session, caller: Caller)
    requires s.connector.Replaying? || s.connector.Ended?
    ensures FinishedBy(s, caller).connector == s.connector
  {
  }

  /** After the first write of the replay that fails nothing more of the buffer is sent, however
      long the run goes on. */
  lemma {:induction false} FailureEndsReplay(run: seq<Step>, k: nat, sid: nat)
    requires Execute(run).Some? && k < |run|
    requires run[k].Act? && run[k].sid == sid && run[k].e.Replay? && run[k].e.failed
    ensures Exists(run[..k + 1], sid) && Exists(run, sid)
    ensures var t, s := SessionAfter(run[..k + 1], sid), SessionAfter(run, sid);
      Older(s.wire, s.cut) == Older(t.wire, t.cut) && (s.connector.Replaying? ==> s.connector.rest == [])
  {
    AfterFailure(run, k, sid);
    hide Execute, Older;
  }

  lemma {:induction false} AfterFailure(run: seq<Step>, k: nat, sid: nat)
    requires Execute(run).Some? && k < |run|
    requires run[k].Act? && run[k].sid == sid && run[k].e.Replay? && run[k].e.failed
    ensures Exists(run[..k + 1], sid) && Exists(run, sid)
    ensures var t, s := SessionAfter(run[..k + 1], sid), SessionAfter(run, sid);
      Under(s, Older(t.wire, t.cut)) && NothingLeft(s)
  {
    var before, step := run[..|run| - 1], run[|run| - 1];
    LastStep(run);
    hide Execute, Good, Advance, Fits, Under, Apply, Older, Enabled;
    if k == |run| - 1 {
      assert run[..k + 1] == run;
      LastOfSession(run, sid);
      ReplayStep(SessionAfter(before, sid), step.e);
      FailedWrite(SessionAfter(before, sid), step.e.written);
    } else {
      assert before[..k + 1] == run[..k + 1];
      assert before[k] == run[k];
      AfterFailure(before, k, sid);
      LastOfSession(run, sid);
      if step.Act? && step.sid == sid {
        var t := SessionAfter(run[..k + 1], sid);
        NothingLeftKept(SessionAfter(before, sid), step.e, Older(t.wire, t.cut));
      }
    }
  }

  lemma ReplayStep(s: Session, e: Event)
    requires Enabled(s, e) && e.Replay?
    ensures Advance(s, e) == Replayed(s, e.written, e.failed)
  {
    hide Replayed;
  }

  // ---------- The end of a session ----------

  /** Whether the caller of `finish` can name what was done with the session. */
  predicate Named(s: Session, caller: Caller) {
    || s.action != "" || caller.Aborting?
    || (caller.Connecting? && s.connector.GivingUp? && s.connector.action != "")
  }

  /** What `finish` must lead to: only its first caller closes the session, drops what waits, takes
      the remote away to be closed, and reports it if it has not been counted but can be named. */
  ghost predicate ClosedBy(s: Session, caller: Caller, t: Session) {
    && t.pumping == (s.pumping && !caller.Pumping?)
    && (if caller.Connecting? then t.connector.Ended? else t.connector == s.connector)
    && if s.closer.Open? then
      && t.closer == Closing(s.remote, !s.counted && s.host != "" && Named(s, caller))
      && t.remote.None? && t.pending == []
      && (t.counted <==> s.counted || t.closer.report)
    else t.closer == s.closer && t.counted == s.counted && t.remote == s.remote && t.pending == s.pending
  }

  lemma {:induction false} FinishMeaning(run: seq<Step>, sid: nat, caller: Caller)
    requires Execute(run + [Act(sid, Finish(caller))]).Some?
    ensures Exists(run, sid) && Exists(run + [Act(sid, Finish(caller))], sid)
    ensures ClosedBy(SessionAfter(run, sid), caller, SessionAfter(run + [Act(sid, Finish(caller))], sid))
  {
    var longer := run + [Act(sid, Finish(caller))];
    LastStep(longer);
    assert longer[..|longer| - 1] == run;
    hide Execute, ClosedBy, Advance, Good;
    LastOfSession(longer, sid);
    FinishClosesOnce(SessionAfter(run, sid), caller);
  }

  lemma FinishClosesOnce(s: Session, caller: Caller)
    requires Enabled(s, Finish(caller))
    ensures ClosedBy(s, caller, Advance(s, Finish(caller)))
  {
    IsFinished(s, caller);
    hide Advance;
    match caller {
      case Connecting => FinishedMeans(s, s.host, s.connector.action);
      case Janitor => FinishedMeans(s, "", "");
      case Aborting => FinishedMeans(s, "", "nohost");
      case Pumping => FinishedMeans(s, s.host, s.action);
    }
    hide Finished;
  }

  lemma FinishedMeans(s: Session, host: string, action: string)
    ensures var t := Finished(s, host, action);
      && t.pumping == s.pumping && t.connector == s.connector
      && if s.closer.Open? then
           && t.closer
              == Closing(s.remote, !s.counted && (host != "" || s.host != "") && (action != "" || s.action != ""))
           && t.remote.None? && t.pending == [] && (t.counted <==> s.counted || t.closer.report)
         else t == s
  {
  }

  // ---------- Every task comes to its end ----------

  /** Which events are steps of `connect`. */
  predicate OfConnect(e: Event) {
    e.Dial? || e.GiveUp? || e.Connect? || e.Report? || e.Replay? || e.StartPump? || e.Discard?
    || e == Finish(Connecting)
  }

  /** Which events are steps of the task that closed the session. */
  predicate OfClose(e: Event) {
    e.CloseRemote? || e.DeleteEntry? || e.ReportEnd?
  }

  /** How many steps `connect` has left at most: it replays no more than 16 datagrams. */
  function ConnectLeft(c: Connector): nat {
    match c
    case Idle => 21
    case Dialling => 20
    case Dialled(_) => 19
    case Replaying(_, rest, report) => 1 + |rest| + if report then 1 else 0
    case GivingUp(_) => 1
    case Discarding(_) => 1
    case Ended => 0
  }

  function CloseLeft(c: Closer): nat {
    match c
    case Open => 4
    case Closing(_, _) => 3
    case Deleting(_) => 2
    case Reporting(_) => 1
    case Gone => 0
  }

  /** Each step of a task brings it nearer to its end, and no other step takes it back. */
  lemma {:induction false} TasksAdvance(s: Session, e: Event)
    requires Good(s) && Enabled(s, e)
    ensures var t := Advance(s, e);
      && ConnectLeft(t.connector) <= ConnectLeft(s.connector) && CloseLeft(t.closer) <= CloseLeft(s.closer)
      && (OfConnect(e) ==> ConnectLeft(t.connector) < ConnectLeft(s.connector))
      && (OfClose(e) ==> CloseLeft(t.closer) < CloseLeft(s.closer))
  {
    hide Advance, Enabled, Good;
    match e {
      case Deliver(d, outcome) => DeliverMoves(s, d, outcome); IsDelivered(s, e);
      case Finish(caller) => CloserMoves(s, caller); IsFinished(s, caller);
      case Connect(_) => ConnectMoves(s, e);
      case Replay(_, _) => ReplayMoves(s, e);
      case WriteThrough(_, _) => ClosingMoves(s, e);
      case CloseRemote => ClosingMoves(s, e);
      case DeleteEntry => ClosingMoves(s, e);
      case ReportEnd => ClosingMoves(s, e);
      case _ => ConnectorMoves(s, e);
    }
  }

  lemma IsFinished(s: Session, caller: Caller)
    requires Enabled(s, Finish(caller))
    ensures Advance(s, Finish(caller)) == FinishedBy(s, caller)
    ensures caller.Connecting? ==> s.connector.GivingUp?
  {
    hide FinishedBy;
  }

  lemma ConnectMoves(s: Session, e: Event)
    requires Good(s) && Enabled(s, e) && e.Connect?
    ensures ConnectLeft(Advance(s, e).connector) < ConnectLeft(s.connector) && Advance(s, e).closer == s.closer
  {
    hide Tasks, ReplayBound, Wire, Increasing, DrawnFrom, TotalSize, After;
  }

  lemma ConnectorMoves(s: Session, e: Event)
    requires Enabled(s, e) && (e.Dial? || e.GiveUp? || e.Report? || e.StartPump? || e.Discard?)
    ensures Advance(s, e).closer == s.closer
    ensures ConnectLeft(Advance(s, e).connector) < ConnectLeft(s.connector)
  {
    hide Delivered, FinishedBy, Connected, Replayed, WrittenThrough, RemoteClosed, FinishReported;
  }

  lemma ReplayMoves(s: Session, e: Event)
    requires Enabled(s, e) && e.Replay?
    ensures Advance(s, e).closer == s.closer
    ensures ConnectLeft(Advance(s, e).connector) < ConnectLeft(s.connector)
  {
    ReplayStep(s, e);
    ReplayWrites(s, e.written, e.failed);
    ReplayOpen(s, e.written, e.failed);
    hide Advance, Replayed;
  }

  lemma ReplayOpen(s: Session, written: bool, failed: bool)
    ensures Replayed(s, written, failed).closer == s.closer
  {
  }

  lemma ClosingMoves(s: Session, e: Event)
    requires Enabled(s, e) && (OfClose(e) || e.WriteThrough?)
    ensures Advance(s, e).connector == s.connector
    ensures CloseLeft(Advance(s, e).closer) <= CloseLeft(s.closer)
    ensures OfClose(e) ==> CloseLeft(Advance(s, e).closer) < CloseLeft(s.closer)
  {
    hide Delivered, FinishedBy, Connected, Replayed, Reported, RemoteClosed, FinishReported, WrittenThrough;
    match e {
      case CloseRemote => ClosedMoves(s);
      case ReportEnd => ReportedMoves(s);
      case WriteThrough(d, ok) => WriteMoves(s, d, ok);
      case _ =>
    }
  }

  lemma ClosedMoves(s: Session)
    requires s.closer.Closing?
    ensures RemoteClosed(s).connector == s.connector && RemoteClosed(s).closer.Deleting?
  {
  }

  lemma ReportedMoves(s: Session)
    requires s.closer.Reporting?
    ensures FinishReported(s).connector == s.connector && FinishReported(s).closer.Gone?
  {
  }

  lemma WriteMoves(s: Session, d: Dgram, ok: bool)
    ensures WrittenThrough(s, d, ok).connector == s.connector && WrittenThrough(s, d, ok).closer == s.closer
  {
  }

  lemma DeliverMoves(s: Session, d: Dgram, outcome: Outcome)
    requires Good(s)
    ensures var t := Delivered(s, d, outcome);
      t.closer == s.closer && ConnectLeft(t.connector) <= ConnectLeft(s.connector)
  {
    DeliverTakesIn(s, d, outcome);
    hide Delivered, Good;
  }

  lemma CloserMoves(s: Session, caller: Caller)
    requires Enabled(s, Finish(caller))
    ensures CloseLeft(FinishedBy(s, caller).closer) <= CloseLeft(s.closer)
    ensures if caller.Connecting? then FinishedBy(s, caller).connector.Ended?
      else FinishedBy(s, caller).connector == s.connector
  {
  }

  /** No task is ever stuck: a `connect` under way, the rest of a `finish`, a pump, and the janitor
      always have a step they can take. */
  lemma {:induction false} NeverStuck(s: Session)
    ensures !s.connector.Idle? && !s.connector.Ended? ==> exists e :: OfConnect(e) && Enabled(s, e)
    ensures !s.closer.Open? && !s.closer.Gone? ==> exists e :: OfClose(e) && Enabled(s, e)
    ensures s.pumping ==> Enabled(s, Finish(Pumping))
    ensures Enabled(s, Finish(Janitor)) && Enabled(s, Finish(Aborting))
  {
    if !s.connector.Idle? && !s.connector.Ended? {
      var e := match s.connector
        case Dialling => Dial(0)
        case Dialled(_) => Connect("proxy")
        case GivingUp(_) => Finish(Connecting)
        case Discarding(_) => Discard
        case Replaying(_, rest, report) =>
          if report then Report else if rest == [] then StartPump else Replay(false, true)
        case _ => Report;
      assert OfConnect(e) && Enabled(s, e);
    }
    if !s.closer.Open? && !s.closer.Gone? {
      var e := match s.closer
        case Closing(_, _) => CloseRemote
        case Deleting(_) => DeleteEntry
        case _ => ReportEnd;
      assert OfClose(e) && Enabled(s, e);
    }
  }

  /** What publishing the dialled remote must lead to: an open session takes it and everything
      buffered goes to the replay; a closed one gives it up. When the replay is through, the pump
      runs; a remote given up is closed. */
  lemma {:induction false} ConnectMeaning(run: seq<Step>, sid: nat, e: Event)
    requires e.Connect? || e.StartPump? || e.Discard?
    requires Execute(run + [Act(sid, e)]).Some?
    ensures Exists(run, sid) && Exists(run + [Act(sid, e)], sid)
    ensures var s, t := SessionAfter(run, sid), SessionAfter(run + [Act(sid, e)], sid);
      match e
      case Connect(action) =>
        s.connector.Dialled? &&
        if s.closer.Open? then
          && t.remote == Some(s.connector.remote) && t.action == action && t.counted && t.pending == []
          && t.connector == Replaying(s.connector.remote, s.pending, !s.counted)
        else t.connector == Discarding(s.connector.remote) && t.remote == s.remote
      case StartPump => t.pumping && t.pumps == 1 && t.connector.Ended?
      case _ => t.closes == 1 && t.connector.Ended?
  {
    var longer := run + [Act(sid, e)];
    LastStep(longer);
    assert longer[..|longer| - 1] == run;
    hide Execute, Advance, Good;
    LastOfSession(longer, sid);
    ConnectSteps(SessionAfter(run, sid), e);
  }

  lemma ConnectSteps(s: Session, e: Event)
    requires Good(s) && Enabled(s, e) && (e.Connect? || e.StartPump? || e.Discard?)
    ensures var t := Advance(s, e);
      match e
      case Connect(action) =>
        s.connector.Dialled? &&
        if s.closer.Open? then
          && t.remote == Some(s.connector.remote) && t.action == action && t.counted && t.pending == []
          && t.connector == Replaying(s.connector.remote, s.pending, !s.counted)
        else t.connector == Discarding(s.connector.remote) && t.remote == s.remote
      case StartPump => t.pumping && t.pumps == 1 && t.connector.Ended?
      case _ => t.closes == 1 && t.connector.Ended?
  {
    hide Reports, Traffic;
  }
}
