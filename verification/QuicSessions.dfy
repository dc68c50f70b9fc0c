/** The life of QUIC sessions: reader, connectors, pumps and the janitor share one session
    table. Every atomic step is one mutex-protected region, or one call made outside a lock. */
module QuicSessions {
  import opened Common

  const MAX_SESSIONS := 512
  const MAX_PENDING_DATAGRAMS := 16
  const MAX_PENDING_BYTES := 32 * 1024

  /** A datagram, numbered in order of arrival. */
  datatype Dgram = Dgram(no: nat, size: nat)

  /** What the SNI decoder and the hint table make of a datagram. */
  datatype Outcome = Unreadable | Ignored | Incomplete | Resolved(host: string)

  /** Where `connect` is. A failed or blocked connection goes on to `finish`. */
  datatype Connector =
    | Idle
    | Dialling
    | GivingUp(action: string)
    | Dialled(remote: nat)
    | Discarding(remote: nat)
    | Replaying(remote: nat, rest: seq<Dgram>, report: bool)
    | Ended

  /** Where the one `finish` that closed the session is. */
  datatype Closer =
    | Open
    | Closing(remote: Option<nat>, report: bool)
    | Deleting(report: bool)
    | Reporting(report: bool)
    | Gone

  datatype Session = Session(
    key: string, closer: Closer, resolving: bool, host: string, action: string, counted: bool,
    remote: Option<nat>, pending: seq<Dgram>, pendingBytes: nat, connector: Connector, pumping: bool,
    // What happened so far, for the statements below.
    arrived: seq<Dgram>, wire: seq<Dgram>, connects: nat, pumps: nat, dialled: Option<nat>,
    closes: nat, reports: nat, cut: nat, direct: bool, late: bool)

  function NewSession(key: string): Session {
    Session(key, Open, false, "", "", false, None, [], 0, Idle, false, [], [], 0, 0, None, 0, 0, 0, false, false)
  }

  /** The caller of `finish`. */
  datatype Caller = Janitor | Connecting | Pumping | Aborting

  /** One step of a task on one session. */
  datatype Event =
    | Deliver(d: Dgram, outcome: Outcome)
    | WriteThrough(d: Dgram, ok: bool)
    | Finish(caller: Caller)
    | Dial(r: nat)
    | GiveUp(action: string)
    | Connect(action: string)
    | Report
    | Replay(written: bool, failed: bool)
    | StartPump
    | Discard
    | CloseRemote
    | DeleteEntry
    | ReportEnd

  // ---------- One session ----------

  function TotalSize(s: seq<Dgram>): nat {
    if s == [] then 0 else TotalSize(s[..|s| - 1]) + s[|s| - 1].size
  }

  /** `bufferLocked`. */
  function Buffered(s: Session, d: Dgram): Session {
    if |s.pending| >= MAX_PENDING_DATAGRAMS || s.pendingBytes + d.size > MAX_PENDING_BYTES then s
    else s.(pending := s.pending + [d], pendingBytes := s.pendingBytes + d.size)
  }

  function Arrived(s: Session, d: Dgram): Session {
    s.(arrived := s.arrived + [d])
  }

  function ConnectStarted(s: Session, host: string): Session {
    s.(resolving := true, host := host, connector := Dialling, connects := s.connects + 1)
  }

  /** `onDatagram`, up to where it unlocks. */
  function Delivered(s: Session, d: Dgram, outcome: Outcome): Session {
    var a := Arrived(s, d);
    if s.closer != Open || s.remote.Some? then a
    else if s.resolving || !outcome.Resolved? then Buffered(a, d)
    else ConnectStarted(Buffered(a, d), outcome.host)
  }

  /** `finish`, up to where it unlocks: only the first caller closes the session. */
  function Finished(s: Session, host: string, action: string): Session {
    if s.closer != Open then s
    else
      var h := if host == "" then s.host else host;
      var a := if action == "" then s.action else action;
      var report := !s.counted && h != "" && a != "";
      s.(closer := Closing(s.remote, report), counted := s.counted || report, remote := None, pending := [])
  }

  function FinishedBy(s: Session, caller: Caller): Session {
    match caller
    case Janitor => Finished(s, "", "")
    case Aborting => Finished(s, "", "nohost")
    case Pumping => Finished(s, s.host, s.action).(pumping := false)
    case Connecting =>
      if s.connector.GivingUp? then Finished(s, s.host, s.connector.action).(connector := Ended) else s
  }

  /** The region of `connect` that publishes the dialled remote. */
  function Connected(s: Session, action: string): Session {
    if !s.connector.Dialled? then s
    else if s.closer != Open then s.(connector := Discarding(s.connector.remote))
    else
      s.(remote := Some(s.connector.remote), action := action, counted := true, pending := [], pendingBytes := 0,
         connector := Replaying(s.connector.remote, s.pending, !s.counted), cut := After(s.arrived))
  }

  /** One more than the number of the last datagram. */
  function After(s: seq<Dgram>): nat {
    if s == [] then 0 else s[|s| - 1].no + 1
  }

  function Replayed(s: Session, written: bool, failed: bool): Session {
    if !(s.connector.Replaying? && s.connector.rest != []) then s
    else
      var d := s.connector.rest[0];
      var t := s.(connector := s.connector.(rest := if failed then [] else s.connector.rest[1..]));
      if written then t.(wire := s.wire + [d], late := s.late || s.direct) else t
  }

  function WrittenThrough(s: Session, d: Dgram, ok: bool): Session {
    if ok then s.(wire := s.wire + [d], direct := true) else s
  }

  function Reported(s: Session): Session
    requires s.connector.Replaying?
  {
    s.(connector := s.connector.(report := false), reports := s.reports + 1)
  }

  /** The rest of `finish`: close the remote, leave the table, report. */
  function RemoteClosed(s: Session): Session
    requires s.closer.Closing?
  {
    s.(closer := Deleting(s.closer.report), closes := s.closes + if s.closer.remote.Some? then 1 else 0)
  }

  function FinishReported(s: Session): Session
    requires s.closer.Reporting?
  {
    s.(closer := Gone, reports := s.reports + if s.closer.report then 1 else 0)
  }

  predicate Enabled(s: Session, e: Event) {
    match e
    case Deliver(_, _) => true
    case WriteThrough(_, ok) => ok ==> s.closes == 0
    case Finish(Janitor) => true
    case Finish(Aborting) => true
    case Finish(Pumping) => s.pumping
    case Finish(Connecting) => s.connector.GivingUp?
    case Dial(_) => s.connector.Dialling?
    case GiveUp(action) => s.connector.Dialling? && action in {"block", "direct", "proxy"}
    case Connect(action) => s.connector.Dialled? && action in {"direct", "proxy"}
    case Report => s.connector.Replaying? && s.connector.report
    case Replay(written, _) =>
      s.connector.Replaying? && !s.connector.report && s.connector.rest != [] && (written ==> s.closes == 0)
    case StartPump => s.connector.Replaying? && !s.connector.report && s.connector.rest == []
    case Discard => s.connector.Discarding?
    case CloseRemote => s.closer.Closing?
    case DeleteEntry => s.closer.Deleting?
    case ReportEnd => s.closer.Reporting?
  }

  function Advance(s: Session, e: Event): Session
    requires Enabled(s, e)
  {
    match e
    case Deliver(d, outcome) => Delivered(s, d, outcome)
    case WriteThrough(d, ok) => WrittenThrough(s, d, ok)
    case Finish(caller) => FinishedBy(s, caller)
    case Dial(r) => s.(connector := Dialled(r), dialled := Some(r))
    case GiveUp(action) => s.(connector := GivingUp(action))
    case Connect(action) => Connected(s, action)
    case Report => Reported(s)
    case Replay(written, failed) => Replayed(s, written, failed)
    case StartPump => s.(connector := Ended, pumping := true, pumps := s.pumps + 1)
    case Discard => s.(connector := Ended, closes := s.closes + 1)
    case CloseRemote => RemoteClosed(s)
    case DeleteEntry => s.(closer := Reporting(s.closer.report))
    case ReportEnd => FinishReported(s)
  }

  // ---------- What every session keeps ----------

  /** `connect` and `pump` are each started at most once. */
  predicate Life(s: Session) {
    && s.connects == (if s.connector.Idle? then 0 else 1)
    && (s.resolving <==> !s.connector.Idle?)
    && s.pumps <= 1 && (s.pumping ==> s.pumps == 1) && (s.pumps == 1 ==> s.connector.Ended?)
  }

  function InHand(s: Session): nat {
    (if s.remote.Some? then 1 else 0)
    + (if s.connector.Dialled? || s.connector.Discarding? then 1 else 0)
    + (if s.closer.Closing? && s.closer.remote.Some? then 1 else 0)
  }

  /** The remote a session dialled is held by the open session, in the hands of a running
      `connect` or `finish`, or closed: exactly one of these, and closed at most once. */
  predicate Remotes(s: Session) {
    && InHand(s) + s.closes == (if s.dialled.Some? then 1 else 0)
    && (s.connector.Idle? || s.connector.Dialling? || s.connector.GivingUp? ==> s.dialled.None?)
    && (s.connector.Dialled? || s.connector.Discarding? || s.connector.Replaying? ==>
          s.dialled == Some(s.connector.remote))
    && (s.remote.Some? ==> s.remote == s.dialled && s.closer.Open? && !s.connector.Dialling?)
    && (s.closer.Closing? && s.closer.remote.Some? ==> s.closer.remote == s.dialled)
  }

  function Owed(s: Session): nat {
    (if s.connector.Replaying? && s.connector.report then 1 else 0)
    + (if (s.closer.Closing? || s.closer.Deleting? || s.closer.Reporting?) && s.closer.report then 1 else 0)
  }

  /** A session counted is reported exactly once, now or by a task already under way. */
  predicate Reports(s: Session) {
    s.reports + Owed(s) == if s.counted then 1 else 0
  }

  predicate Increasing(s: seq<Dgram>) {
    forall i, j | 0 <= i < j < |s| :: s[i].no < s[j].no
  }

  /** `s` is an in-order subsequence of `all`, which is itself in order. */
  predicate DrawnFrom(s: seq<Dgram>, all: seq<Dgram>) {
    Increasing(s) && forall d | d in s :: d in all
  }

  /** What waits for the remote: at most 16 datagrams and 32 KiB, in order of arrival. */
  predicate Buffer(s: Session) {
    && |s.pending| <= MAX_PENDING_DATAGRAMS && TotalSize(s.pending) <= MAX_PENDING_BYTES
    && (s.closer.Open? ==> s.pendingBytes == TotalSize(s.pending))
    && Increasing(s.arrived) && DrawnFrom(s.pending, s.arrived)
    && s.cut <= After(s.arrived)
  }

  predicate AllBelow(s: seq<Dgram>, n: nat) {
    forall d | d in s :: d.no < n
  }

  predicate Unpublished(s: Session) {
    !s.connector.Replaying? && !s.connector.Ended?
  }

  /** What was replayed is a bounded, ordered part of what arrived. */
  predicate ReplayBound(s: Session) {
    s.connector.Replaying? ==>
      && DrawnFrom(s.connector.rest, s.arrived) && AllBelow(s.connector.rest, s.cut)
      && |s.connector.rest| <= MAX_PENDING_DATAGRAMS && TotalSize(s.connector.rest) <= MAX_PENDING_BYTES
  }

  /** The remote sees datagrams in order of arrival exactly when none was replayed late. */
  predicate Wire(s: Session) {
    && (Unpublished(s) ==> s.wire == [] && !s.direct && !s.late)
    && (forall d | d in s.wire :: d in s.arrived)
    && (!s.direct && s.connector.Replaying? && s.connector.rest != [] ==>
          AllBelow(s.wire, s.connector.rest[0].no))
    && (s.direct ==> !AllBelow(s.wire, s.cut))
    && (s.late <==> !Increasing(s.wire))
  }

  /** The datagram the reader is about to write is the newest of its session. */
  predicate Newest(s: Session, d: Dgram) {
    && !Unpublished(s) && s.arrived != [] && d == s.arrived[|s.arrived| - 1]
    && s.cut <= d.no && AllBelow(s.wire, d.no)
  }

  predicate Tasks(s: Session) {
    Life(s) && Remotes(s) && Reports(s)
  }

  predicate Traffic(s: Session) {
    Buffer(s) && ReplayBound(s) && Wire(s)
  }

  predicate Good(s: Session) {
    Tasks(s) && Traffic(s)
  }

  /** What the reader guarantees about the datagram it brings. */
  predicate Fits(s: Session, e: Event) {
    && (e.Deliver? ==> After(s.arrived) <= e.d.no)
    && (e.WriteThrough? ==> Newest(s, e.d))
  }

  lemma {:induction false} NewIsGood(key: string)
    ensures Good(NewSession(key))
  {
  }

  lemma {:induction false} BelowAfter(s: seq<Dgram>)
    requires Increasing(s)
    ensures AllBelow(s, After(s))
  {
  }

  lemma {:induction false} AppendIncreasing(s: seq<Dgram>, d: Dgram)
    ensures Increasing(s + [d]) <==> Increasing(s) && AllBelow(s, d.no)
  {
    var t := s + [d];
    if Increasing(t) {
      forall i, j | 0 <= i < j < |s|
        ensures s[i].no < s[j].no
      {
        assert t[i].no < t[j].no;
      }
      forall e | e in s
        ensures e.no < d.no
      {
        var i :| 0 <= i < |s| && s[i] == e;
        assert t[i].no < t[|s|].no;
      }
    }
  }

  lemma {:induction false} AppendDrawn(s: seq<Dgram>, all: seq<Dgram>, d: Dgram)
    requires Increasing(all) && DrawnFrom(s, all) && After(all) <= d.no
    ensures DrawnFrom(s, all + [d]) && DrawnFrom(s + [d], all + [d]) && Increasing(all + [d])
  {
    hide Increasing;
    BelowAfter(all);
    AppendIncreasing(s, d);
    AppendIncreasing(all, d);
  }

  lemma {:induction false} TotalAppend(s: seq<Dgram>, d: Dgram)
    ensures TotalSize(s + [d]) == TotalSize(s) + d.size
  {
    assert (s + [d])[..|s|] == s;
  }

  /** What is left to replay without its head weighs no more. */
  lemma {:induction false} TotalOfTail(s: seq<Dgram>)
    requires s != []
    ensures TotalSize(s[1..]) <= TotalSize(s)
  {
    if |s| > 1 {
      TotalOfTail(s[..|s| - 1]);
      assert s[1..][..|s| - 2] == s[..|s| - 1][1..];
    }
  }

  // What each step keeps.

  lemma {:induction false} ArriveKept(s: Session, d: Dgram)
    requires Good(s) && After(s.arrived) <= d.no
    ensures Good(Arrived(s, d)) && DrawnFrom(s.pending + [d], s.arrived + [d])
  {
    hide TotalSize, Increasing, DrawnFrom, AllBelow;
    AppendDrawn(s.pending, s.arrived, d);
    if s.connector.Replaying? {
      AppendDrawn(s.connector.rest, s.arrived, d);
    }
  }

  lemma {:induction false} BufferKept(s: Session, d: Dgram)
    requires Good(s) && s.closer.Open? && DrawnFrom(s.pending + [d], s.arrived)
    ensures Good(Buffered(s, d))
  {
    hide TotalSize, Increasing, DrawnFrom, AllBelow;
    TotalAppend(s.pending, d);
  }

  lemma {:induction false} StartKept(s: Session, host: string)
    requires Good(s) && !s.resolving
    ensures Good(ConnectStarted(s, host))
  {
    hide TotalSize, Increasing, DrawnFrom, AllBelow;
  }

  lemma {:induction false} DeliverKept(s: Session, d: Dgram, outcome: Outcome)
    requires Good(s) && After(s.arrived) <= d.no
    ensures Good(Delivered(s, d, outcome))
  {
    ArriveKept(s, d);
    var a := Arrived(s, d);
    if s.closer.Open? && s.remote.None? {
      hide Good, DrawnFrom;
      BufferKept(a, d);
      if !s.resolving && outcome.Resolved? {
        StartKept(Buffered(a, d), outcome.host);
      }
    }
  }

  lemma {:induction false} WriteKept(s: Session, d: Dgram, ok: bool)
    requires Good(s) && Newest(s, d)
    ensures Good(WrittenThrough(s, d, ok))
  {
    hide TotalSize, Increasing, DrawnFrom;
    AppendIncreasing(s.wire, d);
  }

  lemma {:induction false} CloseKept(s: Session, host: string, action: string)
    requires Good(s)
    ensures Good(Finished(s, host, action)) && Finished(s, host, action).connector == s.connector
    ensures Finished(s, host, action).pumping == s.pumping
  {
    hide Increasing, AllBelow, DrawnFrom;
    EmptyDrawn(s.arrived);
  }

  lemma {:induction false} FinishKept(s: Session, caller: Caller)
    requires Good(s) && Enabled(s, Finish(caller))
    ensures Good(FinishedBy(s, caller))
  {
    hide Finished, Good;
    match caller {
      case Janitor => CloseKept(s, "", "");
      case Aborting => CloseKept(s, "", "nohost");
      case Pumping =>
        CloseKept(s, s.host, s.action);
        PumpEnded(Finished(s, s.host, s.action));
      case Connecting =>
        CloseKept(s, s.host, s.connector.action);
        ConnectorEnded(Finished(s, s.host, s.connector.action));
    }
  }

  lemma {:induction false} PumpEnded(s: Session)
    requires Good(s)
    ensures Good(s.(pumping := false))
  {
    hide Increasing, AllBelow, DrawnFrom, TotalSize;
  }

  lemma {:induction false} ConnectorEnded(s: Session)
    requires Good(s) && s.connector.GivingUp?
    ensures Good(s.(connector := Ended))
  {
    hide Increasing, AllBelow, DrawnFrom, TotalSize;
    EmptyWire();
  }

  lemma {:induction false} EmptyWire()
    ensures Increasing([]) && forall n: nat :: AllBelow([], n)
  {
  }

  lemma {:induction false} EmptyDrawn(all: seq<Dgram>)
    ensures DrawnFrom([], all)
  {
  }

  lemma {:induction false} ConnectKept(s: Session, action: string)
    requires Good(s) && s.connector.Dialled?
    ensures Good(Connected(s, action))
  {
    hide Increasing;
    BelowAfter(s.arrived);
  }

  lemma {:induction false} ReplayTasks(s: Session, written: bool, failed: bool)
    requires Tasks(s) && Enabled(s, Replay(written, failed))
    ensures Tasks(Replayed(s, written, failed))
  {
  }

  lemma {:induction false} ReplayTraffic(s: Session, written: bool, failed: bool)
    requires Traffic(s) && Enabled(s, Replay(written, failed))
    ensures Traffic(Replayed(s, written, failed))
    ensures var t := Replayed(s, written, failed);
      && t.wire == s.wire + (if written then [s.connector.rest[0]] else [])
      && t.connector == s.connector.(rest := if failed then [] else s.connector.rest[1..])
  {
    ReplayWrites(s, written, failed);
    ReplayBuffer(s, written, failed);
    RestShrinks(s.connector.rest, s.arrived, s.cut);
    AppendIncreasing(s.wire, s.connector.rest[0]);
    WireGrows(s.wire, s.connector.rest);
    hide Increasing, DrawnFrom, TotalSize, AllBelow, Buffer, ReplayBound;
  }

  /** One write of the replay: the first datagram left, and no further one after a failure. */
  lemma ReplayWrites(s: Session, written: bool, failed: bool)
    requires Enabled(s, Replay(written, failed))
    ensures var t := Replayed(s, written, failed);
      && t.wire == s.wire + (if written then [s.connector.rest[0]] else [])
      && t.connector == s.connector.(rest := if failed then [] else s.connector.rest[1..])
  {
  }

  lemma ReplayBuffer(s: Session, written: bool, failed: bool)
    requires Buffer(s) && ReplayBound(s) && Enabled(s, Replay(written, failed))
    ensures Buffer(Replayed(s, written, failed)) && ReplayBound(Replayed(s, written, failed))
    ensures DrawnFrom(s.connector.rest, s.arrived) && Increasing(s.connector.rest)
    ensures AllBelow(s.connector.rest, s.cut)
  {
    RestShrinks(s.connector.rest, s.arrived, s.cut);
    TotalOfTail(s.connector.rest);
    assert TotalSize([]) == 0;
    EmptyDrawn(s.arrived);
    hide Increasing, TotalSize, AllBelow;
  }

  lemma {:induction false} RestShrinks(rest: seq<Dgram>, all: seq<Dgram>, cut: nat)
    requires DrawnFrom(rest, all) && rest != [] && AllBelow(rest, cut)
    ensures DrawnFrom(rest[1..], all) && AllBelow(rest[1..], cut)
    ensures rest[0] in all && rest[0].no < cut && AllBelow([], cut)
  {
  }

  lemma {:induction false} WireGrows(wire: seq<Dgram>, rest: seq<Dgram>)
    requires Increasing(rest) && rest != []
    ensures AllBelow(wire, rest[0].no) && |rest| > 1 ==>
      AllBelow(wire + [rest[0]], rest[1].no) && AllBelow(wire, rest[1].no)
    ensures forall n: nat :: !AllBelow(wire, n) ==> !AllBelow(wire + [rest[0]], n)
    ensures forall n: nat :: rest[0].no < n && !AllBelow(wire, n) ==> !AllBelow(wire, rest[0].no)
  {
    forall n: nat | !AllBelow(wire, n)
      ensures !AllBelow(wire + [rest[0]], n)
      ensures rest[0].no < n ==> !AllBelow(wire, rest[0].no)
    {
      var d :| d in wire && d.no >= n;
      assert d in wire + [rest[0]];
    }
  }

  lemma {:induction false} TasksKept(s: Session, e: Event)
    requires Good(s) && Enabled(s, e)
    requires e.Dial? || e.GiveUp? || e.Report? || e.StartPump? || e.Discard?
    ensures Good(Advance(s, e))
  {
    hide Increasing, DrawnFrom, TotalSize, AllBelow, Delivered, WrittenThrough, FinishedBy, Connected, Replayed;
  }

  lemma {:induction false} CloserKept(s: Session, e: Event)
    requires Good(s) && Enabled(s, e)
    requires e.CloseRemote? || e.DeleteEntry? || e.ReportEnd?
    ensures Good(Advance(s, e))
  {
    hide Increasing, DrawnFrom, TotalSize, AllBelow, Delivered, WrittenThrough, FinishedBy, Connected, Replayed;
  }

  lemma {:induction false} GoodKept(s: Session, e: Event)
    requires Enabled(s, e) && Fits(s, e) && Good(s)
    ensures Good(Advance(s, e))
  {
    hide Delivered, WrittenThrough, FinishedBy, Connected, Replayed;
    match e {
      case Deliver(d, outcome) => DeliverKept(s, d, outcome);
      case WriteThrough(d, ok) => WriteKept(s, d, ok);
      case Finish(caller) => FinishKept(s, caller);
      case Connect(action) => ConnectKept(s, action);
      case Replay(written, failed) =>
        ReplayTasks(s, written, failed);
        ReplayTraffic(s, written, failed);
      case Dial(_) => TasksKept(s, e);
      case GiveUp(_) => TasksKept(s, e);
      case Report => TasksKept(s, e);
      case StartPump => TasksKept(s, e);
      case Discard => TasksKept(s, e);
      case CloseRemote => CloserKept(s, e);
      case DeleteEntry => CloserKept(s, e);
      case ReportEnd => CloserKept(s, e);
    }
  }

  /** Other tasks do not make the reader's datagram stale. */
  lemma {:induction false} NewestKept(s: Session, e: Event, d: Dgram)
    requires Enabled(s, e) && !e.Deliver? && !e.WriteThrough? && Good(s) && Newest(s, d)
    ensures Newest(Advance(s, e), d)
  {
    hide Life, Remotes, Reports, Buffer, Wire, Delivered, WrittenThrough;
    match e {
      case Replay(_, _) =>
      case Finish(caller) => FinishLeaves(s, caller);
      case _ => hide ReplayBound, AllBelow, Replayed, FinishedBy;
    }
  }

  /** `finish` touches neither the arrivals nor the wire. */
  lemma {:induction false} FinishLeaves(s: Session, caller: Caller)
    ensures var t := FinishedBy(s, caller);
      t.arrived == s.arrived && t.wire == s.wire && t.cut == s.cut && (!Unpublished(s) ==> !Unpublished(t))
  {
    hide Finished;
    CloseLeaves(s, "", "");
    CloseLeaves(s, "", "nohost");
    CloseLeaves(s, s.host, s.action);
    if s.connector.GivingUp? {
      CloseLeaves(s, s.host, s.connector.action);
    }
  }

  lemma {:induction false} CloseLeaves(s: Session, host: string, action: string)
    ensures var t := Finished(s, host, action);
      t.arrived == s.arrived && t.wire == s.wire && t.cut == s.cut && t.connector == s.connector
  {
  }
}
