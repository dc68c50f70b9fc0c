/** The alert automaton of the health monitor: when a run of failed probes raises an alarm. */
module Alerts {
  import opened Common

  datatype Probe = Probe(at: int, ok: bool)

  datatype Notice = Quiet | Alarm | Recovery

  /** What is remembered per egress; no entry reads as the initial state. */
  datatype Track = Track(consec: nat, alerted: bool, lastAlert: Option<int>)

  const FRESH := Track(0, false, None)

  /** The alarm threshold and the least time between alarms. */
  datatype Limits = Limits(after: nat, cooldown: nat)

  predicate CooledDown(last: Option<int>, now: int, l: Limits) {
    last.None? || now - last.value >= l.cooldown
  }

  /** `recordProbe`, for one egress. */
  function Next(t: Track, p: Probe, l: Limits): (Track, Notice) {
    if p.ok then (t.(consec := 0, alerted := false), if t.alerted then Recovery else Quiet)
    else
      var n := t.consec + 1;
      if n == l.after && !t.alerted && CooledDown(t.lastAlert, p.at, l) then
        (Track(n, true, Some(p.at)), Alarm)
      else (t.(consec := n), Quiet)
  }

  class Monitor {
    var tracks: map<string, Track>
    const limits: Limits

    constructor (limits: Limits)
      ensures tracks == map[] && this.limits == limits
    {
      tracks := map[];
      this.limits := limits;
    }

    ghost function TrackOf(name: string): Track
      reads this
    {
      if name in tracks then tracks[name] else FRESH
    }

    /** `recordProbe`: only the probed egress changes. */
    method RecordProbe(name: string, p: Probe) returns (notice: Notice)
      modifies this
      ensures (TrackOf(name), notice) == Next(old(TrackOf(name)), p, limits)
      ensures forall other | other != name :: TrackOf(other) == old(TrackOf(other))
    {
      var t := if name in tracks then tracks[name] else FRESH;
      notice := Quiet;
      if p.ok {
        if t.alerted {
          t := t.(alerted := false);
          notice := Recovery;
        }
        t := t.(consec := 0);
      } else {
        t := t.(consec := t.consec + 1);
        if t.consec == limits.after && !t.alerted
              && (t.lastAlert.None? || p.at - t.lastAlert.value >= limits.cooldown) {
          t := t.(alerted := true, lastAlert := Some(p.at));
          notice := Alarm;
        }
      }
      tracks := tracks[name := t];
    }

    /** `ForgetEgress`. */
    method ForgetEgress(name: string)
      modifies this
      ensures TrackOf(name) == (if name == "" then old(TrackOf(name)) else FRESH)
      ensures forall other | other != name :: TrackOf(other) == old(TrackOf(other))
    {
      if name != "" {
        tracks := tracks - {name};
      }
    }
  }

  // ---------- Whole histories ----------

  /** The state after the first `n` probes of a history. */
  function After(h: seq<Probe>, n: nat, l: Limits): Track
    requires n <= |h|
  {
    if n == 0 then FRESH else Next(After(h, n - 1, l), h[n - 1], l).0
  }

  /** What probe `i` caused to be sent. */
  function NoticeAt(h: seq<Probe>, i: nat, l: Limits): Notice
    requires i < |h|
  {
    Next(After(h, i, l), h[i], l).1
  }

  /** How many probes up to the `n`-th failed in a row. */
  function Streak(h: seq<Probe>, n: nat): nat
    requires n <= |h|
  {
    if n == 0 || h[n - 1].ok then 0 else Streak(h, n - 1) + 1
  }

  predicate AlarmAt(h: seq<Probe>, i: nat, l: Limits) {
    i < |h| && NoticeAt(h, i, l) == Alarm
  }

  /** The time of the last alarm among the first `n` probes. */
  function LastAlarm(h: seq<Probe>, n: nat, l: Limits): Option<int>
    requires n <= |h|
  {
    if n == 0 then None
    else if NoticeAt(h, n - 1, l) == Alarm then Some(h[n - 1].at)
    else LastAlarm(h, n - 1, l)
  }

  /** The state, read off the history. */
  lemma {:induction false} TrackMeaning(h: seq<Probe>, n: nat, l: Limits)
    requires n <= |h|
    ensures var t := After(h, n, l);
      && t.consec == Streak(h, n)
      && t.lastAlert == LastAlarm(h, n, l)
      && (t.alerted ==> Streak(h, n) >= l.after)
      && (t.alerted <==> exists j: nat :: n - Streak(h, n) <= j < n && AlarmAt(h, j, l))
  {
    if n > 0 {
      TrackMeaning(h, n - 1, l);
      var s := Streak(h, n - 1);
      if !h[n - 1].ok {
        assert n - Streak(h, n) == n - 1 - s;
        if NoticeAt(h, n - 1, l) == Alarm {
          assert AlarmAt(h, n - 1, l);
        }
      }
    }
  }

  /** An alarm is sent for a probe exactly when it is the `after`-th failure of an unbroken
      run and the last alarm is at least a cooldown ago. */
  lemma AlarmIff(h: seq<Probe>, i: nat, l: Limits)
    requires i < |h|
    ensures NoticeAt(h, i, l) == Alarm <==>
      && !h[i].ok && Streak(h, i + 1) == l.after
      && (LastAlarm(h, i, l).None? || h[i].at >= LastAlarm(h, i, l).value + l.cooldown)
  {
    TrackMeaning(h, i, l);
  }

  /** A recovery is sent exactly for the success that ends a run in which an alarm was sent. */
  lemma RecoveryIff(h: seq<Probe>, i: nat, l: Limits)
    requires i < |h|
    ensures NoticeAt(h, i, l) == Recovery <==>
      h[i].ok && exists j: nat :: i - Streak(h, i) <= j < i && AlarmAt(h, j, l)
  {
    TrackMeaning(h, i, l);
  }

  function Count(h: seq<Probe>, n: nat, l: Limits, what: Notice): nat
    requires n <= |h|
  {
    if n == 0 then 0 else Count(h, n - 1, l, what) + if NoticeAt(h, n - 1, l) == what then 1 else 0
  }

  /** Alarms and recoveries strictly alternate, starting with an alarm: after every probe
      there has been one more alarm than recoveries, or as many. */
  lemma {:induction false} Alternate(h: seq<Probe>, n: nat, l: Limits)
    requires n <= |h|
    ensures Count(h, n, l, Alarm) == Count(h, n, l, Recovery) + if After(h, n, l).alerted then 1 else 0
  {
    if n > 0 {
      Alternate(h, n - 1, l);
    }
  }

  predicate Monotone(h: seq<Probe>) {
    forall i, j | 0 <= i < j < |h| :: h[i].at <= h[j].at
  }

  lemma {:induction false} LastAlarmIsLatest(h: seq<Probe>, i: nat, n: nat, l: Limits)
    requires Monotone(h) && i < n <= |h| && NoticeAt(h, i, l) == Alarm
    ensures LastAlarm(h, n, l).Some? && h[i].at <= LastAlarm(h, n, l).value
  {
    if i < n - 1 {
      LastAlarmIsLatest(h, i, n - 1, l);
    }
  }

  /** Two alarms for one egress are at least the cooldown apart. */
  lemma AlarmsApart(h: seq<Probe>, i: nat, j: nat, l: Limits)
    requires Monotone(h) && i < j < |h| && NoticeAt(h, i, l) == Alarm && NoticeAt(h, j, l) == Alarm
    ensures h[j].at - h[i].at >= l.cooldown
  {
    LastAlarmIsLatest(h, i, j, l);
    AlarmIff(h, j, l);
  }

  lemma {:induction false} LastAlarmStays(h: seq<Probe>, n: nat, m: nat, l: Limits)
    requires n <= m <= |h| && forall i | n <= i < m :: NoticeAt(h, i, l) != Alarm
    ensures LastAlarm(h, m, l) == LastAlarm(h, n, l)
  {
    if n < m {
      LastAlarmStays(h, n, m - 1, l);
    }
  }

  lemma {:induction false} StreakGrows(h: seq<Probe>, n: nat, m: nat)
    requires n <= m <= |h| && forall i | n <= i < m :: !h[i].ok
    ensures Streak(h, m) == Streak(h, n) + (m - n)
  {
    if n < m {
      StreakGrows(h, n, m - 1);
    }
  }

  /** An outage from probe `n` to the end of the history is reported exactly when its
      `after`-th failure comes a cooldown after the last alarm: otherwise it stays silent,
      however long it lasts. */
  lemma OutageReportedIff(h: seq<Probe>, n: nat, l: Limits)
    requires l.after > 0 && n <= |h| && Streak(h, n) == 0 && forall i | n <= i < |h| :: !h[i].ok
    ensures (exists i: nat :: n <= i < |h| && AlarmAt(h, i, l)) <==>
      n + l.after <= |h| && CooledDown(LastAlarm(h, n, l), h[n + l.after - 1].at, l)
  {
    hide NoticeAt, LastAlarm, Streak;
    forall i: nat | n <= i < |h|
      ensures AlarmAt(h, i, l) <==> i == n + l.after - 1 && CooledDown(LastAlarm(h, i, l), h[i].at, l)
    {
      StreakGrows(h, n, i + 1);
      AlarmIff(h, i, l);
    }
    if n + l.after <= |h| {
      assert forall i | n <= i < n + l.after - 1 :: AlarmAt(h, i, l) <==> NoticeAt(h, i, l) == Alarm;
      LastAlarmStays(h, n, n + l.after - 1, l);
    }
  }

  /** The sources' own defaults: three failures, half an hour. */
  const DEFAULTS := Limits(3, 1800)

  /** A link that drops again five minutes after an alarm, for good, is not reported again. */
  function RelapseHistory(probes: nat): (h: seq<Probe>)
    ensures |h| == probes + 4
  {
    seq(probes + 4, i requires 0 <= i < probes + 4 => Probe(60 * i, i == 3))
  }

  lemma RelapseIsSilent(probes: nat, i: nat)
    requires 4 <= i < probes + 4
    ensures NoticeAt(RelapseHistory(probes), 2, DEFAULTS) == Alarm
    ensures !RelapseHistory(probes)[i].ok && NoticeAt(RelapseHistory(probes), i, DEFAULTS) == Quiet
  {
    var h := RelapseHistory(probes);
    FirstAlarm(h);
    StreakGrows(h, 4, i + 1);
    AlarmIff(h, i, DEFAULTS);
    if i == 6 {
      forall j | 3 <= j < 6
        ensures NoticeAt(h, j, DEFAULTS) != Alarm
      {
        AlarmIff(h, j, DEFAULTS);
        if j >= 4 {
          StreakGrows(h, 4, j + 1);
        }
      }
      LastAlarmStays(h, 3, 6, DEFAULTS);
    }
    hide RelapseHistory, LastAlarm;
  }

  lemma FirstAlarm(h: seq<Probe>)
    requires |h| >= 4 && h[0] == Probe(0, false) && h[1] == Probe(60, false) && h[2] == Probe(120, false)
    ensures NoticeAt(h, 2, DEFAULTS) == Alarm && LastAlarm(h, 3, DEFAULTS) == Some(120)
  {
    assert After(h, 1, DEFAULTS) == Track(1, false, None);
    assert After(h, 2, DEFAULTS) == Track(2, false, None);
  }
}
