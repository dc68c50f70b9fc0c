/** The reported outcome of an update is determined by what the script met, whatever ran beside it. */
module TransactionTrail {
  import opened Common
  import opened Transaction

  /** What the script did so far and how it went: an installation copies and renames its binary, a
      check finds the service active and printing the version asked for. */
  datatype Deed = Installs(ok: bool) | Checks(ok: bool)

  function CountOf(install: bool, trail: seq<Deed>): nat {
    if trail == [] then 0
    else CountOf(install, trail[..|trail| - 1]) + if trail[|trail| - 1].Installs? == install then 1 else 0
  }

  /** The first installation takes the new binary from the staging directory, the second the
      fallback; the first check asks for the new version, the second for the old one. */
  function Longer(job: Job, st: State, trail: seq<Deed>, step: Step): seq<Deed> {
    match step
    case Install(copied, moved) =>
      var there := if CountOf(true, trail) == 0 then st.staging else st.fallback;
      trail + [Installs(there && copied && moved)]
    case Check(active) =>
      var asked := if CountOf(false, trail) == 0 then job.to else job.from;
      trail + [Checks(active && st.bin.version == asked)]
    case _ => trail
  }

  ghost function Trail(job: Job, run: seq<Step>): seq<Deed>
    requires Execute(job, run).Some?
  {
    if run == [] then []
    else
      var front := run[..|run| - 1];
      Longer(job, Execute(job, front).value, Trail(job, front), run[|run| - 1])
  }

  /** What must be reported. */
  ghost predicate Reports(trail: seq<Deed>, status: Status) {
    match status
    case InstallFailed => trail == [Installs(false)]
    case Success => trail == [Installs(true), Checks(true)]
    case RolledBack => trail == [Installs(true), Checks(false), Installs(true), Checks(true)]
    case RollbackFailed =>
      || trail == [Installs(true), Checks(false), Installs(false)]
      || trail == [Installs(true), Checks(false), Installs(true), Checks(false)]
  }

  /** How far the script is, by its trail. */
  ghost predicate Stands(trail: seq<Deed>, st: State) {
    (!Done(st.point) ==> st.statuses == []) &&
    match st.point
    case Waiting => trail == []
    case NewInstalled => trail == [Installs(true)]
    case Verifying => trail == [Installs(true)]
    case RollingBack => trail == [Installs(true), Checks(false)]
    case OldInstalled => trail == [Installs(true), Checks(false), Installs(true)]
    case VerifyingOld => trail == [Installs(true), Checks(false), Installs(true)]
    case Failing => Reports(trail, RollbackFailed)
    case _ => |st.statuses| == 1 && Reports(trail, st.statuses[0])
  }

  lemma Counts()
    ensures CountOf(true, []) == 0 && CountOf(false, []) == 0
    ensures CountOf(false, [Installs(true)]) == 0
    ensures CountOf(true, [Installs(true), Checks(false)]) == 1
    ensures CountOf(false, [Installs(true), Checks(false), Installs(true)]) == 1
  {
    var one, two, three := [Installs(true)], [Installs(true), Checks(false)],
      [Installs(true), Checks(false), Installs(true)];
    assert one[..0] == [] && two[..1] == one && three[..2] == two;
    assert CountOf(true, one) == 1 && CountOf(false, one) == 0;
    assert CountOf(true, two) == 1 && CountOf(false, two) == 1;
  }

  lemma {:induction false} StepStands(job: Job, st: State, trail: seq<Deed>, step: Step)
    requires Stands(trail, st) && Enabled(job, st, step)
    ensures Stands(Longer(job, st, trail, step), Apply(job, st, step))
  {
    Counts();
    hide CleanedUp, Fits, CountOf;
    match step {
      case ServiceCleanup(look) => CleanupElsewhere(job, st, look);
      case _ =>
    }
  }

  lemma CleanupElsewhere(job: Job, st: State, look: Look)
    ensures CleanedUp(job, st, look).point == st.point && CleanedUp(job, st, look).statuses == st.statuses
  {
  }

  /** At every moment of every run the trail says where the script is, and when it has reported, the
      trail it reported on. */
  lemma {:induction false} TrailMeaning(job: Job, run: seq<Step>)
    requires Execute(job, run).Some?
    ensures Stands(Trail(job, run), Execute(job, run).value)
  {
    hide Stands, Longer, Apply, Enabled;
    if run == [] {
      assert Stands([], Start(job)) by { AtStart(job); }
    } else {
      var front := run[..|run| - 1];
      TrailMeaning(job, front);
      StepStands(job, Execute(job, front).value, Trail(job, front), run[|run| - 1]);
    }
  }

  lemma AtStart(job: Job)
    ensures Stands([], Start(job))
  {
  }

  /** So the one status a script ends with is the one its trail calls for: success exactly if the
      new binary was installed and came up as asked for, rolled back exactly if that failed and the
      old one was, install_failed exactly if nothing was replaced, and rollback_failed otherwise. */
  lemma {:induction false} OutcomeExact(job: Job, run: seq<Step>)
    requires Execute(job, run).Some? && Execute(job, run).value.point.Exited?
    ensures var st := Execute(job, run).value;
      |st.statuses| == 1 && forall status :: Reports(Trail(job, run), status) <==> status == st.statuses[0]
  {
    hide Execute, Trail;
    TrailMeaning(job, run);
  }

  /** Until it has exited the script can always go on, whatever the cleanups took from it. */
  lemma {:induction false} NeverStuck(job: Job, st: State)
    requires !st.point.Exited?
    ensures forall seconds: nat :: Enabled(job, st, Elapse(seconds))
    ensures exists step: Step :: !step.ServiceCleanup? && !step.Elapse? && Enabled(job, st, step)
  {
    var step: Step := match st.point
      case Waiting => Install(true, true)
      case RollingBack => Install(true, true)
      case NewInstalled => Restarted
      case OldInstalled => Restarted
      case Verifying => Check(true)
      case VerifyingOld => Check(true)
      case Failing => GiveUp
      case _ => RemoveStaging(true);
    assert Enabled(job, st, step);
  }

  function Elapsed(run: seq<Step>): nat {
    if run == [] then 0
    else
      var last := run[|run| - 1];
      Elapsed(run[..|run| - 1]) + if last.Elapse? then last.seconds else 0
  }

  /** The staging directory is as old as the time that has passed. */
  lemma {:induction false} AgeMeaning(job: Job, run: seq<Step>)
    requires Execute(job, run).Some?
    ensures Execute(job, run).value.age == Elapsed(run)
  {
    if run != [] {
      AgeMeaning(job, run[..|run| - 1]);
      AgeMoves(job, Execute(job, run[..|run| - 1]).value, run[|run| - 1]);
      hide Enabled, Apply;
    }
  }

  lemma AgeMoves(job: Job, st: State, step: Step)
    requires Enabled(job, st, step)
    ensures Apply(job, st, step).age == st.age + if step.Elapse? then step.seconds else 0
  {
    hide Fits;
  }

  /** How many steps the script has left at most. */
  function Left(p: Point): nat {
    match p
    case Waiting => 7
    case NewInstalled => 6
    case Verifying => 5
    case RollingBack => 4
    case OldInstalled => 3
    case VerifyingOld => 2
    case Failing => 1
    case CleaningUp(_) => 0
    case Exited(_) => 0
  }

  /** Each of its steps brings the script nearer to its report, after which only its directory is
      removed; cleanups and time do not move it. */
  lemma {:induction false} Advances(job: Job, st: State, step: Step)
    requires Enabled(job, st, step)
    ensures var t := Apply(job, st, step);
      if step.ServiceCleanup? || step.Elapse? then t.point == st.point
      else if step.RemoveStaging? then
        t.point == Exited(st.point.code) && (t.staging <==> st.staging && !step.ok)
      else Left(t.point) < Left(st.point)
  {
    hide CleanedUp, Fits;
    if step.ServiceCleanup? {
      CleanupElsewhere(job, st, step.look);
    }
  }
}
