/** The update transaction: install, restart, verify, roll back. It runs in a unit of its own,
    beside the cleanup that the restarted service performs. */
module Transaction {
  import opened Common
  import opened Text
  import Versions

  // ---------- The script as a state machine ----------

  /** An installed program, told apart by its content; `version` is what it prints. */
  datatype Binary = Binary(content: nat, version: string)

  datatype Status = InstallFailed | Success | RolledBack | RollbackFailed

  /** What the script was generated for. `suffix` is the random part of the name of the staging
      directory, `backup` the name of the fallback among the backups. */
  datatype Job = Job(original: Binary, update: Binary, fallback: Binary, from: string, to: string, suffix: string,
                     backup: string)

  function StagingName(job: Job): string {
    "update-" + job.suffix
  }

  /** Where the script is. The last three states follow the writing of the result. */
  datatype Point =
    | Waiting
    | NewInstalled
    | Verifying
    | RollingBack
    | OldInstalled
    | VerifyingOld
    | Failing
    | CleaningUp(code: nat)
    | Exited(code: nat)

  /** The staging directory holds the new binary and the script; the fallback is one of the
      backups. `age` counts the seconds since the staging directory was last changed. */
  datatype State = State(point: Point, bin: Binary, staging: bool, fallback: bool, statuses: seq<Status>, age: nat)

  datatype Step =
    | Install(copied: bool, moved: bool)
    | Restarted
    | Check(active: bool)
    | GiveUp
    | RemoveStaging(ok: bool)
    | ServiceCleanup(look: Look)
    | Elapse(seconds: nat)

  function Start(job: Job): State {
    State(Waiting, job.original, true, true, [], 0)
  }

  // ---------- The cleanup of a starting service ----------

  /** What one `cleanupState` meets: the entries listed around the staging directory, whether its
      own entry fails to be looked up, whether its script is seen, the sorted backups (nothing if
      they cannot be listed), how many are to be kept, and which removals fail. */
  datatype Look = Look(before: seq<Versions.StateEntry>, after: seq<Versions.StateEntry>, infoFails: bool,
                       scriptSeen: bool, backups: Option<seq<string>>, keep: nat, stuck: set<string>)

  function OwnEntry(job: Job, st: State, look: Look): Versions.StateEntry {
    Versions.StateEntry(StagingName(job), true, look.infoFails, st.age, look.scriptSeen)
  }

  function Entries(job: Job, st: State, look: Look): seq<Versions.StateEntry> {
    look.before + (if st.staging then [OwnEntry(job, st, look)] else []) + look.after
  }

  predicate Holds(entries: seq<Versions.StateEntry>, name: string) {
    exists e :: e in entries && e.name == name
  }

  /** The listings are of the machine as it is. */
  ghost predicate Fits(job: Job, st: State, look: Look) {
    && !Holds(look.before, StagingName(job)) && !Holds(look.after, StagingName(job))
    && (look.backups.Some? ==>
          Versions.InOrder(look.backups.value) && (job.backup in look.backups.value <==> st.fallback))
  }

  /** What `Versions.CleanupState` leaves of staging directory and fallback. */
  function CleanedUp(job: Job, st: State, look: Look): State {
    var entries, fails := Entries(job, st, look), (name: string) => name in look.stuck;
    st.(staging := Holds(Versions.Remaining(entries, fails), StagingName(job)),
        fallback :=
          if look.backups.None? || Versions.AnyLive(entries) then st.fallback
          else
            match Versions.Pruning(look.backups.value, look.keep, fails)
            case Panicked => st.fallback
            case Pruned(left, _) => job.backup in left)
  }

  /** The staging directory is spared: it cannot be looked up, or it is fresh and its script is
      seen, or it cannot be removed. */
  predicate SparesStaging(job: Job, st: State, look: Look) {
    || look.infoFails
    || (st.age <= Versions.STALE_AFTER && look.scriptSeen)
    || StagingName(job) in look.stuck
  }

  /** The fallback is spared: some transaction is seen to be live, or the pruning does not happen,
      or it keeps the fallback, or cannot remove it. */
  predicate SparesFallback(job: Job, st: State, look: Look) {
    || Versions.AnyLive(look.before + look.after)
    || (st.staging && !look.infoFails && st.age <= Versions.STALE_AFTER && look.scriptSeen)
    || look.backups.None? || |look.backups.value| < look.keep
    || job.backup in look.backups.value[..look.keep] || job.backup in look.stuck
  }

  /** What a cleanup takes away, exactly. */
  lemma CleanupKeepsIff(job: Job, st: State, look: Look)
    requires Fits(job, st, look)
    ensures CleanedUp(job, st, look).staging <==> st.staging && SparesStaging(job, st, look)
    ensures CleanedUp(job, st, look).fallback <==> st.fallback && SparesFallback(job, st, look)
  {
    var fails := (name: string) => name in look.stuck;
    StagingKeptIff(job, st, look, fails);
    LiveIff(job, st, look);
    if look.backups.Some? && |look.backups.value| >= look.keep {
      FallbackKeptIff(job, st, look, fails);
    }
  }

  lemma OwnIsStaging(job: Job, st: State, look: Look)
    ensures Versions.IsStaging(OwnEntry(job, st, look))
    ensures Versions.IsLive(OwnEntry(job, st, look))
            <==> !look.infoFails && st.age <= Versions.STALE_AFTER && look.scriptSeen
  {
    assert StagingName(job)[..7] == "update-";
  }

  lemma StagingKeptIff(job: Job, st: State, look: Look, fails: string -> bool)
    requires Fits(job, st, look) && forall name :: fails(name) <==> name in look.stuck
    ensures Holds(Versions.Remaining(Entries(job, st, look), fails), StagingName(job))
            <==> st.staging && SparesStaging(job, st, look)
  {
    hide Versions.IsStaging, Versions.IsLive, StagingName;
    var entries, own := Entries(job, st, look), OwnEntry(job, st, look);
    OwnIsStaging(job, st, look);
    forall e | e in entries && e.name == StagingName(job)
      ensures st.staging && e == own
    {
      assert e !in look.before && e !in look.after;
    }
    forall e
      ensures e in Versions.Remaining(entries, fails) <==> e in entries && Versions.Stays(e, fails)
    {
      Versions.RemainingMembers(entries, fails, e);
    }
    if st.staging {
      assert own in entries;
    }
  }

  lemma LiveIff(job: Job, st: State, look: Look)
    ensures Versions.AnyLive(Entries(job, st, look)) <==>
              || Versions.AnyLive(look.before + look.after)
              || (st.staging && !look.infoFails && st.age <= Versions.STALE_AFTER && look.scriptSeen)
  {
    hide Versions.IsStaging, Versions.IsLive, StagingName;
    var entries, others := Entries(job, st, look), look.before + look.after;
    OwnIsStaging(job, st, look);
    forall e
      ensures e in entries <==> e in others || (st.staging && e == OwnEntry(job, st, look))
    {
    }
  }

  lemma FallbackKeptIff(job: Job, st: State, look: Look, fails: string -> bool)
    requires look.backups.Some? && |look.backups.value| >= look.keep
    requires forall name :: fails(name) <==> name in look.stuck
    ensures var order := look.backups.value;
            var outcome := Versions.Pruning(order, look.keep, fails);
            outcome.Pruned? && (job.backup in outcome.left
                                <==> job.backup in order
                                      && (job.backup in order[..look.keep] || job.backup in look.stuck))
  {
    hide Versions.Stuck;
    var order, k := look.backups.value, look.keep;
    Versions.StuckMembers(order[k..], fails, job.backup);
    assert order == order[..k] + order[k..];
  }

  // ---------- Steps ----------

  ghost predicate Enabled(job: Job, st: State, step: Step) {
    match step
    case Install(_, _) => st.point.Waiting? || st.point.RollingBack?
    case Restarted => st.point.NewInstalled? || st.point.OldInstalled?
    case Check(_) => st.point.Verifying? || st.point.VerifyingOld?
    case GiveUp => st.point.Failing?
    case RemoveStaging(_) => st.point.CleaningUp?
    case ServiceCleanup(look) => Fits(job, st, look)
    case Elapse(_) => true
  }

  function Finish(st: State, status: Status, code: nat): State {
    st.(point := CleaningUp(code), statuses := st.statuses + [status])
  }

  /** `install_one`: only the final rename changes the installed binary. */
  ghost function Apply(job: Job, st: State, step: Step): State
    requires Enabled(job, st, step)
  {
    match step
    case Install(copied, moved) =>
      if st.point.Waiting? then
        if st.staging && copied && moved then st.(point := NewInstalled, bin := job.update)
        else Finish(st, InstallFailed, 1)
      else if st.fallback && copied && moved then st.(point := OldInstalled, bin := job.fallback)
      else st.(point := Failing)
    case Restarted => st.(point := if st.point.NewInstalled? then Verifying else VerifyingOld)
    case Check(active) =>
      if st.point.Verifying? then
        if active && st.bin.version == job.to then Finish(st, Success, 0) else st.(point := RollingBack)
      else if active && st.bin.version == job.from then Finish(st, RolledBack, 1)
      else st.(point := Failing)
    case GiveUp => Finish(st, RollbackFailed, 2)
    case RemoveStaging(ok) => st.(point := Exited(st.point.code), staging := st.staging && !ok)
    case ServiceCleanup(look) => CleanedUp(job, st, look)
    case Elapse(seconds) => st.(age := st.age + seconds)
  }

  ghost function Execute(job: Job, run: seq<Step>): Option<State> {
    if run == [] then Some(Start(job))
    else
      match Execute(job, run[..|run| - 1])
      case None => None
      case Some(st) => if Enabled(job, st, run[|run| - 1]) then Some(Apply(job, st, run[|run| - 1])) else None
  }

  predicate Done(p: Point) {
    p.CleaningUp? || p.Exited?
  }

  /** What a written status says about the machine. */
  predicate Truthful(job: Job, bin: Binary, status: Status) {
    match status
    case InstallFailed => bin == job.original
    case Success => bin == job.update && job.update.version == job.to
    case RolledBack => bin == job.fallback && job.fallback.version == job.from
    case RollbackFailed => bin == job.update || bin == job.fallback
  }

  /** The status that goes with an exit code. */
  predicate CodeFits(code: nat, status: Status) {
    match status
    case Success => code == 0
    case RollbackFailed => code == 2
    case _ => code == 1
  }

  predicate Inv(job: Job, st: State) {
    && (if Done(st.point) then
          |st.statuses| == 1 && Truthful(job, st.bin, st.statuses[0]) && CodeFits(st.point.code, st.statuses[0])
        else st.statuses == [])
    && (st.point.Waiting? ==> st.bin == job.original)
    && (st.point.NewInstalled? || st.point.Verifying? || st.point.RollingBack? ==> st.bin == job.update)
    && (st.point.OldInstalled? || st.point.VerifyingOld? ==> st.bin == job.fallback)
    && (st.point.Failing? ==> st.bin == job.update || st.bin == job.fallback)
  }

  lemma {:induction false} StepKept(job: Job, st: State, step: Step)
    requires Inv(job, st) && Enabled(job, st, step)
    ensures Inv(job, Apply(job, st, step))
  {
  }

  lemma {:induction false} InvariantOfRuns(job: Job, run: seq<Step>)
    requires Execute(job, run).Some?
    ensures Inv(job, Execute(job, run).value)
  {
    hide Inv, Enabled, Apply;
    if run == [] {
      StartOk(job);
    } else {
      InvariantOfRuns(job, run[..|run| - 1]);
      StepKept(job, Execute(job, run[..|run| - 1]).value, run[|run| - 1]);
    }
  }

  lemma StartOk(job: Job)
    ensures Inv(job, Start(job))
  {
  }

  /** When the script has exited, exactly one status has been written, it is true of the
      installed binary, and the exit code agrees with it. */
  lemma OutcomeTruthful(job: Job, run: seq<Step>)
    requires Execute(job, run).Some? && Execute(job, run).value.point.Exited?
    ensures var st := Execute(job, run).value;
      && |st.statuses| == 1 && CodeFits(st.point.code, st.statuses[0])
      && (st.statuses[0] == Success ==> st.bin == job.update && st.bin.version == job.to)
      && (st.statuses[0] == RolledBack ==> st.bin == job.fallback && st.bin.version == job.from)
      && (st.statuses[0] == InstallFailed ==> st.bin == job.original)
      && (st.statuses[0] == RollbackFailed ==> st.bin == job.update || st.bin == job.fallback)
  {
    hide Execute;
    InvariantOfRuns(job, run);
  }

  /** No status is written twice, at any time. */
  lemma AtMostOneStatus(job: Job, run: seq<Step>)
    requires Execute(job, run).Some?
    ensures |Execute(job, run).value.statuses| <= 1
  {
    hide Execute;
    InvariantOfRuns(job, run);
  }

  // ---------- What the rollback needs ----------

  /** No cleanup of the run took the staging directory. */
  ghost predicate StagingSpared(job: Job, run: seq<Step>) {
    forall i | 0 <= i < |run| && run[i].ServiceCleanup? && Execute(job, run[..i]).Some? ::
      SparesStaging(job, Execute(job, run[..i]).value, run[i].look)
  }

  /** No cleanup of the run took the fallback. */
  ghost predicate FallbackSpared(job: Job, run: seq<Step>) {
    forall i | 0 <= i < |run| && run[i].ServiceCleanup? && Execute(job, run[..i]).Some? ::
      SparesFallback(job, Execute(job, run[..i]).value, run[i].look)
  }

  /** Over every run: the fallback is there if and only if every cleanup spared it, and so is the
      staging directory until the script has ended. */
  lemma {:induction false} SurviveIff(job: Job, run: seq<Step>)
    requires Execute(job, run).Some?
    ensures var st := Execute(job, run).value;
      && (st.fallback <==> FallbackSpared(job, run))
      && (!st.point.Exited? ==> (st.staging <==> StagingSpared(job, run)))
  {
    hide SparesStaging, SparesFallback, CleanedUp, Fits;
    if run != [] {
      var front, step := run[..|run| - 1], run[|run| - 1];
      SurviveIff(job, front);
      var st := Execute(job, front).value;
      SparedStep(job, run);
      if step.ServiceCleanup? {
        CleanupKeepsIff(job, st, step.look);
        SameElse(job, st, step.look);
      }
    }
  }

  lemma SameElse(job: Job, st: State, look: Look)
    ensures var cleaned := CleanedUp(job, st, look);
      cleaned == st.(staging := cleaned.staging, fallback := cleaned.fallback)
  {
  }

  lemma SparedStep(job: Job, run: seq<Step>)
    requires run != [] && Execute(job, run[..|run| - 1]).Some?
    ensures var front, step := run[..|run| - 1], run[|run| - 1];
      var st := Execute(job, front).value;
      && (StagingSpared(job, run)
          <==> StagingSpared(job, front) && (step.ServiceCleanup? ==> SparesStaging(job, st, step.look)))
      && (FallbackSpared(job, run)
          <==> FallbackSpared(job, front) && (step.ServiceCleanup? ==> SparesFallback(job, st, step.look)))
  {
    hide SparesStaging, SparesFallback, Execute;
    var front := run[..|run| - 1];
    assert forall i | 0 <= i < |front| :: front[i] == run[i] && front[..i] == run[..i];
    assert run[..|run| - 1] == front;
  }

  /** The cleanup looks up the entry of the staging directory and sees its script. */
  predicate LooksWell(run: seq<Step>) {
    forall i | 0 <= i < |run| && run[i].ServiceCleanup? :: !run[i].look.infoFails && run[i].look.scriptSeen
  }

  /** So if no cleanup fails to look the staging directory up and to see its script, neither it
      nor the fallback is taken from a running transaction within the first hour. */
  lemma {:induction false} ProtectedForAnHour(job: Job, run: seq<Step>)
    requires Execute(job, run).Some? && LooksWell(run)
    ensures var st := Execute(job, run).value;
      st.age <= Versions.STALE_AFTER && !st.point.Exited? ==> st.staging && st.fallback
  {
    hide CleanedUp, Fits;
    if run != [] {
      var front, step := run[..|run| - 1], run[|run| - 1];
      assert forall i | 0 <= i < |front| :: front[i] == run[i];
      ProtectedForAnHour(job, front);
      var st := Execute(job, front).value;
      if step.ServiceCleanup? {
        CleanupKeepsIff(job, st, step.look);
        SameElse(job, st, step.look);
      }
    }
  }

  /** A rollback whose copy and rename work installs the fallback if and only if every cleanup
      before it spared the fallback. */
  lemma RollbackFindsFallback(job: Job, run: seq<Step>)
    requires Execute(job, run).Some? && Execute(job, run).value.point.RollingBack?
    ensures var after := Apply(job, Execute(job, run).value, Install(true, true));
      if FallbackSpared(job, run) then after.point.OldInstalled? && after.bin == job.fallback
      else after.point.Failing? && after.bin == job.update
  {
    hide Execute, FallbackSpared, StagingSpared;
    InvariantOfRuns(job, run);
    SurviveIff(job, run);
  }

  // ---------- Witnesses ----------

  /** Six releases, the fallback being the oldest: more than the five that are kept. */
  function SixBackups(): seq<string> {
    seq(6, i requires 0 <= i < 6 => Versions.DigitName('6' - i as char))
  }

  function OldestFallback(b: Binary, n: Binary): Job {
    Job(b, n, b, "1", "7", "1", Versions.DigitName('1'))
  }

  /** When the entry of the staging directory cannot be looked up, a service start in the middle of
      the update prunes the fallback, and the rollback cannot install it. */
  lemma LookupFailureLosesFallback(b: Binary, n: Binary)
    requires b != n
    ensures var job := OldestFallback(b, n);
      var look := Look([], [], true, true, Some(SixBackups()), 5, {});
      var run := [Install(true, true), Restarted, ServiceCleanup(look), Check(false)];
      && Execute(job, run).Some? && Execute(job, run).value.point.RollingBack?
      && Execute(job, run).value.staging && Execute(job, run).value.age == 0
      && Apply(job, Execute(job, run).value, Install(true, true)).point == Failing
  {
    hide Execute;
    hide CleanedUp, Fits;
    var job := OldestFallback(b, n);
    var look := Look([], [], true, true, Some(SixBackups()), 5, {});
    var run := [Install(true, true), Restarted, ServiceCleanup(look), Check(false)];
    Advance(job, run, 0, Start(job));
    Advance(job, run, 1, State(NewInstalled, n, true, true, [], 0));
    var verifying := State(Verifying, n, true, true, [], 0);
    SixPruned(job, verifying, look);
    Advance(job, run, 2, verifying);
    Advance(job, run, 3, verifying.(fallback := false));
    assert run[..4] == run;
  }

  lemma SixPruned(job: Job, st: State, look: Look)
    requires job.backup == Versions.DigitName('1') && st.fallback && st.staging
    requires look == Look([], [], true, true, Some(SixBackups()), 5, {})
    ensures Fits(job, st, look) && CleanedUp(job, st, look) == st.(fallback := false)
  {
    hide CleanedUp, Fits, SixBackups;
    SixInOrder();
    FitsSix(job, st, look);
    CleanupKeepsIff(job, st, look);
    SameElse(job, st, look);
    assert !SparesFallback(job, st, look);
  }

  lemma SixInOrder()
    ensures |SixBackups()| == 6 && Versions.InOrder(SixBackups())
  {
    forall i, j | 0 <= i < j < 6
      ensures Versions.First(SixBackups()[i], SixBackups()[j])
    {
      Versions.DigitsInOrder('6' - i as char, '6' - j as char);
    }
  }

  lemma FitsSix(job: Job, st: State, look: Look)
    requires st.fallback && look.before == [] && look.after == [] && look.backups == Some(SixBackups())
    requires job.backup == Versions.DigitName('1')
    ensures Fits(job, st, look) && job.backup !in SixBackups()[..5]
  {
    hide Versions.InOrder;
    SixInOrder();
    assert SixBackups()[5] == job.backup;
    assert forall i | 0 <= i < 5 :: SixBackups()[i][|Versions.PREFIX|] == '6' - i as char;
    assert job.backup[|Versions.PREFIX|] == '1';
  }

  /** When its script cannot be seen for another reason than its absence, the staging directory of
      an update that waits to be installed is removed, and the update fails. */
  lemma ScriptFailureLosesStaging(job: Job, backups: seq<string>)
    requires Versions.InOrder(backups) && job.backup in backups
    ensures var look := Look([], [], false, false, Some(backups), 5, {});
      var run := [ServiceCleanup(look), Install(true, true)];
      && Execute(job, run).Some?
      && Execute(job, run).value.statuses == [InstallFailed] && Execute(job, run).value.age == 0
  {
    var look := Look([], [], false, false, Some(backups), 5, {});
    var run := [ServiceCleanup(look), Install(true, true)];
    assert Fits(job, Start(job), look);
    CleanupKeepsIff(job, Start(job), look);
    SameElse(job, Start(job), look);
    var cleaned := CleanedUp(job, Start(job), look);
    hide CleanedUp, Fits, Execute;
    Advance(job, run, 0, Start(job));
    Advance(job, run, 1, cleaned);
    assert run[..2] == run;
  }

  lemma {:induction false} Advance(job: Job, run: seq<Step>, k: nat, st: State)
    requires k < |run| && (k == 0 ==> st == Start(job)) && (k > 0 ==> Execute(job, run[..k]) == Some(st))
    requires Enabled(job, st, run[k])
    ensures Execute(job, run[..k + 1]) == Some(Apply(job, st, run[k]))
  {
    hide Enabled, Apply;
    assert run[..k + 1][..k] == run[..k] && run[..k + 1][k] == run[k];
    assert run[..0] == [];
  }

  // ---------- Quoting ----------

  /** `shellQuote`. */
  function ShellQuote(s: string): string {
    "'" + EscapeQuotes(s) + "'"
  }

  /** `ReplaceAll` of each quote by quote, backslash, quote, quote. */
  function EscapeQuotes(s: string): string {
    if s == "" then ""
    else if s[0] == '\'' then "'\\''" + EscapeQuotes(s[1..])
    else [s[0]] + EscapeQuotes(s[1..])
  }

  /** How the shell reads one word: quoted text stands for itself, a backslash outside quotes
      makes the next character literal. Any other bare character is outside this reading. */
  function ReadWord(s: string, quoted: bool): Option<string>
    decreases |s|
  {
    if s == "" then if quoted then None else Some("")
    else if quoted then
      if s[0] == '\'' then ReadWord(s[1..], false) else Prepend(s[0], ReadWord(s[1..], true))
    else if s[0] == '\'' then ReadWord(s[1..], true)
    else if s[0] == '\\' && |s| > 1 && s[1] != '\n' then Prepend(s[1], ReadWord(s[2..], false))
    else None
  }

  function Prepend(c: char, rest: Option<string>): Option<string> {
    if rest.Some? then Some([c] + rest.value) else None
  }

  lemma {:induction false} QuotedReads(s: string)
    ensures ReadWord(EscapeQuotes(s) + "'", true) == Some(s)
  {
    if s == "" {
      assert "'"[1..] == "";
    } else {
      QuotedReads(s[1..]);
      var rest := EscapeQuotes(s[1..]) + "'";
      if s[0] == '\'' {
        EscapedQuoteReads(rest);
        assert EscapeQuotes(s) + "'" == "'\\''" + rest;
      } else {
        assert EscapeQuotes(s) + "'" == [s[0]] + rest;
        assert ([s[0]] + rest)[1..] == rest;
      }
      assert s == [s[0]] + s[1..];
    }
  }

  lemma EscapedQuoteReads(rest: string)
    ensures ReadWord("'\\''" + rest, true) == Prepend('\'', ReadWord(rest, true))
  {
    var s := "'\\''" + rest;
    assert s[0] == '\'' && s[1] == '\\' && s[2] == '\'' && s[3] == '\'';
    var t := s[1..];
    assert t[2..] == s[3..] && s[3..][1..] == rest;
    assert ReadWord(s, true) == ReadWord(t, false);
    assert ReadWord(t, false) == Prepend('\'', ReadWord(t[2..], false));
  }

  /** The shell reads a quoted value back unchanged, whatever characters it contains. */
  lemma QuoteRoundTrip(s: string)
    ensures ReadWord(ShellQuote(s), false) == Some(s)
  {
    QuotedReads(s);
    assert ShellQuote(s)[0] == '\'' && ShellQuote(s)[1..] == EscapeQuotes(s) + "'";
  }
}
