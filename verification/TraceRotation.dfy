/** The bounded trace log: an active file and numbered archives, rotated in place, against the
    unbounded history of everything written. Any file operation may fail. */
module TraceRotation {
  import opened Common
  import opened Bytes
  import opened TraceFiles
  import opened TraceStartup

  const DEFAULT_MAX_SIZE: nat := 0x100_0000

  /** `rotateArchives`. Exactly what stays: the oldest archive goes if its removal works, the others
      move up as far as no rename fails, nothing else changes. */
  method RotateArchives(files: Files, backups: nat, removeFails: bool, renameFails: nat -> bool)
      returns (after: Files, ok: bool, ghost lo: nat)
    ensures lo <= backups && MovedUp(OldestGone(files, backups, removeFails), after, lo, backups)
    ensures backups == 0 ==> ok == (!removeFails && 0 in files)
    ensures ok ==> lo == 0 && 0 !in after
    ensures backups > 0 && !ok ==> 0 < lo && lo - 1 in files && renameFails(lo - 1)
    ensures forall i | lo <= i < backups && i in files :: !renameFails(i)
    ensures !ok && 0 in files ==> 0 in after && after[0] == files[0]
    ensures !removeFails && 0 in files && (forall i: nat :: !renameFails(i)) ==>
              ok && (forall n: nat | n < backups :: Content(after, n + 1) == Content(files, n)) && 0 !in after
  {
    if backups == 0 {
      after, ok, lo := files, false, 0;
      if !removeFails && 0 in files {
        after, ok := files - {0}, true;
      }
      return;
    }
    var base := if removeFails then files else files - {backups};
    after, ok, lo := ShiftArchives(base, 0, backups, renameFails);
    MovedFrom(base, after, lo, backups, 0);
    forall n: nat | n < backups && lo == 0 && !removeFails
      ensures Content(after, n + 1) == Content(files, n)
    {
      MovedFrom(base, after, lo, backups, n + 1);
    }
    hide MovedUp;
  }

  // ---------- Recording without a failure ----------

  /** One `Record` when no operation fails. */
  function Recorded(files: Files, line: seq<byte>, maxSize: nat, backups: nat): Files {
    if Turns(files, line, maxSize) then Moved(files - {backups}, 0, backups)[0 := line]
    else files[0 := Content(files, 0) + line]
  }

  /** Whether the active file has to be rotated first. */
  predicate Turns(files: Files, line: seq<byte>, maxSize: nat) {
    Content(files, 0) != [] && |Content(files, 0)| + |line| > maxSize
  }

  function RunLines(files: Files, lines: seq<seq<byte>>, maxSize: nat, backups: nat): Files {
    if lines == [] then files
    else Recorded(RunLines(files, Front(lines), maxSize, backups), Last(lines), maxSize, backups)
  }

  function Rotations(files: Files, lines: seq<seq<byte>>, maxSize: nat, backups: nat): nat {
    if lines == [] then 0
    else
      Rotations(files, Front(lines), maxSize, backups)
      + if Turns(RunLines(files, Front(lines), maxSize, backups), Last(lines), maxSize) then 1 else 0
  }

  function Front(lines: seq<seq<byte>>): seq<seq<byte>>
    requires lines != []
  {
    lines[..|lines| - 1]
  }

  function Last(lines: seq<seq<byte>>): seq<byte>
    requires lines != []
  {
    lines[|lines| - 1]
  }

  function Flat(lines: seq<seq<byte>>): seq<byte> {
    if lines == [] then [] else Flat(Front(lines)) + Last(lines)
  }

  predicate LinesWithin(lines: seq<seq<byte>>, longest: nat) {
    forall i | 0 <= i < |lines| :: lines[i] != [] && |lines[i]| <= longest
  }

  /** Each record keeps everything but, on a rotation, the file in the oldest slot. */
  lemma RecordedLog(files: Files, line: seq<byte>, maxSize: nat, backups: nat)
    ensures var log := Log(Recorded(files, line, maxSize, backups), backups);
      if Turns(files, line, maxSize) then Content(files, backups) + log == Log(files, backups) + line
      else log == Log(files, backups) + line
  {
    if Turns(files, line, maxSize) {
      var moved := Moved(files - {backups}, 0, backups);
      MovedIsUp(files - {backups}, moved, 0, backups);
      ShiftLosesExactly(files, moved, 0, backups);
      MovedFrom(files - {backups}, moved, 0, backups, 0);
      AppendActive(moved, line, backups);
      hide Log, Moved, MovedUp;
      assert Content(moved, 0) + line == line;
      Associate(Content(files, backups), Log(moved, backups), line);
    } else {
      AppendActive(files, line, backups);
    }
  }

  lemma RecordedSlot(files: Files, line: seq<byte>, maxSize: nat, backups: nat, n: nat)
    requires 1 <= n <= backups
    ensures Content(Recorded(files, line, maxSize, backups), n)
            == Content(files, if Turns(files, line, maxSize) then n - 1 else n)
  {
    if Turns(files, line, maxSize) {
      MovedIsUp(files - {backups}, Moved(files - {backups}, 0, backups), 0, backups);
      MovedFrom(files - {backups}, Moved(files - {backups}, 0, backups), 0, backups, n);
      hide Moved, MovedUp;
    }
  }

  /** After `r` rotations the first `r` slots hold files rotated for being within one line of the
      limit, and the files that were there stand `r` slots further on. */
  lemma {:induction false} SlotsOfRun(files: Files, lines: seq<seq<byte>>, maxSize: nat, backups: nat,
                                      longest: nat, n: nat)
    requires LinesWithin(lines, longest) && 1 <= n <= backups
    ensures var end, r := RunLines(files, lines, maxSize, backups), Rotations(files, lines, maxSize, backups);
            if n <= r then |Content(end, n)| + longest > maxSize else Content(end, n) == Content(files, n - r)
  {
    hide Recorded, Turns;
    if lines != [] {
      var front, line := Front(lines), Last(lines);
      SlotsOfRun(files, front, maxSize, backups, longest, n);
      var end := RunLines(files, front, maxSize, backups);
      RecordedSlot(end, line, maxSize, backups, n);
      if Turns(end, line, maxSize) {
        if n == 1 {
          TurnsLarge(end, line, maxSize);
        } else {
          SlotsOfRun(files, front, maxSize, backups, longest, n - 1);
        }
      }
    }
  }

  lemma TurnsLarge(files: Files, line: seq<byte>, maxSize: nat)
    requires Turns(files, line, maxSize)
    ensures |Content(files, 0)| + |line| > maxSize && Content(files, 0) != []
  {
  }

  /** The last `r` slots are free. */
  predicate Free(files: Files, backups: nat, r: nat) {
    forall n: nat | 1 <= n <= backups && backups - r < n :: Content(files, n) == []
  }

  /** As long as rotations only reach free slots nothing is lost. */
  lemma {:induction false} NothingLost(files: Files, lines: seq<seq<byte>>, maxSize: nat, backups: nat, longest: nat)
    requires LinesWithin(lines, longest)
    requires var r := Rotations(files, lines, maxSize, backups); r <= backups && Free(files, backups, r)
    ensures Log(RunLines(files, lines, maxSize, backups), backups) == Log(files, backups) + Flat(lines)
  {
    hide Recorded, Turns, Log;
    if lines == [] {
      assert Log(files, backups) + [] == Log(files, backups);
    } else {
      var front, line := Front(lines), Last(lines);
      var end, r := RunLines(files, front, maxSize, backups), Rotations(files, front, maxSize, backups);
      NothingLost(files, front, maxSize, backups, longest);
      RecordedLog(end, line, maxSize, backups);
      if Turns(end, line, maxSize) {
        SlotsOfRun(files, front, maxSize, backups, longest, backups);
        assert Content(end, backups) == [];
        var now := Log(Recorded(end, line, maxSize, backups), backups);
        assert [] + now == now;
      }
      Associate(Log(files, backups), Flat(front), line);
    }
  }

  /** Every rotation past the last slot loses something. */
  lemma {:induction false} SomethingLost(files: Files, lines: seq<seq<byte>>, maxSize: nat, backups: nat, longest: nat)
    requires LinesWithin(lines, longest) && longest <= maxSize
    ensures var end, r := RunLines(files, lines, maxSize, backups), Rotations(files, lines, maxSize, backups);
            && |Log(end, backups)| <= |Log(files, backups)| + |Flat(lines)|
            && (r > backups ==> |Log(end, backups)| < |Log(files, backups)| + |Flat(lines)|)
  {
    hide Recorded, Turns, Log;
    if lines != [] {
      var front, line := Front(lines), Last(lines);
      var end, r := RunLines(files, front, maxSize, backups), Rotations(files, front, maxSize, backups);
      SomethingLost(files, front, maxSize, backups, longest);
      RecordedLog(end, line, maxSize, backups);
      LostLength(Content(end, backups), Log(RunLines(files, lines, maxSize, backups), backups), Log(end, backups),
          line);
      if Turns(end, line, maxSize) && r == backups {
        if backups == 0 {
          TurnsLarge(end, line, maxSize);
        } else {
          SlotsOfRun(files, front, maxSize, backups, longest, backups);
        }
      }
    }
  }

  lemma LostLength(lost: seq<byte>, now: seq<byte>, before: seq<byte>, line: seq<byte>)
    ensures now == before + line ==> |now| == |before| + |line|
    ensures lost + now == before + line ==> |lost| + |now| == |before| + |line|
  {
  }

  /** Over every fault-free run on a log without archives: everything written is still there if and
      only if there were no more rotations than slots; and if something is lost, every slot is
      filled by a rotated file within one line of the limit. */
  lemma FreshRun(files: Files, lines: seq<seq<byte>>, maxSize: nat, backups: nat, longest: nat)
    requires LinesWithin(lines, longest) && longest <= maxSize && Free(files, backups, backups)
    ensures var end, all := RunLines(files, lines, maxSize, backups), Content(files, 0) + Flat(lines);
            && (Log(end, backups) == all <==> Rotations(files, lines, maxSize, backups) <= backups)
            && (Log(end, backups) == all
                || forall n: nat | 1 <= n <= backups :: |Content(end, n)| + longest > maxSize)
  {
    var end, r := RunLines(files, lines, maxSize, backups), Rotations(files, lines, maxSize, backups);
    OnlyActive(files, backups);
    if r <= backups {
      NothingLost(files, lines, maxSize, backups, longest);
    } else {
      SomethingLost(files, lines, maxSize, backups, longest);
      forall n: nat | 1 <= n <= backups
        ensures |Content(end, n)| + longest > maxSize
      {
        SlotsOfRun(files, lines, maxSize, backups, longest, n);
      }
    }
  }

  lemma {:induction false} OnlyActive(files: Files, k: nat)
    requires forall n: nat | 1 <= n <= k :: Content(files, n) == []
    ensures Log(files, k) == Content(files, 0)
  {
    if k > 0 {
      OnlyActive(files, k - 1);
      assert [] + Log(files, k - 1) == Log(files, k - 1);
    }
  }

  // ---------- The recorder ----------

  datatype Opening = Opening(openFails: bool, statFails: bool)

  /** Which operations of one call fail, and how much of the line a write takes. */
  datatype Faults = Faults(reopen: Opening, closeFails: bool, removeFails: bool, renameFails: nat -> bool,
                           createFails: bool, retry: Opening, short: Option<nat>)

  ghost predicate NoFaults(f: Faults) {
    && !f.reopen.openFails && !f.reopen.statFails && !f.closeFails && !f.removeFails && !f.createFails
    && f.short.None? && forall i: nat :: !f.renameFails(i)
  }

  class Recorder {
    const maxSize: nat
    const backups: nat
    var files: Files
    /** Whether the active file is open, and its size as tracked. */
    var open: bool
    var size: nat
    var closed: bool
    /** Every byte written since the start, behind what the files held then. */
    ghost var written: seq<byte>
    /** Whether some file may end inside a line. */
    ghost var torn: bool

    ghost predicate Valid()
      reads this
    {
      && (open ==> 0 in files && size == |files[0]|)
      && IsSuffix(Log(files, backups), written)
      && (!torn ==> AllWhole(files) && IsLineSuffix(Log(files, backups), written))
    }

    /** The recorder of an active file just opened for appending. */
    constructor (files: Files, maxSize: nat, backups: nat)
      requires 0 in files
      ensures Valid() && open && !closed && this.files == files && this.maxSize == maxSize && this.backups == backups
      ensures written == Log(files, backups) && (torn <==> !AllWhole(files))
    {
      this.files, this.maxSize, this.backups := files, maxSize, backups;
      open, size, closed := true, |files[0]|, false;
      written, torn := Log(files, backups), !AllWhole(files);
      new;
      SuffixBehind([], written);
      assert [] + written == written;
    }

    /** `openAppendLocked`: the file is created if it is missing. */
    method OpenAppend(o: Opening) returns (ok: bool)
      requires Valid()
      modifies `files, `open, `size
      ensures Valid() && Log(files, backups) == old(Log(files, backups))
      ensures ok == (!o.openFails && !o.statFails) && (ok ==> open) && (!ok ==> open == old(open))
      ensures files == if o.openFails || 0 in old(files) then old(files) else old(files)[0 := []]
    {
      hide IsSuffix, IsLineSuffix, Log;
      if o.openFails {
        return false;
      }
      if 0 !in files {
        EmptyActive(files, backups);
        files := files[0 := []];
      }
      if o.statFails {
        return false;
      }
      open, size := true, |files[0]|;
      return true;
    }

    /** `rotateLocked`: on any failure the current file is taken up again if possible. Of the log
        at most the oldest file is lost, whatever fails. */
    method Rotate(f: Faults) returns (ok: bool)
      requires Valid() && open
      modifies `files, `open, `size
      ensures Valid() && (ok ==> open && 0 in files && files[0] == [])
      ensures LosesAtMostOldest(old(files), files, backups)
      ensures !ok && backups > 0 && !f.createFails ==> 0 in files && files[0] == old(files)[0]
      ensures NoFaults(f) ==> ok && files == Moved(old(files) - {backups}, 0, backups)[0 := []]
      ensures SizesOk(old(files), maxSize) ==> SizesOk(files, maxSize)
      ensures Within(old(files), backups) ==> Within(files, backups)
    {
      hide Log, IsSuffix, IsLineSuffix, AllWhole, SizesOk, Within, Moved, MovedUp;
      open := false;
      if f.closeFails {
        ok := OpenAppend(f.retry);
        return false;
      }
      var rotated := MoveAside(f);
      EmptyHarmless(files, maxSize, backups);
      if !rotated || f.createFails {
        ok := OpenAppend(f.retry);
        return false;
      }
      files := files[0 := []];
      open, size, ok := true, 0, true;
    }

    /** The part of `rotateLocked` between closing the file and creating the next one. */
    method MoveAside(f: Faults) returns (ok: bool)
      requires Valid() && !open
      modifies `files
      ensures Valid() && LosesAtMostOldest(old(files), files, backups)
      ensures !ok && 0 in old(files) ==> 0 in files && files[0] == old(files)[0]
      ensures ok ==> 0 !in files
      ensures NoFaults(f) && 0 in old(files) ==> ok && files == Moved(old(files) - {backups}, 0, backups)
      ensures SizesOk(old(files), maxSize) ==> SizesOk(files, maxSize)
      ensures Within(old(files), backups) ==> Within(files, backups)
    {
      hide IsSuffix, IsLineSuffix, AllWhole, SizesOk, Within, Moved, MovedUp, Log, LosesAtMostOldest;
      var after, rotated, lo := RotateArchives(files, backups, f.removeFails, f.renameFails);
      ShiftLosesOldest(files, after, lo, backups, f.removeFails);
      StillSuffix(files, after, lo, backups, f.removeFails, written, torn);
      MovedHeld(files, after, lo, backups, f.removeFails, maxSize);
      MovedIsUp(OldestGone(files, backups, f.removeFails), after, lo, backups);
      files := after;
      ok := rotated;
    }

    /** `Record`: a line of JSON and its newline, of which `n` bytes reach the active file. Whatever
        fails, the log loses at most its oldest file. */
    method Record(line: seq<byte>, f: Faults) returns (ghost n: nat)
      requires Valid() && line != [] && Whole(line)
      modifies `files, `open, `size, `written, `torn
      ensures Valid() && n <= |line| && written == old(written) + line[..n]
      ensures || Log(files, backups) == old(Log(files, backups)) + line[..n]
              || old(Content(files, backups)) + Log(files, backups) == old(Log(files, backups)) + line[..n]
      ensures n > 0 ==> IsSuffix(line[..n], Content(files, 0))
      ensures closed ==> files == old(files) && n == 0
      ensures !closed && NoFaults(f) ==>
                n == |line| && torn == old(torn) && files == Recorded(old(files), line, maxSize, backups)
      ensures |line| <= maxSize && SizesOk(old(files), maxSize) ==> SizesOk(files, maxSize)
      ensures Within(old(files), backups) ==> Within(files, backups)
    {
      hide Log, IsSuffix, IsLineSuffix, AllWhole, SizesOk, Within, Moved, MovedUp, Whole;
      n := 0;
      Nothing(line, written, Log(files, backups));
      if closed {
        return;
      }
      if !open {
        var ok := OpenAppend(f.reopen);
        EmptyHarmless(old(files), maxSize, backups);
        if !ok {
          return;
        }
      }
      RecordedReopened(old(files), line, maxSize, backups);
      PutTwice(Moved(files - {backups}, 0, backups), line);
      if size > 0 && size + |line| > maxSize {
        var ok := Rotate(f);
        if !ok {
          return;
        }
      }
      var taken := if f.short.Some? && f.short.value < |line| then f.short.value else |line|;
      Append(line, taken);
      n := taken;
    }

    /** The write itself, of which the file system may take only a part. */
    method Append(line: seq<byte>, n: nat)
      requires Valid() && open && line != [] && Whole(line) && n <= |line|
      modifies `files, `size, `written, `torn
      ensures Valid() && written == old(written) + line[..n] && size == old(size) + n
      ensures files == old(files)[0 := old(files)[0] + line[..n]]
      ensures Log(files, backups) == old(Log(files, backups)) + line[..n]
      ensures torn == (old(torn) || 0 < n < |line|)
      ensures IsSuffix(line[..n], files[0])
      ensures old(size) + n <= maxSize && SizesOk(old(files), maxSize) ==> SizesOk(files, maxSize)
      ensures Within(old(files), backups) ==> Within(files, backups)
    {
      hide IsSuffix, IsLineSuffix, Log, AllWhole, Whole, SizesOk, Within;
      var taken := line[..n];
      AppendActive(files, taken, backups);
      SuffixGrows(Log(files, backups), written, taken);
      AppendWhole(files, line, n);
      AppendWithin(files, taken, maxSize, backups);
      SuffixBehind(files[0], taken);
      files := files[0 := files[0] + taken];
      size := size + n;
      written := written + taken;
      torn := torn || 0 < n < |line|;
    }

    /** `Close`. A recorder whose file is not open does not become closed. */
    method Close(fails: bool) returns (ok: bool)
      requires Valid()
      modifies `open, `closed
      ensures Valid() && !open && (closed <==> old(open) || old(closed)) && (ok <==> !old(open) || !fails)
    {
      if !open {
        return true;
      }
      open, closed := false, true;
      return !fails;
    }
  }

  /** `NewJSONLRecorder`: null stands for the error. `dirFails` covers the empty path and the
      directory that cannot be made. */
  method NewRecorder(files: Files, maxSize: int, backups: int, dirFails: bool, f: StartFaults, o: Opening)
      returns (r: Recorder?, after: Files)
    ensures var limit: nat := if maxSize <= 0 then DEFAULT_MAX_SIZE else maxSize;
            var slots: nat := if backups < 0 then 0 else backups;
            && (r != null ==>
                  && fresh(r) && r.Valid() && r.open && !r.closed && r.files == after
                  && r.maxSize == limit && r.backups == slots && r.size < limit
                  && r.written == Log(after, slots))
            && (dirFails ==> r == null && after == files)
            && (!dirFails && NoStartFaults(f) && !o.openFails && !o.statFails ==>
                  && r != null
                  && var started := Startup(files, limit, slots);
                     after == if 0 in started then started else started[0 := []])
  {
    hide Log, Startup, Moved, TailLines;
    var limit: nat := if maxSize <= 0 then DEFAULT_MAX_SIZE else maxSize;
    var slots: nat := if backups < 0 then 0 else backups;
    if dirFails {
      return null, files;
    }
    var started, ok, lo := RotateOversized(files, limit, slots, f);
    if !ok || o.openFails {
      return null, started;
    }
    after := if 0 in started then started else started[0 := []];
    if o.statFails {
      return null, after;
    }
    r := new Recorder(after, limit, slots);
  }

  ghost predicate NoStartFaults(f: StartFaults) {
    !f.stat && !f.copy && !f.remove && !f.tail && !f.clear && forall i: nat :: !f.rename(i)
  }

  lemma StillSuffix(before: Files, after: Files, lo: nat, backups: nat, removeFails: bool, written: seq<byte>,
                    torn: bool)
    requires lo <= backups && MovedUp(OldestGone(before, backups, removeFails), after, lo, backups)
    requires IsSuffix(Log(before, backups), written)
    requires !torn ==> AllWhole(before) && IsLineSuffix(Log(before, backups), written)
    ensures IsSuffix(Log(after, backups), written)
    ensures !torn ==> AllWhole(after) && IsLineSuffix(Log(after, backups), written)
  {
    hide IsSuffix, IsLineSuffix, Log, AllWhole, MovedUp, OldestGone;
    ShiftLosesOldest(before, after, lo, backups, removeFails);
    LostKeepsSuffix(before, after, backups);
    SuffixOfSuffix(Log(after, backups), Log(before, backups), written);
    MovedHeld(before, after, lo, backups, removeFails, 0);
  }

  lemma Nothing(line: seq<byte>, written: seq<byte>, log: seq<byte>)
    ensures line[..0] == [] && line[..|line|] == line && written + [] == written && log + [] == log
  {
  }

  lemma PutTwice(files: Files, line: seq<byte>)
    ensures files[0 := []][0 := [] + line] == files[0 := line]
  {
    assert [] + line == line;
  }

  /** Reopening a missing file first makes no difference to a record. */
  lemma RecordedReopened(files: Files, line: seq<byte>, maxSize: nat, backups: nat)
    ensures 0 !in files ==> Recorded(files[0 := []], line, maxSize, backups) == Recorded(files, line, maxSize, backups)
  {
    if 0 !in files {
      assert files[0 := []][0 := [] + line] == files[0 := [] + line];
    }
  }

  /** Creating an empty active file keeps every invariant. */
  lemma EmptyHarmless(files: Files, maxSize: nat, backups: nat)
    ensures 0 !in files ==> Log(files[0 := []], backups) == Log(files, backups)
    ensures AllWhole(files) ==> AllWhole(files[0 := []])
    ensures SizesOk(files, maxSize) ==> SizesOk(files[0 := []], maxSize)
    ensures Within(files, backups) ==> Within(files[0 := []], backups)
  {
    hide Log;
    if 0 !in files {
      EmptyActive(files, backups);
    }
  }

  lemma AppendWithin(files: Files, taken: seq<byte>, maxSize: nat, backups: nat)
    requires 0 in files
    ensures |files[0]| + |taken| <= maxSize && SizesOk(files, maxSize)
          ==> SizesOk(files[0 := files[0] + taken], maxSize)
    ensures Within(files, backups) ==> Within(files[0 := files[0] + taken], backups)
  {
  }

  lemma AppendWhole(files: Files, line: seq<byte>, n: nat)
    requires 0 in files && line != [] && Whole(line) && n <= |line|
    ensures AllWhole(files) && !(0 < n < |line|) ==> AllWhole(files[0 := files[0] + line[..n]])
  {
    if n == 0 {
      assert files[0] + line[..n] == files[0];
    } else if n == |line| {
      var grown := files[0] + line[..n];
      assert grown[|grown| - 1] == NEWLINE;
    }
  }
}
