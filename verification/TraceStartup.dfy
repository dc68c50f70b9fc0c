/** What startup does with an active file that has outgrown the limit: its last whole lines become
    the first archive. */
module TraceStartup {
  import opened Bytes
  import opened Common
  import opened TraceFiles

  /** What follows the first newline. */
  function AfterNewline(s: seq<byte>): seq<byte> {
    if s == [] then [] else if s[0] == NEWLINE then s[1..] else AfterNewline(s[1..])
  }

  /** `copyTailLines`: the last `max` bytes, without the line the cut falls into. */
  function TailLines(s: seq<byte>, max: nat): seq<byte> {
    if |s| <= max then s else AfterNewline(s[|s| - max..])
  }

  lemma {:induction false} FirstNewline(s: seq<byte>) returns (p: nat)
    requires NEWLINE in s
    ensures p < |s| && s[p] == NEWLINE && (forall i | 0 <= i < p :: s[i] != NEWLINE)
    ensures AfterNewline(s) == s[p + 1..]
  {
    if s[0] == NEWLINE {
      p := 0;
    } else {
      p := FirstNewline(s[1..]);
      p := p + 1;
      assert forall i | 1 <= i < p :: s[i] == s[1..][i - 1];
    }
  }

  lemma {:induction false} NoNewline(s: seq<byte>)
    requires NEWLINE !in s
    ensures AfterNewline(s) == []
  {
    if s != [] {
      NoNewline(s[1..]);
    }
  }

  lemma CutAt(s: seq<byte>, cut: nat, p: nat)
    requires cut <= |s| && p < |s| - cut && s[cut..][p] == NEWLINE
    ensures IsLineSuffix(s[cut..][p + 1..], s)
  {
    var tail := s[cut..][p + 1..];
    assert tail == s[cut + p + 1..];
    assert s[..|s| - |tail|][cut + p] == NEWLINE;
  }

  /** A line suffix shorter than the window starts behind a newline in it. */
  lemma StartsInWindow(s: seq<byte>, max: nat, other: seq<byte>)
    requires max < |s| && IsLineSuffix(other, s) && |other| < max
    ensures s[|s| - max..][max - |other| - 1] == NEWLINE
  {
    var head := s[..|s| - |other|];
    assert head[|head| - 1] == s[|s| - max..][max - |other| - 1];
  }

  /** Startup keeps lines from their beginning, and as many as fit: no longer line suffix is under
      the limit. It keeps nothing exactly if there is no such suffix. */
  lemma TailIsLongest(s: seq<byte>, max: nat, other: seq<byte>)
    requires max < |s|
    ensures IsSuffix(TailLines(s, max), s)
    ensures max > 0 ==> |TailLines(s, max)| < max
    ensures NEWLINE in s[|s| - max..] ==> IsLineSuffix(TailLines(s, max), s)
    ensures NEWLINE !in s[|s| - max..] ==> TailLines(s, max) == [] && !(IsLineSuffix(other, s) && |other| < max)
    ensures IsLineSuffix(other, s) && |other| < max ==> |other| <= |TailLines(s, max)|
  {
    hide AfterNewline, IsLineSuffix;
    var cut := |s| - max;
    var window := s[cut..];
    if IsLineSuffix(other, s) && |other| < max {
      StartsInWindow(s, max, other);
    }
    if NEWLINE in window {
      var p := FirstNewline(window);
      CutAt(s, cut, p);
      assert window[p + 1..] == s[cut + p + 1..];
    } else {
      NoNewline(window);
    }
  }

  // ---------- rotateOversizedAtStartup ----------

  predicate Oversized(files: Files, maxSize: nat) {
    0 in files && |files[0]| >= maxSize
  }

  /** The compacted tail becomes the first archive, then the active file goes, if that works. */
  function Placed(moved: Files, tail: seq<byte>, clearFails: bool): Files {
    (if clearFails then moved else moved - {0})[1 := tail]
  }

  /** Startup when no operation fails. */
  function Startup(files: Files, maxSize: nat, backups: nat): Files {
    if !Oversized(files, maxSize) then files
    else if backups == 0 then files - {0}
    else Placed(Moved(files - {backups}, 1, backups), TailLines(files[0], maxSize), false)
  }

  datatype StartFaults = StartFaults(stat: bool, copy: bool, remove: bool, rename: nat -> bool, tail: bool,
                                     clear: bool)

  /** What may be on disk afterwards. Until the compacted tail is in place the active file is not
      touched; `lo` is how far the archives have moved up. */
  predicate StartupOutcome(files: Files, maxSize: nat, backups: nat, f: StartFaults, after: Files, ok: bool, lo: nat)
  {
    if f.stat || !Oversized(files, maxSize) then ok == !f.stat && after == files
    else if backups == 0 then ok == !f.clear && after == if f.clear then files else files - {0}
    else if f.copy then !ok && after == files
    else
      && 1 <= lo <= backups
      && (lo > 1 ==> lo - 1 in files && f.rename(lo - 1))
      && (forall i | lo <= i < backups && i in files :: !f.rename(i))
      && var moved := Moved(OldestGone(files, backups, f.remove), lo, backups);
         if lo > 1 || f.tail then !ok && after == moved
         else ok == !f.clear && after == Placed(moved, TailLines(files[0], maxSize), f.clear)
  }

  /** `rotateOversizedAtStartup`. `f.stat` is a failure other than a missing file. */
  method RotateOversized(files: Files, maxSize: nat, backups: nat, f: StartFaults)
      returns (after: Files, ok: bool, ghost lo: nat)
    ensures StartupOutcome(files, maxSize, backups, f, after, ok, lo)
    ensures !f.stat && !f.copy && !f.remove && !f.tail && !f.clear && (forall i: nat :: !f.rename(i)) ==>
              ok && after == Startup(files, maxSize, backups)
  {
    hide Moved, MovedUp, TailLines;
    lo := 0;
    if f.stat {
      return files, false, lo;
    }
    if 0 !in files || |files[0]| < maxSize {
      return files, true, lo;
    }
    if backups == 0 {
      if f.clear {
        return files, false, lo;
      }
      return files - {0}, true, lo;
    }
    if f.copy {
      return files, false, lo;
    }
    var tail := TailLines(files[0], maxSize);
    var base := if f.remove then files else files - {backups};
    var moved, shifted;
    moved, shifted, lo := ShiftArchives(base, 1, backups, f.rename);
    MovedIsUp(base, moved, lo, backups);
    if !shifted || f.tail {
      return moved, false, lo;
    }
    if f.clear {
      return moved[1 := tail], false, lo;
    }
    return (moved - {0})[1 := tail], true, lo;
  }

  // ---------- The log across a start ----------

  /** The archives behind the first one. */
  function Older(files: Files, k: nat): seq<byte> {
    Log(files - {0, 1}, k)
  }

  lemma {:induction false} LogSplits(files: Files, k: nat)
    requires k > 0
    ensures Log(files, k) == Older(files, k) + Content(files, 1) + Content(files, 0)
  {
    if k == 1 {
      assert Log(files - {0, 1}, 0) == [];
    } else {
      LogSplits(files, k - 1);
      LogBelow(files, k);
      LogBelow(files - {0, 1}, k);
      hide Log;
      Associate(Content(files, k), Older(files, k - 1), Content(files, 1));
      Associate(Content(files, k), Older(files, k - 1) + Content(files, 1), Content(files, 0));
    }
  }

  lemma ActiveLast(files: Files, k: nat)
    requires 0 in files
    ensures Log(files, k) == Log(files - {0}, k) + files[0]
  {
    hide Log;
    AppendActive(files - {0}, files[0], k);
    assert [] + files[0] == files[0];
    assert (files - {0})[0 := files[0]] == files;
  }

  /** The tail follows the archives, and follows them a second time, within the active file, if
      and only if the last removal failed. */
  lemma PlacedLog(moved: Files, tail: seq<byte>, clearFails: bool, backups: nat)
    requires backups > 0
    ensures Log(Placed(moved, tail, clearFails), backups)
            == Older(moved, backups) + tail + if clearFails then Content(moved, 0) else []
  {
    hide Log;
    var after := Placed(moved, tail, clearFails);
    LogSplits(after, backups);
    assert after - {0, 1} == moved - {0, 1};
  }

  /** Of the archives at most the oldest is lost. */
  lemma ArchivesKept(files: Files, moved: Files, backups: nat, removeFails: bool)
    requires backups > 0 && MovedUp(OldestGone(files, backups, removeFails), moved, 1, backups)
    ensures var archives := files - {0};
            || Older(moved, backups) == Log(archives, backups)
            || Content(archives, backups) + Older(moved, backups) == Log(archives, backups)
  {
    var archives, rest := files - {0}, moved - {0};
    MovedArchives(files, moved, backups, removeFails);
    ShiftLosesOldest(archives, rest, 1, backups, removeFails);
    if backups == 1 {
      assert Log(moved - {0, 1}, 0) == [];
      assert Log(archives, 0) == [] && Content(archives, 1) + [] == Content(archives, 1);
    } else {
      LogSplits(rest, backups);
      MovedFrom(OldestGone(files, backups, removeFails), moved, 1, backups, 1);
      hide Log;
      assert rest - {0, 1} == moved - {0, 1};
      assert Older(rest, backups) + [] + [] == Older(rest, backups);
    }
  }

  lemma MovedArchives(files: Files, moved: Files, backups: nat, removeFails: bool)
    requires backups > 0 && MovedUp(OldestGone(files, backups, removeFails), moved, 1, backups)
    ensures MovedUp(OldestGone(files - {0}, backups, removeFails), moved - {0}, 1, backups)
  {
    var base, rest := OldestGone(files - {0}, backups, removeFails), moved - {0};
    forall n: nat
      ensures Slot(rest, n) == MovedSlot(base, 1, backups, n)
    {
      MovedFrom(OldestGone(files, backups, removeFails), moved, 1, backups, n);
    }
  }

  /** One of the two is the end of the other. */
  predicate EndAlike(a: seq<byte>, b: seq<byte>) {
    IsSuffix(a, b) || IsSuffix(b, a)
  }

  /** The log after a start is the end of the log before it if and only if the archives that stay
      are also what stood right before the tail. That is so when nothing was cut off the active
      file or no archive stays; it is not so when archives and cut part end differently, and then
      the log has a gap. */
  lemma NoGapIff(files: Files, moved: Files, maxSize: nat, backups: nat, removeFails: bool)
    requires Oversized(files, maxSize) && backups > 0
    requires MovedUp(OldestGone(files, backups, removeFails), moved, 1, backups)
    ensures var tail := TailLines(files[0], maxSize);
            && IsSuffix(tail, files[0])
            && var cut, kept := files[0][..|files[0]| - |tail|], Older(moved, backups);
               var gapless := IsSuffix(Log(Placed(moved, tail, false), backups), Log(files, backups));
               && (gapless <==> IsSuffix(kept, Log(files - {0}, backups) + cut))
               && (|files[0]| == maxSize || kept == [] ==> gapless)
               && (|files[0]| > maxSize > 0 ==> cut != [])
               && (!EndAlike(kept, cut) ==> !gapless)
  {
    hide *;
    IsOversized(files, maxSize);
    var tail := TailLines(files[0], maxSize);
    TailIsSuffix(files[0], maxSize);
    var cut, kept := files[0][..|files[0]| - |tail|], Older(moved, backups);
    PlacedLog(moved, tail, false, backups);
    ActiveLast(files, backups);
    ArchivesKept(files, moved, backups, removeFails);
    assert kept + tail + [] == kept + tail;
    Gapless(Content(files - {0}, backups), Log(files - {0}, backups), kept, cut, tail, files[0]);
  }

  lemma IsOversized(files: Files, maxSize: nat)
    requires Oversized(files, maxSize)
    ensures 0 in files && |files[0]| >= maxSize
  {
  }

  lemma TailIsSuffix(s: seq<byte>, max: nat)
    ensures IsSuffix(TailLines(s, max), s) && |TailLines(s, max)| <= |s|
    ensures |s| == max ==> TailLines(s, max) == s
    ensures |s| > max > 0 ==> |TailLines(s, max)| < max
  {
    if |s| > max {
      TailIsLongest(s, max, []);
    }
  }

  lemma Gapless(oldest: seq<byte>, archived: seq<byte>, kept: seq<byte>, cut: seq<byte>, tail: seq<byte>,
                active: seq<byte>)
    requires IsSuffix(tail, active) && cut == active[..|active| - |tail|]
    requires kept == archived || oldest + kept == archived
    ensures var gapless := IsSuffix(kept + tail, archived + active);
            && (gapless <==> IsSuffix(kept, archived + cut))
            && (cut == [] || kept == [] ==> gapless)
            && (!EndAlike(kept, cut) ==> !gapless)
  {
    assert active == cut + tail;
    hide IsSuffix, EndAlike;
    Associate(archived, cut, tail);
    SuffixShortened(kept, archived + cut, tail);
    if IsSuffix(kept, archived + cut) {
      SuffixMeets(kept, archived, cut);
    }
    if kept == [] {
      SuffixBehind(archived + cut, []);
      assert archived + cut + [] == archived + cut;
    } else if cut == [] {
      assert archived + cut == archived;
      SuffixBehind(if kept == archived then [] else oldest, kept);
      assert [] + kept == kept;
    }
  }

  lemma SuffixShortened(a: seq<byte>, b: seq<byte>, tail: seq<byte>)
    ensures IsSuffix(a + tail, b + tail) <==> IsSuffix(a, b)
  {
    if |a| <= |b| {
      var from := |b| - |a|;
      assert (b + tail)[from..] == b[from..] + tail;
      assert b[from..] == (b[from..] + tail)[..|a|] && a == (a + tail)[..|a|];
    }
  }

  lemma SuffixMeets(a: seq<byte>, b: seq<byte>, c: seq<byte>)
    requires IsSuffix(a, b + c)
    ensures EndAlike(a, c)
  {
    var all := b + c;
    var from := |all| - |a|;
    if |a| <= |c| {
      assert c[|c| - |a|..] == all[from..];
    } else {
      assert a[|a| - |c|..] == all[|b|..] == c;
    }
  }

  // ---------- Witnesses ----------

  /** An active file of two lines, one over the limit of three bytes, and an archive of one line. */
  function TwoLines(): Files {
    map[0 := [1, NEWLINE, 2, NEWLINE], 1 := [3, NEWLINE]]
  }

  /** The line [1] is gone from between the archived line [3] and the line [2]. */
  lemma StartupLeavesGap()
    ensures var after := Startup(TwoLines(), 3, 2);
            && after == map[1 := [2, NEWLINE], 2 := [3, NEWLINE]]
            && Log(after, 2) == [3, NEWLINE, 2, NEWLINE]
            && Log(TwoLines(), 2) == [3, NEWLINE, 1, NEWLINE, 2, NEWLINE]
            && !IsSuffix(Log(after, 2), Log(TwoLines(), 2))
  {
    hide Moved, TailLines;
    TailOfTwoLines();
    var base := TwoLines() - {2};
    var moved: Files := map[0 := [1, NEWLINE, 2, NEWLINE], 2 := [3, NEWLINE]];
    forall n: nat
      ensures Slot(moved, n) == MovedSlot(base, 1, 2, n)
    {
    }
    MovedIsUp(base, moved, 1, 2);
    var after := Startup(TwoLines(), 3, 2);
    assert after == map[1 := [2, NEWLINE], 2 := [3, NEWLINE]];
    assert Log(after, 1) == [2, NEWLINE] + [] && Log(TwoLines(), 1) == [3, NEWLINE] + [1, NEWLINE, 2, NEWLINE];
    assert Log(after, 2) == [3, NEWLINE] + Log(after, 1) && Log(TwoLines(), 2) == [] + Log(TwoLines(), 1);
    assert Log(TwoLines(), 2)[2..] == [1, NEWLINE, 2, NEWLINE];
  }

  lemma TailOfTwoLines()
    ensures TailLines([1, NEWLINE, 2, NEWLINE], 3) == [2, NEWLINE]
  {
    var s := [1, NEWLINE, 2, NEWLINE];
    assert s[1..] == [NEWLINE, 2, NEWLINE] && s[1..][1..] == [2, NEWLINE];
  }

  /** When the last removal fails the next start finds the same active file and archives the same
      tail again, right behind the first. */
  lemma TailArchivedAgain(files: Files, moved: Files, maxSize: nat, backups: nat)
    requires Oversized(files, maxSize) && backups > 1 && 0 in moved && moved[0] == files[0]
    ensures var tail := TailLines(files[0], maxSize);
            var next := Startup(Placed(moved, tail, true), maxSize, backups);
            && next == Placed(Moved(moved[1 := tail] - {backups}, 1, backups), tail, false)
            && Content(next, 2) == tail && Content(next, 1) == tail
  {
    var tail := TailLines(files[0], maxSize);
    var base := moved[1 := tail] - {backups};
    var up := Moved(base, 1, backups);
    MovedIsUp(base, up, 1, backups);
    MovedFrom(base, up, 1, backups, 2);
  }

  /** Whatever fails at startup: a file under the limit is left alone, the active file is there
      unchanged until its compacted tail is the first archive, and it is gone if all went well. */
  lemma {:induction false} StartupSafe(files: Files, maxSize: nat, backups: nat, f: StartFaults, after: Files,
                                       ok: bool, lo: nat)
    requires StartupOutcome(files, maxSize, backups, f, after, ok, lo)
    ensures 0 !in files || |files[0]| < maxSize ==> after == files
    ensures 0 in files && |files[0]| >= maxSize ==>
      && (0 in after ==> after[0] == files[0])
      && (backups > 0 && 0 !in after ==> 1 in after && after[1] == TailLines(files[0], maxSize))
      && (ok ==> 0 !in after)
  {
    hide TailLines;
  }

  /** An archive whose move up by one slot fails. */
  predicate MoveFails(files: Files, backups: nat, f: StartFaults, i: nat) {
    1 <= i < backups && i in files && f.rename(i)
  }

  /** A start with an oversized file succeeds exactly if nothing that it does fails, and unless the
      tail is in place the active file is untouched. */
  lemma {:induction false} StartupOkIff(files: Files, maxSize: nat, backups: nat, f: StartFaults, after: Files,
                                        ok: bool, lo: nat)
    requires StartupOutcome(files, maxSize, backups, f, after, ok, lo)
    requires 0 in files && |files[0]| >= maxSize && backups > 0
    ensures ok <==> !f.stat && !f.copy && !f.tail && !f.clear && forall i: nat :: !MoveFails(files, backups, f, i)
    ensures f.stat || f.copy || f.tail || (exists i: nat :: MoveFails(files, backups, f, i)) ==>
      0 in after && after[0] == files[0]
  {
    hide TailLines, Moved;
    if !f.stat && !f.copy {
      if lo > 1 {
        assert MoveFails(files, backups, f, lo - 1);
      }
      var base := OldestGone(files, backups, f.remove);
      MovedIsUp(base, files, lo, backups);
      MovedFrom(base, Moved(base, lo, backups), lo, backups, 0);
    }
  }

  /** What a start that succeeds makes of an oversized file: without archives it goes; with them its
      tail becomes the first and every archive stands one slot further on. */
  lemma {:induction false} StartupMeaning(files: Files, maxSize: nat, backups: nat, n: nat)
    requires 0 in files && |files[0]| >= maxSize
    ensures var after := Startup(files, maxSize, backups);
      && 0 !in after
      && (backups == 0 && n > 0 ==> Slot(after, n) == Slot(files, n))
      && (backups > 0 ==> Slot(after, 1) == Some(TailLines(files[0], maxSize)))
      && (2 <= n <= backups ==> Slot(after, n) == Slot(files, n - 1))
      && (backups > 0 && n > backups ==> Slot(after, n) == Slot(files, n))
  {
    hide TailLines, Moved;
    if backups > 0 {
      var base := files - {backups};
      MovedIsUp(base, base, 1, backups);
      MovedFrom(base, Moved(base, 1, backups), 1, backups, n);
    }
  }
}
