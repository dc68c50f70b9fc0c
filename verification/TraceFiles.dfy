/** The files of the trace log, an active one and numbered archives, and the move of archives up
    by one slot that rotation and startup share. */
module TraceFiles {
  import opened Common
  import opened Bytes

  /** File 0 is the active one, file n the archive `path.n`. */
  type Files = map<nat, seq<byte>>

  const NEWLINE: byte := 10

  function Slot(files: Files, n: nat): Option<seq<byte>> {
    if n in files then Some(files[n]) else None
  }

  function Content(files: Files, n: nat): seq<byte> {
    if n in files then files[n] else []
  }

  /** Archives from the `k`-th, the oldest, down to the first, then the active file. */
  function Log(files: Files, k: nat): seq<byte> {
    if k == 0 then Content(files, 0) else Content(files, k) + Log(files, k - 1)
  }

  /** Empty, or ending a line. */
  predicate Whole(s: seq<byte>) {
    s == [] || s[|s| - 1] == NEWLINE
  }

  predicate AllWhole(files: Files) {
    forall n | n in files :: Whole(files[n])
  }

  predicate SizesOk(files: Files, maxSize: nat) {
    forall n | n in files :: |files[n]| <= maxSize
  }

  predicate Within(files: Files, backups: nat) {
    forall n | n in files :: n <= backups
  }

  predicate IsSuffix(tail: seq<byte>, all: seq<byte>) {
    |tail| <= |all| && all[|all| - |tail|..] == tail
  }

  /** A suffix that starts at the beginning of a line. */
  predicate IsLineSuffix(tail: seq<byte>, all: seq<byte>) {
    IsSuffix(tail, all) && Whole(all[..|all| - |tail|])
  }

  lemma SuffixBehind(head: seq<byte>, tail: seq<byte>)
    ensures IsSuffix(tail, head + tail) && (Whole(head) ==> IsLineSuffix(tail, head + tail))
  {
    assert (head + tail)[..|head|] == head;
  }

  lemma SuffixOfSuffix(a: seq<byte>, b: seq<byte>, c: seq<byte>)
    requires IsSuffix(a, b) && IsSuffix(b, c)
    ensures IsSuffix(a, c)
    ensures IsLineSuffix(a, b) && IsLineSuffix(b, c) ==> IsLineSuffix(a, c)
  {
    assert c == c[..|c| - |b|] + b && b == b[..|b| - |a|] + a;
    assert c[..|c| - |a|] == c[..|c| - |b|] + b[..|b| - |a|];
  }

  lemma SuffixGrows(tail: seq<byte>, all: seq<byte>, more: seq<byte>)
    requires IsSuffix(tail, all)
    ensures IsSuffix(tail + more, all + more)
    ensures IsLineSuffix(tail, all) ==> IsLineSuffix(tail + more, all + more)
  {
    assert (all + more)[..|all| - |tail|] == all[..|all| - |tail|];
  }

  lemma Associate(a: seq<byte>, b: seq<byte>, c: seq<byte>)
    ensures a + (b + c) == (a + b) + c
  {
  }

  lemma {:induction false} SameLog(files: Files, other: Files, k: nat)
    requires forall n: nat | n <= k :: Content(files, n) == Content(other, n)
    ensures Log(files, k) == Log(other, k)
  {
    if k > 0 {
      SameLog(files, other, k - 1);
    }
  }

  lemma {:induction false} AppendActive(files: Files, more: seq<byte>, k: nat)
    ensures Log(files[0 := Content(files, 0) + more], k) == Log(files, k) + more
  {
    if k > 0 {
      AppendActive(files, more, k - 1);
      Associate(Content(files, k), Log(files, k - 1), more);
    }
  }

  /** A missing active file counts as an empty one. */
  lemma EmptyActive(files: Files, k: nat)
    requires 0 !in files
    ensures Log(files[0 := []], k) == Log(files, k)
  {
    forall n: nat | n <= k
      ensures Content(files[0 := []], n) == Content(files, n)
    {
    }
    SameLog(files[0 := []], files, k);
  }

  // ---------- Moving up ----------

  /** What slot `n` holds when the files from `lo` up to `top - 1` have moved up by one. A file
      that stood in slot `top` stays where nothing moves onto it. */
  function MovedSlot(files: Files, lo: nat, top: nat, n: nat): Option<seq<byte>> {
    if !(lo <= n <= top) then Slot(files, n)
    else if n > lo && n - 1 in files then Some(files[n - 1])
    else if n == top then Slot(files, n)
    else None
  }

  ghost predicate MovedUp(files: Files, after: Files, lo: nat, top: nat) {
    forall n: nat :: Slot(after, n) == MovedSlot(files, lo, top, n)
  }

  /** `rename`, onto a file that may exist. */
  function Renamed(files: Files, from: nat, to: nat): Files
    requires from in files && from != to
  {
    (files - {from})[to := files[from]]
  }

  /** File `i` becomes file `i + 1`, from `top - 1` down to `lowest`; `renames(i)` is whether the
      rename away from file `i` fails, a missing file not being an error. `lo` is how far the
      loop came: it stops below the first rename that fails. */
  method ShiftArchives(files: Files, lowest: nat, top: nat, renameFails: nat -> bool)
      returns (after: Files, ok: bool, ghost lo: nat)
    requires lowest <= top
    ensures lowest <= lo <= top && MovedUp(files, after, lo, top)
    ensures ok ==> lo == lowest
    ensures !ok ==> lowest < lo && lo - 1 in files && renameFails(lo - 1)
    ensures forall i | lo <= i < top && i in files :: !renameFails(i)
  {
    after := files;
    var i := top;
    while i > lowest
      invariant lowest <= i <= top
      invariant MovedUp(files, after, i, top)
      invariant forall j | i <= j < top && j in files :: !renameFails(j)
    {
      assert Slot(after, i - 1) == MovedSlot(files, i, top, i - 1);
      if i - 1 in after {
        if renameFails(i - 1) {
          return after, false, i;
        }
        OneUp(files, after, i, top);
        after := Renamed(after, i - 1, i);
      } else {
        OneLess(files, after, i, top);
      }
      i := i - 1;
    }
    return after, true, i;
  }

  lemma OneUp(files: Files, after: Files, i: nat, top: nat)
    requires 0 < i <= top && MovedUp(files, after, i, top) && i - 1 in after
    ensures MovedUp(files, Renamed(after, i - 1, i), i - 1, top)
  {
    assert Slot(after, i - 1) == MovedSlot(files, i, top, i - 1);
    var renamed := Renamed(after, i - 1, i);
    forall n: nat
      ensures Slot(renamed, n) == MovedSlot(files, i - 1, top, n)
    {
      assert Slot(after, n) == MovedSlot(files, i, top, n);
    }
  }

  lemma OneLess(files: Files, after: Files, i: nat, top: nat)
    requires 0 < i <= top && MovedUp(files, after, i, top) && i - 1 !in after
    ensures MovedUp(files, after, i - 1, top)
  {
    assert Slot(after, i - 1) == MovedSlot(files, i, top, i - 1);
    forall n: nat
      ensures Slot(after, n) == MovedSlot(files, i - 1, top, n)
    {
      assert Slot(after, n) == MovedSlot(files, i, top, n);
    }
  }

  /** The result of a move as one map. */
  function Moved(files: Files, lo: nat, top: nat): (after: Files) {
    var names := files.Keys + set n | n in files :: n + 1;
    map n | n in names && MovedSlot(files, lo, top, n).Some? :: MovedSlot(files, lo, top, n).value
  }

  lemma MovedIsUp(files: Files, after: Files, lo: nat, top: nat)
    ensures MovedUp(files, Moved(files, lo, top), lo, top)
    ensures MovedUp(files, after, lo, top) ==> after == Moved(files, lo, top)
  {
    var moved := Moved(files, lo, top);
    forall n: nat
      ensures Slot(moved, n) == MovedSlot(files, lo, top, n)
    {
      if n > 0 && n - 1 in files {
        assert (n - 1) + 1 == n;
      }
    }
    if MovedUp(files, after, lo, top) {
      forall n: nat
        ensures Slot(after, n) == Slot(moved, n)
      {
        assert Slot(after, n) == MovedSlot(files, lo, top, n);
      }
      SameSlots(after, moved);
    }
  }

  lemma SameSlots(a: Files, b: Files)
    requires forall n: nat :: Slot(a, n) == Slot(b, n)
    ensures a == b
  {
    forall n: nat | n in a
      ensures n in b && a[n] == b[n]
    {
      assert Slot(a, n) == Slot(b, n);
    }
    forall n: nat | n in b
      ensures n in a
    {
      assert Slot(a, n) == Slot(b, n);
    }
  }

  // ---------- What a move means for the log ----------

  /** The log is what it was, or what it was without the oldest archive. */
  predicate LosesAtMostOldest(before: Files, after: Files, backups: nat) {
    || Log(after, backups) == Log(before, backups)
    || Content(before, backups) + Log(after, backups) == Log(before, backups)
  }

  lemma MovedFrom(files: Files, after: Files, lo: nat, top: nat, n: nat)
    requires MovedUp(files, after, lo, top)
    ensures Slot(after, n) == MovedSlot(files, lo, top, n)
  {
  }

  lemma BelowMove(files: Files, after: Files, lo: nat, top: nat, k: nat)
    requires MovedUp(files, after, lo, top) && k < lo
    ensures Log(after, k) == Log(files, k)
  {
    forall n: nat | n <= k
      ensures Content(after, n) == Content(files, n)
    {
      MovedFrom(files, after, lo, top, n);
    }
    SameLog(after, files, k);
  }

  /** Below the top a move keeps the log: slot `k` ends what slot `k - 1` ended. */
  lemma {:induction false} MovedLog(files: Files, after: Files, lo: nat, top: nat, k: nat)
    requires MovedUp(files, after, lo, top) && lo <= k < top
    ensures Log(after, k) == if k == 0 then [] else Log(files, k - 1)
  {
    hide MovedUp;
    MovedFrom(files, after, lo, top, k);
    if k > lo {
      MovedLog(files, after, lo, top, k - 1);
    } else if k > 0 {
      BelowMove(files, after, lo, top, k - 1);
    }
    if k > 0 {
      LogBelow(after, k);
      TopOrFirst(files, k);
    }
    LogOfActive(after);
    hide Log;
  }

  lemma TopOrFirst(files: Files, k: nat)
    requires k > 0
    ensures Log(files, k - 1) == Content(files, k - 1) + if k == 1 then [] else Log(files, k - 2)
    ensures [] + Log(files, k - 1) == Log(files, k - 1)
  {
    assert Content(files, 0) + [] == Content(files, 0);
  }

  lemma LogBelow(files: Files, top: nat)
    requires top > 0
    ensures Log(files, top) == Content(files, top) + Log(files, top - 1)
  {
  }

  /** A move loses the file that stood in the top slot, and only if another moves onto it. */
  lemma MovedLoses(files: Files, after: Files, lo: nat, top: nat)
    requires MovedUp(files, after, lo, top) && lo <= top
    ensures lo < top && top - 1 in files ==> Content(files, top) + Log(after, top) == Log(files, top)
    ensures !(lo < top && top - 1 in files) ==> Log(after, top) == Log(files, top)
  {
    hide MovedUp, Log;
    MovedFrom(files, after, lo, top, top);
    if lo < top {
      MovedLog(files, after, lo, top, top - 1);
      LogBelow(files, top);
      LogBelow(after, top);
      if top == 1 {
        LogOfActive(files);
      } else {
        TopPair(files, top);
      }
    } else if top == 0 {
      LogOfActive(files);
      LogOfActive(after);
    } else {
      BelowMove(files, after, lo, top, top - 1);
      LogBelow(files, top);
      LogBelow(after, top);
    }
  }

  lemma LogOfActive(files: Files)
    ensures Log(files, 0) == Content(files, 0) == Content(files, 0) + []
  {
  }

  lemma TopPair(files: Files, top: nat)
    requires top > 1
    ensures Log(files, top - 1) == Content(files, top - 1) + Log(files, top - 2)
    ensures top - 1 !in files ==> Log(files, top - 1) == Log(files, top - 2)
  {
    assert [] + Log(files, top - 2) == Log(files, top - 2);
  }

  lemma OldestRemoved(files: Files, top: nat)
    ensures Content(files, top) + Log(files - {top}, top) == Log(files, top)
    ensures Content(files - {top}, top) == []
  {
    if top > 0 {
      SameLog(files - {top}, files, top - 1);
      assert [] + Log(files, top - 1) == Log(files, top - 1);
    } else {
      assert Content(files, 0) + [] == Content(files, 0);
    }
  }

  /** The archives after `rotateArchives` or startup tried to remove the oldest one. */
  function OldestGone(files: Files, top: nat, removeFails: bool): Files {
    if removeFails then files else files - {top}
  }

  lemma ShiftLosesOldest(files: Files, after: Files, lo: nat, top: nat, removeFails: bool)
    requires lo <= top && MovedUp(OldestGone(files, top, removeFails), after, lo, top)
    ensures LosesAtMostOldest(files, after, top)
  {
    hide Log, MovedUp;
    MovedLoses(OldestGone(files, top, removeFails), after, lo, top);
    if !removeFails {
      OldestRemoved(files, top);
      assert [] + Log(after, top) == Log(after, top);
    }
  }

  /** When the oldest archive is removed first, it and nothing else is lost. */
  lemma ShiftLosesExactly(files: Files, after: Files, lo: nat, top: nat)
    requires lo <= top && MovedUp(files - {top}, after, lo, top)
    ensures Content(files, top) + Log(after, top) == Log(files, top)
    ensures |Log(files, top)| == |Content(files, top)| + |Log(after, top)|
  {
    hide Log, MovedUp;
    MovedLoses(files - {top}, after, lo, top);
    OldestRemoved(files, top);
    assert [] + Log(after, top) == Log(after, top);
  }

  /** Every file after a move is one that was there. */
  lemma Origin(files: Files, after: Files, lo: nat, top: nat, removeFails: bool, n: nat) returns (m: nat)
    requires MovedUp(OldestGone(files, top, removeFails), after, lo, top) && n in after
    ensures m in files && after[n] == files[m] && (m == n || n <= top)
  {
    var base := OldestGone(files, top, removeFails);
    MovedFrom(base, after, lo, top, n);
    m := if lo < n <= top && n - 1 in base then n - 1 else n;
  }

  lemma MovedHeld(files: Files, after: Files, lo: nat, top: nat, removeFails: bool, maxSize: nat)
    requires MovedUp(OldestGone(files, top, removeFails), after, lo, top)
    ensures AllWhole(files) ==> AllWhole(after)
    ensures SizesOk(files, maxSize) ==> SizesOk(after, maxSize)
    ensures Within(files, top) ==> Within(after, top)
  {
    hide MovedUp, OldestGone;
    forall n | n in after
      ensures AllWhole(files) ==> Whole(after[n])
      ensures SizesOk(files, maxSize) ==> |after[n]| <= maxSize
      ensures Within(files, top) ==> n <= top
    {
      var m := Origin(files, after, lo, top, removeFails, n);
    }
  }

  lemma LostKeepsSuffix(before: Files, after: Files, backups: nat)
    requires LosesAtMostOldest(before, after, backups)
    ensures IsSuffix(Log(after, backups), Log(before, backups))
    ensures AllWhole(before) ==> IsLineSuffix(Log(after, backups), Log(before, backups))
  {
    hide Log;
    if Log(after, backups) != Log(before, backups) {
      SuffixBehind(Content(before, backups), Log(after, backups));
    }
  }

  /** At most `backups + 1` files. */
  lemma FileCount(files: Files, backups: nat)
    requires Within(files, backups)
    ensures |files| <= backups + 1
  {
    NamesBounded(files.Keys, backups + 1);
  }

  lemma {:induction false} NamesBounded(names: set<nat>, n: nat)
    requires forall i | i in names :: i < n
    ensures |names| <= n
  {
    if n == 0 {
      assert names == {};
    } else {
      NamesBounded(names - {n - 1}, n - 1);
    }
  }
}
