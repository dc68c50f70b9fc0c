/** Release tags: their order, and which old binaries and staging directories are kept. */
module Versions {
  import opened Common
  import opened Lists
  import opened Text

  // ---------- The order of tags ----------

  predicate IsDigit(c: char) {
    '0' <= c <= '9'
  }

  const MAX_INT := 0x7FFF_FFFF_FFFF_FFFF

  function TrimNonDigitsLeft(s: string): string {
    if s != "" && !IsDigit(s[0]) then TrimNonDigitsLeft(s[1..]) else s
  }

  function TrimNonDigitsRight(s: string): string {
    if s != "" && !IsDigit(s[|s| - 1]) then TrimNonDigitsRight(s[..|s| - 1]) else s
  }

  predicate AllDigits(s: string) {
    forall i | 0 <= i < |s| :: IsDigit(s[i])
  }

  function Value(s: string): nat
    requires AllDigits(s)
  {
    if s == "" then 0 else 10 * Value(s[..|s| - 1]) + (s[|s| - 1] - '0') as int
  }

  /** `strconv.Atoi` with its error dropped: 0 if the text is no number, saturated if it is too big. */
  function Atoi(s: string): nat {
    if s == "" || !AllDigits(s) then 0 else if Value(s) > MAX_INT then MAX_INT else Value(s)
  }

  function Part(s: string): nat {
    Atoi(TrimNonDigitsRight(TrimNonDigitsLeft(s)))
  }

  /** What precedes the first of the two characters, and what follows it. */
  function CutAtSuffix(s: string): (string, string) {
    if s == "" then ("", "")
    else if s[0] == '-' || s[0] == '+' then ("", s[1..])
    else
      var (head, tail) := CutAtSuffix(s[1..]);
      ([s[0]] + head, tail)
  }

  /** The text behind the first `c`, or nothing. */
  function Behind(s: string, c: char): string {
    if s == "" then "" else if s[0] == c then s[1..] else Behind(s[1..], c)
  }

  datatype Version = Version(major: nat, minor: nat, patch: nat, suffix: string)

  /** `parseVer`: up to three dotted numbers and what follows the first `-` or `+`. */
  function ParseVer(tag: string): Version {
    var (numbers, suffix) := CutAtSuffix(TrimPrefix(TrimSpace(tag), "v"));
    var rest := Behind(numbers, '.');
    Version(Part(Before(numbers, '.')), Part(Before(rest, '.')), Part(Behind(rest, '.')), suffix)
  }

  predicate Above(p: Version, q: Version) {
    if p.major != q.major then p.major > q.major
    else if p.minor != q.minor then p.minor > q.minor
    else if p.patch != q.patch then p.patch > q.patch
    else if p.suffix == "" && q.suffix != "" then true
    else if p.suffix != "" && q.suffix == "" then false
    else Less(q.suffix, p.suffix)
  }

  predicate Newer(a: string, b: string) {
    Above(ParseVer(a), ParseVer(b))
  }

  lemma AboveIrreflexive(p: Version)
    ensures !Above(p, p)
  {
    LessIrreflexive(p.suffix);
  }

  lemma AboveTransitive(p: Version, q: Version, r: Version)
    requires Above(p, q) && Above(q, r)
    ensures Above(p, r)
  {
    hide Less;
    if Less(r.suffix, q.suffix) && Less(q.suffix, p.suffix) {
      LessTransitive(r.suffix, q.suffix, p.suffix);
    }
  }

  lemma AboveTotal(p: Version, q: Version)
    ensures p == q || Above(p, q) || Above(q, p)
  {
    hide Less;
    LessTotal(p.suffix, q.suffix);
  }

  /** `Newer` is a strict weak order on all tags: irreflexive, transitive, and tags of which
      neither is newer are tied exactly when they parse alike, which is an equivalence. */
  lemma NewerIsWeakOrder(a: string, b: string, c: string)
    ensures !Newer(a, a)
    ensures Newer(a, b) && Newer(b, c) ==> Newer(a, c)
    ensures !Newer(a, b) && !Newer(b, a) <==> ParseVer(a) == ParseVer(b)
    ensures Newer(a, b) ==> Newer(a, c) || Newer(c, b)
  {
    hide ParseVer, Above;
    var p, q, r := ParseVer(a), ParseVer(b), ParseVer(c);
    AboveIrreflexive(p);
    AboveTotal(p, q);
    AboveTotal(p, r);
    AboveTotal(r, q);
    if Above(p, q) && Above(q, r) {
      AboveTransitive(p, q, r);
    }
    if Above(p, q) && Above(q, p) {
      AboveTransitive(p, q, p);
    }
    if Above(r, p) && Above(p, q) {
      AboveTransitive(r, p, q);
    }
  }

  predicate IsCut(c: char) {
    c == '-' || c == '+'
  }

  lemma {:induction false} CutBehind(numbers: string, c: char, suffix: string)
    requires IsCut(c) && forall i | 0 <= i < |numbers| :: !IsCut(numbers[i])
    ensures CutAtSuffix(numbers + [c] + suffix) == (numbers, suffix)
    ensures CutAtSuffix(numbers) == (numbers, "")
  {
    if numbers == "" {
      assert (numbers + [c] + suffix)[1..] == suffix;
    } else {
      CutBehind(numbers[1..], c, suffix);
      assert (numbers + [c] + suffix)[1..] == numbers[1..] + [c] + suffix;
      assert numbers == [numbers[0]] + numbers[1..];
    }
  }

  /** A release tag is newer than the same tag with any suffix. */
  lemma ReleaseNewerThanPreRelease(release: string, c: char, suffix: string)
    requires IsCut(c) && suffix != "" && forall i | 0 <= i < |release| :: !IsCut(release[i])
    requires TrimSpace(release) == release && TrimSpace(release + [c] + suffix) == release + [c] + suffix
    ensures Newer(release, release + [c] + suffix) && !Newer(release + [c] + suffix, release)
  {
    var tagged := release + [c] + suffix;
    var numbers := TrimPrefix(release, "v");
    assert release != "" ==> tagged[0] == release[0];
    assert TrimPrefix(tagged, "v") == numbers + [c] + suffix;
    CutBehind(numbers, c, suffix);
    assert ParseVer(tagged) == ParseVer(release).(suffix := suffix);
    assert ParseVer(release).suffix == "";
    hide ParseVer;
    LessIrreflexive(suffix);
  }

  const PREFIX := "5gpnd-"

  function TagOf(name: string): string {
    TrimPrefix(name, PREFIX)
  }

  /** The comparator of `Versions` and `pruneVersions`: newer first, ties by name. */
  predicate First(a: string, b: string) {
    Newer(TagOf(a), TagOf(b)) || (!Newer(TagOf(b), TagOf(a)) && Less(b, a))
  }

  /** With the tie-break the comparator is a strict total order on names. */
  lemma FirstIsTotalOrder(a: string, b: string, c: string)
    ensures !First(a, a)
    ensures First(a, b) && First(b, c) ==> First(a, c)
    ensures a != b ==> (First(a, b) <==> !First(b, a))
  {
    hide Newer, TagOf, ParseVer;
    NewerIsWeakOrder(TagOf(a), TagOf(b), TagOf(c));
    NewerIsWeakOrder(TagOf(b), TagOf(c), TagOf(a));
    NewerIsWeakOrder(TagOf(c), TagOf(a), TagOf(b));
    NewerIsWeakOrder(TagOf(b), TagOf(a), TagOf(b));
    LessIrreflexive(a);
    LessTotal(a, b);
    if Less(c, b) && Less(b, a) {
      LessTransitive(c, b, a);
    }
    if Less(a, b) && Less(b, a) {
      LessTransitive(a, b, a);
    }
  }

  // ---------- Retention ----------

  datatype Entry = Entry(name: string, isDir: bool)

  predicate IsBackup(e: Entry) {
    !e.isDir && HasPrefix(e.name, PREFIX)
  }

  function Backups(entries: seq<Entry>): seq<string> {
    if entries == [] then []
    else
      var last := entries[|entries| - 1];
      Backups(entries[..|entries| - 1]) + if IsBackup(last) then [last.name] else []
  }

  ghost predicate InOrder(s: seq<string>) {
    forall i, j | 0 <= i < j < |s| :: First(s[i], s[j])
  }

  /** Stands for `sort.Slice` with the comparator. */
  method SortNames(names: seq<string>) returns (r: seq<string>)
    requires Distinct(names)
    ensures InOrder(r) && multiset(r) == multiset(names)
  {
    r := [];
    for n := 0 to |names|
      invariant InOrder(r) && multiset(r) == multiset(names[..n])
    {
      assert names[..n + 1] == names[..n] + [names[n]];
      assert names[n] !in names[..n];
      assert forall x :: x in r <==> x in multiset(names[..n]);
      hide InOrder, First;
      r := InsertName(r, names[n]);
    }
    assert names[..|names|] == names;
  }

  method InsertName(s: seq<string>, x: string) returns (r: seq<string>)
    requires InOrder(s) && x !in s
    ensures InOrder(r) && multiset(r) == multiset(s) + multiset{x}
  {
    hide First;
    var i := 0;
    while i < |s| && First(s[i], x)
      invariant 0 <= i <= |s| && forall j | 0 <= j < i :: First(s[j], x)
    {
      i := i + 1;
    }
    RestBehind(s, i, x);
    InsertedMultiset(s, i, x);
    hide InsertAt;
    r := InsertAt(s, i, x);
  }

  lemma RestBehind(s: seq<string>, i: nat, x: string)
    requires InOrder(s) && x !in s && i <= |s| && (i < |s| ==> !First(s[i], x))
    ensures forall j | i <= j < |s| :: First(x, s[j])
  {
    hide First;
    forall j | i <= j < |s|
      ensures First(x, s[j])
    {
      FirstIsTotalOrder(x, s[i], s[j]);
    }
  }

  /** The order leaves no choice: two sorted listings of the same names are the same. */
  lemma {:induction false} OrderIsUnique(a: seq<string>, b: seq<string>)
    requires InOrder(a) && InOrder(b) && multiset(a) == multiset(b)
    ensures a == b
  {
    if a == [] {
      assert |multiset(b)| == 0;
    } else {
      assert |multiset(a)| == |a| && |multiset(b)| == |b|;
      SameHead(a, b);
      TailsAlike(a, b);
      hide First;
      OrderIsUnique(a[1..], b[1..]);
      assert a == [a[0]] + a[1..] && b == [b[0]] + b[1..];
    }
  }

  lemma SameHead(a: seq<string>, b: seq<string>)
    requires InOrder(a) && InOrder(b) && multiset(a) == multiset(b) && a != [] && b != []
    ensures a[0] == b[0]
  {
    hide First;
    assert a[0] in multiset(b) && b[0] in multiset(a);
    var i :| 0 <= i < |b| && b[i] == a[0];
    var j :| 0 <= j < |a| && a[j] == b[0];
    FirstIsTotalOrder(a[0], b[0], a[0]);
  }

  lemma TailsAlike(a: seq<string>, b: seq<string>)
    requires multiset(a) == multiset(b) && a != [] && b != [] && a[0] == b[0]
    ensures multiset(a[1..]) == multiset(b[1..])
  {
    assert a == [a[0]] + a[1..] && b == [b[0]] + b[1..];
    assert multiset(a[1..]) == multiset(a) - multiset{a[0]};
    assert multiset(b[1..]) == multiset(b) - multiset{b[0]};
  }

  datatype Outcome = Pruned(left: seq<string>, failed: bool) | Panicked

  function NonNegative(n: int): nat {
    if n < 0 then 0 else n
  }

  predicate Undeletable(name: string, fails: string -> bool) {
    fails(name)
  }

  /** Those of a list that could not be removed. */
  function Stuck(names: seq<string>, fails: string -> bool): seq<string> {
    if names == [] then []
    else
      var last := names[|names| - 1];
      Stuck(names[..|names| - 1], fails) + if Undeletable(last, fails) then [last] else []
  }

  /** What becomes of a sorted listing of which `keep` are to be kept. */
  function Pruning(order: seq<string>, keep: nat, fails: string -> bool): Outcome {
    if |order| < keep then Panicked
    else Pruned(order[..keep] + Stuck(order[keep..], fails), Stuck(order[keep..], fails) != [])
  }

  /** `pruneVersions` on a directory listing; `fails` says which removals fail. Slicing the
      sorted list at `keep` panics when it is shorter. */
  method PruneVersions(entries: seq<Entry>, keep: int, fails: string -> bool)
      returns (o: Outcome, ghost order: seq<string>)
    requires Distinct(Backups(entries))
    ensures InOrder(order) && multiset(order) == multiset(Backups(entries))
    ensures o == Pruning(order, NonNegative(keep), fails)
    ensures o.Panicked? <==> |Backups(entries)| < NonNegative(keep)
  {
    var versions := FindBackups(entries);
    var sorted := SortNames(versions);
    order := sorted;
    assert |multiset(sorted)| == |sorted| && |multiset(versions)| == |versions|;
    var k := NonNegative(keep);
    if |sorted| < k {
      return Panicked, order;
    }
    var stuck := RemoveAll(sorted[k..], fails);
    o := Pruned(sorted[..k] + stuck, stuck != []);
  }

  lemma {:induction false} StuckMembers(names: seq<string>, fails: string -> bool, name: string)
    ensures name in Stuck(names, fails) <==> name in names && fails(name)
  {
    if names != [] {
      var front, last := names[..|names| - 1], names[|names| - 1];
      StuckMembers(front, fails, name);
      assert names == front + [last];
    }
  }

  method RemoveAll(gone: seq<string>, fails: string -> bool) returns (stuck: seq<string>)
    ensures stuck == Stuck(gone, fails)
  {
    stuck := [];
    for i := 0 to |gone|
      invariant stuck == Stuck(gone[..i], fails)
    {
      assert gone[..i + 1][..i] == gone[..i];
      if Undeletable(gone[i], fails) {
        stuck := stuck + [gone[i]];
      }
    }
    assert gone[..|gone|] == gone;
  }

  method FindBackups(entries: seq<Entry>) returns (names: seq<string>)
    ensures names == Backups(entries)
  {
    names := [];
    for i := 0 to |entries|
      invariant names == Backups(entries[..i])
    {
      assert entries[..i + 1][..i] == entries[..i];
      if entries[i].isDir || !HasPrefix(entries[i].name, PREFIX) {
        continue;
      }
      names := names + [entries[i].name];
    }
    assert entries[..|entries|] == entries;
  }

  /** When no removal fails, exactly the `k` greatest backups are kept: each ranks above each
      that is gone. */
  lemma KeptAreGreatest(order: seq<string>, k: nat, kept: string, gone: string)
    requires InOrder(order) && k <= |order| && kept in order[..k] && gone in order[k..]
    ensures First(kept, gone) && !First(gone, kept)
  {
    hide First;
    var i :| 0 <= i < k && order[..k][i] == kept;
    var j :| 0 <= j < |order| - k && order[k..][j] == gone;
    assert order[i] == kept && order[k + j] == gone;
    FirstIsTotalOrder(kept, gone, kept);
  }

  // ---------- Startup cleanup ----------

  const STALE_AFTER := 3600

  /** A directory entry of the state directory: how long ago it changed, and whether it holds
      a transaction script. */
  datatype StateEntry = StateEntry(name: string, isDir: bool, infoFails: bool, age: int, hasScript: bool)

  predicate IsStaging(e: StateEntry) {
    e.isDir && HasPrefix(e.name, "update-")
  }

  /** Fresh and with a script: an update may still be running in it. */
  predicate IsLive(e: StateEntry) {
    IsStaging(e) && !e.infoFails && e.age <= STALE_AFTER && e.hasScript
  }

  predicate Stays(e: StateEntry, fails: string -> bool) {
    !IsStaging(e) || e.infoFails || IsLive(e) || fails(e.name)
  }

  function Remaining(entries: seq<StateEntry>, fails: string -> bool): seq<StateEntry> {
    if entries == [] then []
    else
      var last := entries[|entries| - 1];
      Remaining(entries[..|entries| - 1], fails) + if Stays(last, fails) then [last] else []
  }

  predicate AnyLive(entries: seq<StateEntry>) {
    exists e :: e in entries && IsLive(e)
  }

  lemma NoEntries(fails: string -> bool)
    ensures Remaining([], fails) == [] && !AnyLive([])
  {
  }

  lemma OneMoreEntry(front: seq<StateEntry>, e: StateEntry, fails: string -> bool)
    ensures Remaining(front + [e], fails)
          == if Stays(e, fails) then Remaining(front, fails) + [e] else Remaining(front, fails)
    ensures AnyLive(front + [e]) <==> AnyLive(front) || IsLive(e)
  {
    hide IsLive, Stays;
    assert (front + [e])[..|front|] == front;
    assert Remaining(front, fails) + [] == Remaining(front, fails);
    if AnyLive(front) {
      var x :| x in front && IsLive(x);
      assert x in front + [e];
    }
    assert e in front + [e];
  }

  /** `cleanupState`: stale staging directories go; the backups are pruned only if no update
      is live. `versions` is the listing of the backup directory, if there is one. */
  method CleanupState(entries: seq<StateEntry>, versions: Option<seq<Entry>>, keep: int, fails: string -> bool)
      returns (left: seq<StateEntry>, pruning: Option<Outcome>, ghost order: seq<string>)
    requires versions.Some? ==> Distinct(Backups(versions.value))
    ensures left == Remaining(entries, fails)
    ensures pruning == if versions.None? || AnyLive(entries) then None
                       else Some(Pruning(order, NonNegative(keep), fails))
    ensures pruning.Some? ==> InOrder(order) && multiset(order) == multiset(Backups(versions.value))
  {
    hide IsStaging, InOrder, Pruning, Remaining, AnyLive, Backups, Distinct;
    NoEntries(fails);
    left := [];
    var live := false;
    for i := 0 to |entries|
      invariant left == Remaining(entries[..i], fails)
      invariant live <==> AnyLive(entries[..i])
    {
      assert entries[..i + 1] == entries[..i] + [entries[i]];
      var e := entries[i];
      OneMoreEntry(entries[..i], e, fails);
      if !IsStaging(e) || e.infoFails {
        left := left + [e];
        continue;
      }
      if e.age <= STALE_AFTER && e.hasScript {
        live := true;
        left := left + [e];
        continue;
      }
      if fails(e.name) {
        left := left + [e];
      }
    }
    assert entries[..|entries|] == entries;
    order := [];
    if live || versions.None? {
      return left, None, order;
    }
    var o;
    o, order := PruneVersions(versions.value, keep, fails);
    return left, Some(o), order;
  }

  lemma {:induction false} RemainingMembers(entries: seq<StateEntry>, fails: string -> bool, e: StateEntry)
    ensures e in Remaining(entries, fails) <==> e in entries && Stays(e, fails)
  {
    hide Stays;
    if entries != [] {
      var front, last := entries[..|entries| - 1], entries[|entries| - 1];
      RemainingMembers(front, fails, e);
      assert entries == front + [last];
    }
  }

  /** A live staging directory is never removed. */
  lemma LiveSurvives(entries: seq<StateEntry>, fails: string -> bool, e: StateEntry)
    requires e in entries && IsLive(e)
    ensures e in Remaining(entries, fails)
  {
    RemainingMembers(entries, fails, e);
  }

  // ---------- Names for examples ----------

  /** The backup of a release with a one-digit number. */
  function DigitName(c: char): string {
    PREFIX + [c]
  }

  lemma DigitsInOrder(c: char, d: char)
    requires IsDigit(c) && IsDigit(d) && c > d
    ensures First(DigitName(c), DigitName(d))
  {
    hide ParseVer;
    DigitVersion(c);
    DigitVersion(d);
  }

  lemma DigitVersion(c: char)
    requires IsDigit(c)
    ensures TagOf(DigitName(c)) == [c]
    ensures ParseVer([c]) == Version((c - '0') as int, 0, 0, "")
  {
    assert DigitName(c)[..|PREFIX|] == PREFIX;
    assert TrimSpace([c]) == [c];
    assert TrimPrefix([c], "v") == [c];
    assert [c][1..] == "" && [c] + "" == [c];
    assert CutAtSuffix([c]) == ([c], "");
    assert Before("", '.') == "" && Before([c], '.') == [c] + Before([c][1..], '.');
    assert Behind([c], '.') == "";
    assert [c][..0] == "" && Value("") == 0 && Value([c]) == (c - '0') as int;
    assert Part([c]) == (c - '0') as int && Part("") == 0;
  }

  // ---------- What the listings hold ----------

  /** The backups are the files, not directories, whose names start with `5gpnd-`. */
  lemma {:induction false} BackupsMeaning(entries: seq<Entry>, name: string)
    ensures name in Backups(entries) <==>
      |name| >= 6 && name[..6] == "5gpnd-" && exists e :: e in entries && e.name == name && !e.isDir
  {
    if entries != [] {
      var front, last := entries[..|entries| - 1], entries[|entries| - 1];
      BackupsMeaning(front, name);
      BackupName(last);
      hide IsBackup, Backups;
      assert entries == front + [last];
      BackupsLast(front, last);
    }
  }

  lemma BackupName(e: Entry)
    ensures IsBackup(e) <==> !e.isDir && |e.name| >= 6 && e.name[..6] == "5gpnd-"
  {
    assert |PREFIX| == 6;
  }

  lemma BackupsLast(front: seq<Entry>, last: Entry)
    ensures Backups(front + [last]) == Backups(front) + if IsBackup(last) then [last.name] else []
  {
    assert (front + [last])[..|front|] == front;
  }

  /** The cleanup removes exactly the directories whose names start with `update-`, that can be looked
      up, and are older than an hour or hold no script, unless the removal fails; one that is younger
      and holds a script counts as an update under way. */
  lemma {:induction false} StaysMeaning(e: StateEntry, fails: string -> bool)
    ensures var staging := e.isDir && |e.name| >= 7 && e.name[..7] == "update-";
      && (!Stays(e, fails) <==> staging && !e.infoFails && (e.age > 3600 || !e.hasScript) && !fails(e.name))
      && (IsLive(e) <==> staging && !e.infoFails && e.age < 3601 && e.hasScript)
  {
    assert |"update-"| == 7;
  }

  /** Of a sorted listing the first `keep` stay and those of the others that cannot be removed; a
      negative number counts as none. */
  lemma {:induction false} PruningMeaning(order: seq<string>, keep: int, fails: string -> bool, name: string)
    requires keep <= |order|
    ensures var k := if keep > 0 then keep else 0;
      var o := Pruning(order, NonNegative(keep), fails);
      && o.Pruned?
      && (name in o.left <==> name in order[..k] || (name in order[k..] && fails(name)))
      && (o.failed <==> exists x :: x in order[k..] && fails(x))
  {
    var k := NonNegative(keep);
    forall x: string
      ensures x in Stuck(order[k..], fails) <==> x in order[k..] && fails(x)
    {
      StuckMembers(order[k..], fails, x);
    }
    hide Stuck;
    var stuck := Stuck(order[k..], fails);
    if stuck != [] {
      assert stuck[0] in stuck;
    }
  }
}
