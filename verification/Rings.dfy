/** Sample rings, their snapshots on disk, and the figures computed from them. */
module Rings {
  import opened Common
  import opened Lists

  /** Times are in seconds. */
  datatype Sample = Sample(at: int, us: nat, ok: bool)

  /** Samples older than 25 hours are not restored. */
  const KEPT_FOR := 25 * 3600

  /** The last `n` elements, or all of them. */
  function Last<T>(s: seq<T>, n: nat): (r: seq<T>)
    ensures |r| == if |s| > n then n else |s|
  {
    if |s| > n then s[|s| - n..] else s
  }

  /** A ring's buffer holds the end of its history: in order from `next` on once it is full. */
  ghost predicate Holds(b: seq<Sample>, next: nat, full: bool, history: seq<Sample>) {
    && next < |b|
    && (if full then |history| >= |b| && b[next..] + b[..next] == Last(history, |b|)
        else next == |history| && b[..next] == history)
  }

  class Ring {
    const buf: array<Sample>
    var next: nat
    var full: bool
    /** Every sample ever added. */
    ghost var history: seq<Sample>

    ghost predicate Valid()
      reads this, buf
    {
      Holds(buf[..], next, full, history)
    }

    constructor (capacity: nat)
      requires capacity > 0
      ensures Valid() && history == [] && buf.Length == capacity && fresh(buf)
    {
      buf := new Sample[capacity](_ => Sample(0, 0, false));
      next, full, history := 0, false, [];
    }

    method Add(s: Sample)
      requires Valid()
      modifies `next, `full, `history, buf
      ensures Valid() && history == old(history) + [s]
    {
      OneAdded(buf[..], history, next, full, s);
      ghost var after := buf[..next] + [s] + buf[next + 1..];
      assert after == buf[..][..next] + [s] + buf[..][next + 1..];
      hide Holds;
      buf[next] := s;
      assert buf[..] == after;
      RoundTheEnd(next, buf.Length);
      next := (next + 1) % buf.Length;
      if next == 0 {
        full := true;
      }
      history := history + [s];
    }

    /** `all`: the samples held, oldest first. */
    method All() returns (r: seq<Sample>)
      requires Valid()
      ensures r == Last(history, buf.Length)
    {
      assert buf[..][next..] == buf[next..] && buf[..][..next] == buf[..next];
      if !full {
        return buf[..next];
      }
      return buf[next..] + buf[..next];
    }

    /** `since`. */
    method Since(t: int) returns (r: seq<Sample>)
      requires Valid()
      ensures r == NotBefore(Last(history, buf.Length), t)
    {
      var all := All();
      r := [];
      for i := 0 to |all|
        invariant r == NotBefore(all[..i], t)
      {
        assert all[..i + 1][..i] == all[..i];
        if all[i].at >= t {
          r := r + [all[i]];
        }
      }
      assert all[..|all|] == all;
    }
  }

  lemma RoundTheEnd(n: nat, length: nat)
    requires n < length
    ensures (n + 1) % length == if n + 1 == length then 0 else n + 1
  {
  }

  /** What one `add` does to the buffer, by position. */
  lemma OneAdded(before: seq<Sample>, history: seq<Sample>, n: nat, full: bool, s: Sample)
    requires Holds(before, n, full, history)
    ensures var after := before[..n] + [s] + before[n + 1..];
      var next := if n + 1 == |before| then 0 else n + 1;
      Holds(after, next, full || next == 0, history + [s])
  {
    var after := before[..n] + [s] + before[n + 1..];
    assert after[..n + 1] == before[..n] + [s] && after[n + 1..] == before[n + 1..];
    if full {
      OldestReplaced(before, history, n, s);
    }
    if n + 1 == |before| {
      assert after[0..] + after[..0] == after && after == after[..n + 1];
    }
  }

  lemma OldestReplaced(before: seq<Sample>, history: seq<Sample>, n: nat, s: Sample)
    requires n < |before| && |history| >= |before| && before[n..] + before[..n] == Last(history, |before|)
    ensures before[n + 1..] + (before[..n] + [s]) == Last(history + [s], |before|)
  {
    var held := before[n..] + before[..n];
    assert before[n + 1..] + before[..n] == held[1..];
    assert Last(history + [s], |before|) == held[1..] + [s];
  }

  function NotBefore(s: seq<Sample>, t: int): seq<Sample> {
    if s == [] then []
    else NotBefore(s[..|s| - 1], t) + if s[|s| - 1].at >= t then [s[|s| - 1]] else []
  }

  // ---------- Snapshots ----------

  /** The samples strictly newer than the cut-off, in order. */
  function Newer(s: seq<Sample>, cutoff: int): (r: seq<Sample>)
    ensures |r| <= |s|
  {
    if s == [] then []
    else Newer(s[..|s| - 1], cutoff) + if s[|s| - 1].at > cutoff then [s[|s| - 1]] else []
  }

  /** The loop of `Load` that fills one ring. */
  method Refill(r: Ring, samples: seq<Sample>, cutoff: int)
    requires r.Valid()
    modifies r`next, r`full, r`history, r.buf
    ensures r.Valid() && r.history == old(r.history) + Newer(samples, cutoff)
  {
    assert r.history == r.history + Newer(samples[..0], cutoff);
    for i := 0 to |samples|
      invariant r.Valid() && r.history == old(r.history) + Newer(samples[..i], cutoff)
    {
      assert samples[..i + 1][..i] == samples[..i];
      if samples[i].at > cutoff {
        r.Add(samples[i]);
      }
    }
    assert samples[..|samples|] == samples;
  }

  /** Saving a ring and loading it into a new ring of the same capacity keeps exactly the
      samples of the last 25 hours, in order. */
  method SaveThenLoad(r: Ring, now: int) returns (loaded: Ring)
    requires r.Valid()
    ensures loaded.Valid() && loaded.buf.Length == r.buf.Length
    ensures Last(loaded.history, loaded.buf.Length) == Newer(Last(r.history, r.buf.Length), now - KEPT_FOR)
  {
    var saved := r.All();
    loaded := new Ring(r.buf.Length);
    Refill(loaded, saved, now - KEPT_FOR);
    assert [] + Newer(saved, now - KEPT_FOR) == Newer(saved, now - KEPT_FOR);
  }

  /** In time order nothing but the oldest is lost: what is kept is a suffix. */
  lemma {:induction false} NewerIsSuffix(s: seq<Sample>, cutoff: int)
    requires forall i, j | 0 <= i < j < |s| :: s[i].at <= s[j].at
    ensures Newer(s, cutoff) == s[|s| - |Newer(s, cutoff)|..]
  {
    if s != [] {
      var front, last := s[..|s| - 1], s[|s| - 1];
      if last.at <= cutoff {
        NoneNewer(s, cutoff);
      } else {
        NewerIsSuffix(front, cutoff);
        assert front[|front| - |Newer(front, cutoff)|..] + [last] == s[|s| - |Newer(s, cutoff)|..];
      }
    }
  }

  lemma {:induction false} NoneNewer(s: seq<Sample>, cutoff: int)
    requires forall i | 0 <= i < |s| :: s[i].at <= cutoff
    ensures Newer(s, cutoff) == []
  {
    if s != [] {
      NoneNewer(s[..|s| - 1], cutoff);
    }
  }

  // ---------- Figures ----------

  datatype Window = Window(count: nat, fail: nat, avg: nat, p95: nat, max: nat, lastFailAt: Option<int>)

  /** The round-trip times of the successful samples. */
  function Times(s: seq<Sample>): (r: seq<nat>)
    ensures |r| <= |s|
  {
    if s == [] then []
    else Times(s[..|s| - 1]) + if s[|s| - 1].ok then [s[|s| - 1].us] else []
  }

  function SumOf(s: seq<nat>): nat {
    if s == [] then 0 else SumOf(s[..|s| - 1]) + s[|s| - 1]
  }

  /** Integer division of non-negative numbers. */
  function Mean(sum: nat, n: nat): nat
    requires n > 0
  {
    sum / n
  }

  predicate Failed(s: Sample) {
    !s.ok
  }

  predicate NoneAbove(s: seq<nat>, m: nat) {
    forall i | 0 <= i < |s| :: s[i] <= m
  }

  predicate NoneBelow(s: seq<nat>, m: nat) {
    forall i | 0 <= i < |s| :: s[i] >= m
  }

  /** The greatest element, 0 for none. */
  ghost predicate IsMax(s: seq<nat>, m: nat) {
    NoneAbove(s, m) && (m in s || m == 0)
  }

  ghost predicate IsLastFail(s: seq<Sample>, t: Option<int>) {
    && (forall x | x in s && Failed(x) :: t.Some? && x.at <= t.value)
    && (t.Some? ==> exists x :: x in s && Failed(x) && x.at == t.value)
  }

  function CountAtMost(s: seq<nat>, x: nat): nat {
    if s == [] then 0 else CountAtMost(s[..|s| - 1], x) + if s[|s| - 1] <= x then 1 else 0
  }

  function CountAtLeast(s: seq<nat>, x: nat): nat {
    if s == [] then 0 else CountAtLeast(s[..|s| - 1], x) + if s[|s| - 1] >= x then 1 else 0
  }

  /** At least 95 of 100 of the times are at most `x`, and more than 5 of 100 at least `x`. */
  ghost predicate IsPercentile(s: seq<nat>, x: nat) {
    x in s && CountAtMost(s, x) > |s| * 95 / 100 && CountAtLeast(s, x) >= |s| - |s| * 95 / 100
  }

  /** `summarize`. */
  method Summarize(ss: seq<Sample>) returns (w: Window)
    ensures w.count == |ss| && w.fail == |ss| - |Times(ss)|
    ensures IsMax(Times(ss), w.max) && IsLastFail(ss, w.lastFailAt)
    ensures Times(ss) == [] ==> w.avg == 0 && w.p95 == 0
    ensures Times(ss) != [] ==> w.avg == Mean(SumOf(Times(ss)), |Times(ss)|) && IsPercentile(Times(ss), w.p95)
  {
    hide IsMax, IsLastFail, SumOf, Times, IsPercentile, Mean;
    var fail, sum, max, last, lat := Gather(ss);
    w := Window(|ss|, fail, 0, 0, max, last);
    if |lat| > 0 {
      var sorted := SortTimes(lat);
      var idx := |lat| * 95 / 100;
      PercentileAt(lat, sorted, idx);
      w := w.(avg := Mean(sum, |lat|), p95 := sorted[idx]);
    }
  }

  /** The loop over the samples. */
  method Gather(ss: seq<Sample>) returns (fail: nat, sum: nat, max: nat, last: Option<int>, lat: seq<nat>)
    ensures lat == Times(ss) && sum == SumOf(lat) && |ss| == fail + |lat|
    ensures IsMax(lat, max) && IsLastFail(ss, last)
  {
    hide IsMax, IsLastFail, SumOf, Times;
    fail, sum, max, last, lat := 0, 0, 0, None, [];
    NothingYet();
    ghost var seen: seq<Sample> := [];
    for i := 0 to |ss|
      invariant seen == ss[..i] && lat == Times(seen) && sum == SumOf(lat) && i == fail + |lat|
      invariant IsMax(lat, max) && IsLastFail(seen, last)
    {
      var s := ss[i];
      OneMoreSample(seen, s, last);
      OneMoreTime(lat, s.us, max);
      seen := seen + [s];
      if !s.ok {
        fail := fail + 1;
        if last.None? || s.at > last.value {
          last := Some(s.at);
        }
        assert lat + [] == lat;
      } else {
        sum := sum + s.us;
        lat := lat + [s.us];
        if s.us > max {
          max := s.us;
        }
      }
    }
    assert seen == ss;
  }

  lemma NothingYet()
    ensures Times([]) == [] && SumOf([]) == 0 && IsMax([], 0) && IsLastFail([], None)
  {
  }

  lemma OneMoreTime(lat: seq<nat>, us: nat, max: nat)
    requires IsMax(lat, max)
    ensures SumOf(lat + [us]) == SumOf(lat) + us && IsMax(lat + [us], if us > max then us else max)
  {
    assert (lat + [us])[..|lat|] == lat && us in lat + [us];
  }

  lemma OneMoreSample(before: seq<Sample>, s: Sample, last: Option<int>)
    requires IsLastFail(before, last)
    ensures Times(before + [s]) == Times(before) + if s.ok then [s.us] else []
    ensures IsLastFail(before + [s], if s.ok || (last.Some? && s.at <= last.value) then last else Some(s.at))
  {
    assert (before + [s])[..|before|] == before;
    assert s in before + [s] && forall x | x in before :: x in before + [s];
  }

  predicate SortedTimes(s: seq<nat>) {
    forall i, j | 0 <= i < j < |s| :: s[i] <= s[j]
  }

  /** Stands for `sort.Slice`. */
  method SortTimes(s: seq<nat>) returns (r: seq<nat>)
    ensures SortedTimes(r) && multiset(r) == multiset(s)
  {
    r := [];
    for n := 0 to |s|
      invariant SortedTimes(r) && multiset(r) == multiset(s[..n])
    {
      assert s[..n + 1] == s[..n] + [s[n]];
      r := InsertTime(r, s[n]);
    }
    assert s[..|s|] == s;
  }

  method InsertTime(s: seq<nat>, x: nat) returns (r: seq<nat>)
    requires SortedTimes(s)
    ensures SortedTimes(r) && multiset(r) == multiset(s) + multiset{x}
  {
    var i := 0;
    while i < |s| && s[i] <= x
      invariant 0 <= i <= |s| && forall j | 0 <= j < i :: s[j] <= x
    {
      i := i + 1;
    }
    InsertedMultiset(s, i, x);
    hide InsertAt;
    r := InsertAt(s, i, x);
  }

  lemma {:induction false} CountsPermuted(s: seq<nat>, t: seq<nat>, x: nat)
    requires multiset(s) == multiset(t)
    ensures CountAtMost(s, x) == CountAtMost(t, x) && CountAtLeast(s, x) == CountAtLeast(t, x)
  {
    if s == [] {
      assert |multiset(t)| == 0;
    } else {
      var front, y := s[..|s| - 1], s[|s| - 1];
      assert y in multiset(t);
      var i :| 0 <= i < |t| && t[i] == y;
      LastRemoved(s, t, i);
      assert s == front + [y] && t == t[..i] + ([y] + t[i + 1..]);
      CountsPermuted(front, t[..i] + t[i + 1..], x);
      hide CountAtMost, CountAtLeast;
      CountsConcat(front, [y], x);
      CountsConcat(t[..i], t[i + 1..], x);
      CountsConcat(t[..i], [y] + t[i + 1..], x);
      CountsConcat([y], t[i + 1..], x);
    }
  }

  lemma LastRemoved(s: seq<nat>, t: seq<nat>, i: nat)
    requires multiset(s) == multiset(t) && s != [] && i < |t| && t[i] == s[|s| - 1]
    ensures multiset(s[..|s| - 1]) == multiset(t[..i] + t[i + 1..])
  {
    RemovedAt(s, |s| - 1);
    RemovedAt(t, i);
    var front, rest := s[..|s| - 1], t[..i] + t[i + 1..];
    assert s[..|s| - 1] + s[|s|..] == front;
    SameRest(multiset(front), multiset(rest), t[i]);
  }

  lemma RemovedAt(t: seq<nat>, i: nat)
    requires i < |t|
    ensures multiset(t) == multiset(t[..i] + t[i + 1..]) + multiset{t[i]}
  {
    assert t == t[..i] + [t[i]] + t[i + 1..];
  }

  lemma SameRest(a: multiset<nat>, b: multiset<nat>, x: nat)
    requires a + multiset{x} == b + multiset{x}
    ensures a == b
  {
    assert a == (a + multiset{x}) - multiset{x} && b == (b + multiset{x}) - multiset{x};
  }

  lemma {:induction false} CountsConcat(a: seq<nat>, b: seq<nat>, x: nat)
    ensures CountAtMost(a + b, x) == CountAtMost(a, x) + CountAtMost(b, x)
    ensures CountAtLeast(a + b, x) == CountAtLeast(a, x) + CountAtLeast(b, x)
  {
    if b == [] {
      assert a + b == a;
    } else {
      assert (a + b)[..|a + b| - 1] == a + b[..|b| - 1];
      CountsConcat(a, b[..|b| - 1], x);
    }
  }

  lemma {:induction false} AllCounted(s: seq<nat>, x: nat)
    ensures NoneAbove(s, x) ==> CountAtMost(s, x) == |s|
    ensures NoneBelow(s, x) ==> CountAtLeast(s, x) == |s|
  {
    if s != [] {
      AllCounted(s[..|s| - 1], x);
    }
  }

  lemma PercentileAt(lat: seq<nat>, sorted: seq<nat>, idx: nat)
    requires multiset(lat) == multiset(sorted) && SortedTimes(sorted) && lat != [] && idx == |lat| * 95 / 100
    ensures |sorted| == |lat| && idx < |lat| && IsPercentile(lat, sorted[idx])
  {
    hide CountAtMost, CountAtLeast;
    assert |multiset(lat)| == |lat| && |multiset(sorted)| == |sorted|;
    var x := sorted[idx];
    CountsAround(sorted, idx);
    CountsPermuted(lat, sorted, x);
    assert x in multiset(lat);
  }

  lemma CountsAround(sorted: seq<nat>, idx: nat)
    requires SortedTimes(sorted) && idx < |sorted|
    ensures CountAtMost(sorted, sorted[idx]) > idx && CountAtLeast(sorted, sorted[idx]) >= |sorted| - idx
  {
    var x := sorted[idx];
    var low, high := sorted[..idx + 1], sorted[idx + 1..];
    var below, above := sorted[..idx], sorted[idx..];
    assert sorted == low + high && sorted == below + above;
    assert NoneAbove(low, x) && NoneBelow(above, x);
    hide CountAtMost, CountAtLeast, SortedTimes;
    CountsConcat(low, high, x);
    CountsConcat(below, above, x);
    AllCounted(low, x);
    AllCounted(above, x);
  }

  /** Of the samples held exactly those not older than the time are listed, in their order. */
  lemma {:induction false} SinceMeaning(a: seq<Sample>, x: Sample, b: seq<Sample>, t: int)
    ensures NotBefore(a + [x] + b, t) == NotBefore(a, t) + (if t <= x.at then [x] else []) + NotBefore(b, t)
  {
    var s := a + [x] + b;
    if b == [] {
      assert s[..|s| - 1] == a;
    } else {
      SinceMeaning(a, x, b[..|b| - 1], t);
      assert s[..|s| - 1] == a + [x] + b[..|b| - 1];
    }
  }
}
