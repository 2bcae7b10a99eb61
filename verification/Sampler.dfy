/** The resource sampler: nearest-rank percentiles, and CPU use accounted from a cumulative
    counter. Arithmetic is exact. */
module Sampler {
  import opened Options

  // ---- Nearest-rank percentile ----

  function Insert(x: real, s: seq<real>): seq<real> {
    if s == [] || x <= s[0] then [x] + s else [s[0]] + Insert(x, s[1..])
  }

  function Sorted(s: seq<real>): seq<real> {
    if s == [] then [] else Insert(s[0], Sorted(s[1..]))
  }

  predicate Ascending(s: seq<real>) {
    forall i, j :: 0 <= i < j < |s| ==> s[i] <= s[j]
  }

  function Ceil(x: real): int {
    -((-x).Floor)
  }

  /** `pct` percent of `n`. */
  function Share(n: nat, pct: real): real {
    pct / 100.0 * n as real
  }

  function Rank(n: nat, pct: real): int {
    var k := Ceil(Share(n, pct));
    if k > 1 then k else 1
  }

  /** `percentile`: 0 for an empty list; None where the index is out of range. */
  function Percentile(values: seq<real>, pct: real): Option<real> {
    if values == [] then Some(0.0)
    else
      var ordered := Sorted(values);
      var rank := Rank(|values|, pct);
      if rank <= |ordered| then Some(ordered[rank - 1]) else None
  }

  function AtMost(s: seq<real>, x: real): nat {
    if s == [] then 0 else (if s[0] <= x then 1 else 0) + AtMost(s[1..], x)
  }

  lemma {:induction false} InsertKeeps(x: real, s: seq<real>)
    ensures multiset(Insert(x, s)) == multiset(s) + multiset{x}
  {
    if s != [] && x > s[0] {
      InsertKeeps(x, s[1..]);
      assert s == [s[0]] + s[1..];
    }
  }

  lemma {:induction false} InsertCounts(x: real, s: seq<real>, y: real)
    ensures AtMost(Insert(x, s), y) == (if x <= y then 1 else 0) + AtMost(s, y)
  {
    if s == [] || x <= s[0] {
      assert ([x] + s)[1..] == s;
    } else {
      InsertCounts(x, s[1..], y);
      assert ([s[0]] + Insert(x, s[1..]))[1..] == Insert(x, s[1..]);
    }
  }

  lemma {:induction false} InsertSorts(x: real, s: seq<real>)
    requires Ascending(s)
    ensures Ascending(Insert(x, s))
  {
    if s == [] || x <= s[0] {
      AscendingCons(x, s);
    } else {
      var t := Insert(x, s[1..]);
      InsertSorts(x, s[1..]);
      InsertKeeps(x, s[1..]);
      forall k | 0 <= k < |t| ensures s[0] <= t[k] {
        InsertedOrOld(x, s[1..], t[k]);
      }
      AscendingCons(s[0], t);
    }
  }

  lemma AscendingCons(x: real, s: seq<real>)
    requires Ascending(s) && forall k :: 0 <= k < |s| ==> x <= s[k]
    ensures Ascending([x] + s)
  {
  }

  lemma InsertedOrOld(x: real, s: seq<real>, y: real)
    requires y in Insert(x, s)
    ensures y == x || y in s
  {
    InsertKeeps(x, s);
    assert y in multiset(Insert(x, s));
  }

  lemma {:induction false} SortedIsSorted(s: seq<real>)
    ensures Ascending(Sorted(s)) && multiset(Sorted(s)) == multiset(s) && |Sorted(s)| == |s|
    ensures forall y :: AtMost(Sorted(s), y) == AtMost(s, y)
  {
    if s != [] {
      var t := Sorted(s[1..]);
      SortedIsSorted(s[1..]);
      InsertSorts(s[0], t);
      InsertKeeps(s[0], t);
      assert s == [s[0]] + s[1..];
      forall y ensures AtMost(Sorted(s), y) == AtMost(s, y) {
        InsertCounts(s[0], t, y);
      }
      assert |multiset(Sorted(s))| == |multiset(s)|;
    }
  }

  /** In an ascending list the first `r` values are at most x, or the rest are above it. */
  lemma {:induction false} CountBounds(s: seq<real>, x: real, r: nat)
    requires r <= |s|
    ensures (forall i :: 0 <= i < r ==> s[i] <= x) ==> AtMost(s, x) >= r
    ensures (forall i :: r <= i < |s| ==> s[i] > x) ==> AtMost(s, x) <= r
  {
    if s != [] {
      var rest := s[1..];
      CountBounds(rest, x, if r > 0 then r - 1 else 0);
      assert forall i :: 0 <= i < |rest| ==> rest[i] == s[i + 1];
    }
  }

  lemma ShareBounds(n: nat, pct: real)
    requires n > 0
    ensures pct > 0.0 <==> Share(n, pct) > 0.0
    ensures pct <= 100.0 <==> Share(n, pct) <= n as real
  {
    var p, m := pct / 100.0, n as real;
    if p > 0.0 { assert p * m > 0.0; } else { assert -p * m >= 0.0; }
    if p <= 1.0 { assert (1.0 - p) * m >= 0.0; } else { assert (p - 1.0) * m > 0.0; }
  }

  lemma RankBounds(n: nat, pct: real)
    requires n > 0
    ensures pct > 0.0 ==> (Rank(n, pct) - 1) as real < Share(n, pct) <= Rank(n, pct) as real
    ensures Rank(n, pct) <= n <==> pct <= 100.0
  {
    ShareBounds(n, pct);
    CeilBounds(Share(n, pct), n);
  }

  lemma CeilBounds(x: real, n: nat)
    ensures (Ceil(x) - 1) as real < x <= Ceil(x) as real
    ensures Ceil(x) <= n <==> x <= n as real
  {
  }

  /** The percentile of an empty list is 0; of any other it is defined exactly up to 100 percent. */
  lemma PercentileInRange(values: seq<real>, pct: real)
    ensures values == [] ==> Percentile(values, pct) == Some(0.0)
    ensures values != [] ==> (Percentile(values, pct).Some? <==> pct <= 100.0)
  {
    SortedIsSorted(values);
    if values != [] { RankBounds(|values|, pct); }
  }

  /** It is the smallest value of the list such that at least `pct` percent of the values are
      no larger; from 0 percent down it is the smallest of all. */
  lemma PercentileIsNearestRank(values: seq<real>, pct: real)
    requires values != [] && pct <= 100.0
    ensures var p := Percentile(values, pct);
            && p.Some? && p.value in values
            && (pct > 0.0 ==>
                  && AtMost(values, p.value) as real >= pct / 100.0 * |values| as real
                  && forall w :: w in values && w < p.value ==>
                       AtMost(values, w) as real < pct / 100.0 * |values| as real)
            && (pct <= 0.0 ==> forall w :: w in values ==> p.value <= w)
  {
    var r := Rank(|values|, pct);
    RankBounds(|values|, pct);
    if pct > 0.0 {
      RankedValue(values, r, Share(|values|, pct));
    } else {
      ShareBounds(|values|, pct);
      assert r == 1;
      RankedValue(values, 1, 1.0);
      SmallestFirst(values);
    }
  }

  lemma SmallestFirst(values: seq<real>)
    requires values != []
    ensures |Sorted(values)| == |values| && forall w :: w in values ==> Sorted(values)[0] <= w
  {
    SortedIsSorted(values);
    forall w | w in values ensures Sorted(values)[0] <= w {
      assert w in multiset(Sorted(values));
    }
  }

  lemma RankedValue(values: seq<real>, r: int, share: real)
    requires 1 <= r <= |values| && (r - 1) as real < share <= r as real
    ensures |Sorted(values)| == |values|
    ensures var v := Sorted(values)[r - 1];
            && v in values && AtMost(values, v) as real >= share
            && forall w :: w in values && w < v ==> AtMost(values, w) as real < share
  {
    var s := Sorted(values);
    SortedIsSorted(values);
    RankInAscending(s, r);
    assert s[r - 1] in multiset(s);
  }

  lemma RankInAscending(s: seq<real>, r: int)
    requires Ascending(s) && 1 <= r <= |s|
    ensures AtMost(s, s[r - 1]) >= r
    ensures forall w :: w < s[r - 1] ==> AtMost(s, w) <= r - 1
  {
    CountBounds(s, s[r - 1], r);
    forall w | w < s[r - 1] ensures AtMost(s, w) <= r - 1 {
      CountBounds(s, w, r - 1);
    }
  }

  lemma HeadsAgree(a: seq<real>, b: seq<real>)
    requires Ascending(a) && Ascending(b) && multiset(a) == multiset(b) && a != [] && b != []
    ensures a[0] == b[0]
  {
    assert a[0] in multiset(b) && b[0] in multiset(a);
  }

  lemma {:induction false} SortIsUnique(a: seq<real>, b: seq<real>)
    requires Ascending(a) && Ascending(b) && multiset(a) == multiset(b)
    ensures a == b
  {
    assert |a| == |multiset(a)| == |multiset(b)| == |b|;
    if a != [] {
      HeadsAgree(a, b);
      assert a == [a[0]] + a[1..] && b == [b[0]] + b[1..];
      assert multiset(a[1..]) == multiset(a) - multiset{a[0]} == multiset(b) - multiset{b[0]} == multiset(b[1..]);
      SortIsUnique(a[1..], b[1..]);
    }
  }

  /** The order of the list does not matter. */
  lemma PercentileIgnoresOrder(a: seq<real>, b: seq<real>, pct: real)
    requires multiset(a) == multiset(b)
    ensures Percentile(a, pct) == Percentile(b, pct)
  {
    SortedIsSorted(a);
    SortedIsSorted(b);
    SortIsUnique(Sorted(a), Sorted(b));
    assert |a| == |multiset(a)| == |b|;
  }

  /** A higher percentile is never a lower value. */
  lemma PercentileIsMonotone(values: seq<real>, p: real, q: real)
    requires values != [] && p <= q <= 100.0
    ensures Percentile(values, p).Some? && Percentile(values, q).Some?
    ensures Percentile(values, p).value <= Percentile(values, q).value
  {
    SortedIsSorted(values);
    PercentileInRange(values, p);
    PercentileInRange(values, q);
    ShareGrows(|values|, p, q);
  }

  lemma ShareGrows(n: nat, p: real, q: real)
    requires p <= q
    ensures Share(n, p) <= Share(n, q) && Rank(n, p) <= Rank(n, q)
  {
    assert (q / 100.0 - p / 100.0) * n as real >= 0.0;
  }

  // ---- CPU accounting ----

  /** One reading of the cgroup: the time, the cumulative usage in microseconds, and the memory
      in use if the file could be read. */
  datatype Reading = Reading(now: real, usage: int, mem: Option<nat>)
  datatype Mark = Mark(at: real, usage: int)
  datatype Sample = Sample(cpuPercent: real, memBytes: nat, mark: Mark)

  /** `sample_once`. */
  function SampleOnce(prev: Mark, r: Reading): Sample {
    var elapsed := r.now - prev.at;
    var percent := if elapsed > 0.0 then (r.usage - prev.usage) as real / 1000000.0 / elapsed * 100.0 else 0.0;
    Sample(percent, if r.mem.Some? then r.mem.value else 0, Mark(r.now, r.usage))
  }

  function SamplesOf(base: Mark, readings: seq<Reading>): seq<Sample> {
    if readings == [] then []
    else
      var front := readings[..|readings| - 1];
      SamplesOf(base, front) + [SampleOnce(LastMark(base, SamplesOf(base, front)), readings[|readings| - 1])]
  }

  function LastMark(base: Mark, samples: seq<Sample>): Mark {
    if samples == [] then base else samples[|samples| - 1].mark
  }

  /** How many attempts at a reading succeed before the first that fails. */
  function FirstFailure(attempts: seq<Option<Reading>>): (n: nat)
    ensures n <= |attempts| && (forall i :: 0 <= i < n ==> attempts[i].Some?) && (n < |attempts| ==> attempts[n].None?)
  {
    if attempts == [] || attempts[0].None? then 0 else 1 + FirstFailure(attempts[1..])
  }

  function FirstReadings(attempts: seq<Option<Reading>>, n: nat): seq<Reading>
    requires n <= |attempts| && forall i :: 0 <= i < n ==> attempts[i].Some?
  {
    seq(n, i requires 0 <= i < n => attempts[i].value)
  }

  /** The sampling loop up to the signal, or the duration, that ends it; a reading that fails
      ends the program. */
  method SampleUntilStopped(base: Mark, attempts: seq<Option<Reading>>) returns (ok: bool, samples: seq<Sample>)
    ensures ok <==> forall i :: 0 <= i < |attempts| ==> attempts[i].Some?
    ensures samples == SamplesOf(base, FirstReadings(attempts, FirstFailure(attempts)))
    ensures |samples| == FirstFailure(attempts)
  {
    samples := [];
    var prev := base;
    for i := 0 to |attempts|
      invariant forall j :: 0 <= j < i ==> attempts[j].Some?
      invariant |samples| == i
      invariant samples == SamplesOf(base, FirstReadings(attempts, i)) && prev == LastMark(base, samples)
    {
      if attempts[i].None? { return false, samples; }
      var sample := SampleOnce(prev, attempts[i].value);
      SamplesNext(base, FirstReadings(attempts, i), attempts[i].value);
      assert FirstReadings(attempts, i + 1) == FirstReadings(attempts, i) + [attempts[i].value];
      prev := sample.mark;
      samples := samples + [sample];
    }
    ok := true;
  }

  lemma SamplesNext(base: Mark, readings: seq<Reading>, r: Reading)
    ensures SamplesOf(base, readings + [r]) ==
            SamplesOf(base, readings) + [SampleOnce(LastMark(base, SamplesOf(base, readings)), r)]
  {
    assert (readings + [r])[..|readings|] == readings;
  }

  /** CPU percent times the time since the previous reading. */
  function Work(prev: Mark, x: Sample): real {
    x.cpuPercent * (x.mark.at - prev.at)
  }

  /** The usage since the previous reading if no time passed since. */
  function Stalled(prev: Mark, x: Sample): int {
    if x.mark.at > prev.at then 0 else x.mark.usage - prev.usage
  }

  /** CPU percent times elapsed time, summed over the samples. */
  function PercentSeconds(base: Mark, samples: seq<Sample>): real {
    if samples == [] then 0.0
    else
      var n := |samples| - 1;
      PercentSeconds(base, samples[..n]) + Work(LastMark(base, samples[..n]), samples[n])
  }

  /** The usage that accrued between readings with no time between them. */
  function Dropped(base: Mark, samples: seq<Sample>): int {
    if samples == [] then 0
    else
      var n := |samples| - 1;
      Dropped(base, samples[..n]) + Stalled(LastMark(base, samples[..n]), samples[n])
  }

  lemma PercentTimesElapsed(prev: Mark, r: Reading)
    ensures Work(prev, SampleOnce(prev, r)) ==
            (r.usage - prev.usage - Stalled(prev, SampleOnce(prev, r))) as real / 10000.0
  {
    var e := r.now - prev.at;
    if e > 0.0 {
      var d := (r.usage - prev.usage) as real / 1000000.0;
      assert d / e * e == d;
      assert d / e * 100.0 * e == d * 100.0;
    }
  }

  /** The reading before number `i`. */
  function ReadingBefore(base: Mark, readings: seq<Reading>, i: nat): Mark
    requires i < |readings|
  {
    if i == 0 then base else Mark(readings[i - 1].now, readings[i - 1].usage)
  }

  /** A sample shows its reading: the memory in use, 0 if unknown, and a percentage which over the
      time since the previous reading makes up the CPU time used since. */
  ghost predicate Shows(s: Sample, prev: Mark, r: Reading) {
    && s.mark == Mark(r.now, r.usage)
    && s.memBytes == (match r.mem case Some(bytes) => bytes case None => 0)
    && if r.now > prev.at then s.cpuPercent * (r.now - prev.at) == (r.usage - prev.usage) as real / 10000.0
       else s.cpuPercent == 0.0
  }

  /** Every sample is that of its reading, against the reading before. */
  lemma {:induction false} SamplesShowReadings(base: Mark, readings: seq<Reading>, i: nat)
    requires i < |readings|
    ensures |SamplesOf(base, readings)| == |readings|
    ensures Shows(SamplesOf(base, readings)[i], ReadingBefore(base, readings, i), readings[i])
  {
    SamplesOfReadings(base, readings, i);
    SampleShows(ReadingBefore(base, readings, i), readings[i]);
  }

  lemma {:induction false} SamplesOfReadings(base: Mark, readings: seq<Reading>, i: nat)
    requires i < |readings|
    ensures |SamplesOf(base, readings)| == |readings|
    ensures SamplesOf(base, readings)[i] == SampleOnce(ReadingBefore(base, readings, i), readings[i])
  {
    var n := |readings| - 1;
    var front := readings[..n];
    if n == 0 {
      assert front == [];
    } else {
      SamplesOfReadings(base, front, if i < n then i else n - 1);
      assert LastMark(base, SamplesOf(base, front)) == ReadingBefore(base, readings, n) by {
        SamplesOfReadings(base, front, n - 1);
      }
    }
  }

  lemma SampleShows(prev: Mark, r: Reading)
    ensures Shows(SampleOnce(prev, r), prev, r)
  {
    PercentTimesElapsed(prev, r);
  }

  lemma AccountGrows(base: Mark, samples: seq<Sample>, x: Sample)
    ensures var prev := LastMark(base, samples);
            && PercentSeconds(base, samples + [x]) == PercentSeconds(base, samples) + Work(prev, x)
            && Dropped(base, samples + [x]) == Dropped(base, samples) + Stalled(prev, x)
            && LastMark(base, samples + [x]) == x.mark
  {
    assert (samples + [x])[..|samples|] == samples;
  }

  /** Conservation: the percentages account for 100 times the CPU seconds used since the
      baseline, less what accrued while the clock did not move. */
  lemma {:induction false} CpuIsConserved(base: Mark, readings: seq<Reading>)
    ensures var samples := SamplesOf(base, readings);
            PercentSeconds(base, samples) ==
            (LastMark(base, samples).usage - base.usage - Dropped(base, samples)) as real / 10000.0
  {
    if readings != [] {
      var n := |readings| - 1;
      var front := SamplesOf(base, readings[..n]);
      var prev := LastMark(base, front);
      CpuIsConserved(base, readings[..n]);
      PercentTimesElapsed(prev, readings[n]);
      AccountGrows(base, front, SampleOnce(prev, readings[n]));
    }
  }

  /** The reading before sample `i`. */
  function MarkBefore(base: Mark, samples: seq<Sample>, i: int): Mark
    requires 0 <= i < |samples|
  {
    if i == 0 then base else samples[i - 1].mark
  }

  /** The usage counter never falls. */
  ghost predicate Cumulative(base: Mark, samples: seq<Sample>) {
    forall i :: 0 <= i < |samples| ==> MarkBefore(base, samples, i).usage <= samples[i].mark.usage
  }

  /** CPU was used between readings that show no time between them. */
  predicate UsedInNoTime(base: Mark, samples: seq<Sample>, i: int)
    requires 0 <= i < |samples|
  {
    samples[i].mark.at <= MarkBefore(base, samples, i).at && samples[i].mark.usage > MarkBefore(base, samples, i).usage
  }

  lemma {:induction false} DroppedIsUsedInNoTime(base: Mark, samples: seq<Sample>)
    requires Cumulative(base, samples)
    ensures Dropped(base, samples) >= 0
    ensures Dropped(base, samples) == 0 <==> forall i :: 0 <= i < |samples| ==> !UsedInNoTime(base, samples, i)
  {
    if samples != [] {
      var n := |samples| - 1;
      var front := samples[..n];
      forall i | 0 <= i < n
        ensures MarkBefore(base, front, i) == MarkBefore(base, samples, i) && front[i] == samples[i]
        ensures UsedInNoTime(base, front, i) == UsedInNoTime(base, samples, i)
      {
      }
      DroppedIsUsedInNoTime(base, front);
      assert LastMark(base, front) == MarkBefore(base, samples, n);
      assert Stalled(LastMark(base, front), samples[n]) > 0 <==> UsedInNoTime(base, samples, n);
    }
  }

  /** The account is exact exactly if no CPU was used while the clock stood still or ran back. */
  lemma CpuAccountIsExact(base: Mark, readings: seq<Reading>)
    requires Cumulative(base, SamplesOf(base, readings))
    ensures var samples := SamplesOf(base, readings);
            PercentSeconds(base, samples) == (LastMark(base, samples).usage - base.usage) as real / 10000.0
            <==> forall i :: 0 <= i < |samples| ==> !UsedInNoTime(base, samples, i)
  {
    CpuIsConserved(base, readings);
    DroppedIsUsedInNoTime(base, SamplesOf(base, readings));
  }

  predicate Inside(s: Sample, since: Option<real>, until: Option<real>) {
    (since.None? || s.mark.at >= since.value) && (until.None? || s.mark.at <= until.value)
  }

  function Points(samples: seq<Sample>, since: Option<real>, until: Option<real>): seq<Sample> {
    if samples == [] then []
    else (if Inside(samples[0], since, until) then [samples[0]] else []) + Points(samples[1..], since, until)
  }

  function Seconds(usec: int): real {
    usec as real / 1000000.0
  }

  lemma SecondsAreMillionMicroseconds(usec: int)
    ensures Seconds(usec) * 1000000.0 == usec as real
  {
  }

  function SecondsOver(pts: seq<Sample>): Option<(real, real)> {
    if |pts| < 2 then None
    else
      var first, last := pts[0].mark, pts[|pts| - 1].mark;
      Some((Seconds(last.usage - first.usage), last.at - first.at))
  }

  /** `cpu_seconds_between`: CPU seconds, and the length of the window they were used in. */
  function CpuSecondsBetween(samples: seq<Sample>, since: Option<real>, until: Option<real>): Option<(real, real)> {
    SecondsOver(Points(samples, since, until))
  }

  /** `f` and `l` are the first and the last sample inside the window. */
  predicate Frames(samples: seq<Sample>, f: int, l: int, since: Option<real>, until: Option<real>) {
    && 0 <= f <= l < |samples|
    && forall i :: 0 <= i < |samples| ==> (Inside(samples[i], since, until) <==> f <= i <= l)
  }

  /** A window takes in both its ends. */
  lemma WindowIsInclusive(s: Sample, since: Option<real>, until: Option<real>)
    ensures Inside(s, since, until) <==>
            !(since.Some? && s.mark.at < since.value) && !(until.Some? && s.mark.at > until.value)
  {
  }

  lemma {:induction false} PointsAreASlice(samples: seq<Sample>, f: int, l: int, since: Option<real>,
                                         until: Option<real>)
    requires 0 <= f <= l + 1 <= |samples|
    requires forall i :: 0 <= i < |samples| ==> (Inside(samples[i], since, until) <==> f <= i <= l)
    ensures Points(samples, since, until) == samples[f..l + 1]
  {
    if samples != [] {
      var rest := samples[1..];
      var g, m := if f > 0 then f - 1 else 0, if l >= 0 then l - 1 else -1;
      PointsAreASlice(rest, g, m, since, until);
      assert Inside(samples[0], since, until) <==> f == 0 && l >= 0;
      SliceOfRest(samples, f, l);
    }
  }

  lemma SliceOfRest(samples: seq<Sample>, f: int, l: int)
    requires 0 <= f <= l + 1 <= |samples| && samples != []
    ensures samples[f..l + 1] ==
            if l < 0 then [] else if f > 0 then samples[1..][f - 1..l] else [samples[0]] + samples[1..][..l]
  {
    var rest := samples[1..];
    if l >= 0 && f == 0 {
      assert samples[..l + 1] == [samples[0]] + rest[..l];
    } else if f > 0 {
      assert samples[f..l + 1] == rest[f - 1..l];
    }
  }

  /** CPU seconds used from each sample to the next, from `f` to `l`. */
  function Deltas(samples: seq<Sample>, f: nat, l: nat): int
    requires f <= l < |samples|
  {
    if f == l then 0 else Deltas(samples, f, l - 1) + (samples[l].mark.usage - samples[l - 1].mark.usage)
  }

  lemma {:induction false} DeltasTelescope(samples: seq<Sample>, f: nat, l: nat)
    requires f <= l < |samples|
    ensures Deltas(samples, f, l) == samples[l].mark.usage - samples[f].mark.usage
  {
    if f < l { DeltasTelescope(samples, f, l - 1); }
  }

  /** A window reports the sum of the adjacent deltas inside it. */
  lemma WindowSumsDeltas(samples: seq<Sample>, f: nat, l: nat, since: Option<real>, until: Option<real>)
    requires Frames(samples, f, l, since, until)
    ensures CpuSecondsBetween(samples, since, until) ==
            if f == l then None
            else Some((Seconds(Deltas(samples, f, l)), samples[l].mark.at - samples[f].mark.at))
  {
    PointsAreASlice(samples, f, l, since, until);
    SliceSeconds(samples, f, l);
    DeltasTelescope(samples, f, l);
  }

  /** A window no sample falls into reports nothing. */
  lemma EmptyWindow(samples: seq<Sample>, since: Option<real>, until: Option<real>)
    requires forall i :: 0 <= i < |samples| ==>
      (since.Some? && samples[i].mark.at < since.value) || (until.Some? && samples[i].mark.at > until.value)
    ensures CpuSecondsBetween(samples, since, until) == None
  {
    PointsAreASlice(samples, 0, -1, since, until);
  }

  lemma SliceSeconds(samples: seq<Sample>, f: nat, l: nat)
    requires f <= l < |samples|
    ensures SecondsOver(samples[f..l + 1]) ==
            if f == l then None
            else Some((Seconds(samples[l].mark.usage - samples[f].mark.usage), samples[l].mark.at - samples[f].mark.at))
  {
    var pts := samples[f..l + 1];
    assert |pts| == l - f + 1 && pts[0] == samples[f] && pts[|pts| - 1] == samples[l];
  }

  /** Windows that share an end sample add up. */
  lemma WindowsAddUp(samples: seq<Sample>, f: nat, m: nat, l: nat, since: Option<real>, until: Option<real>)
    requires f < m < l && Frames(samples, f, l, since, until)
    requires forall i, j :: 0 <= i < j < |samples| ==> samples[i].mark.at < samples[j].mark.at
    ensures var at := Some(samples[m].mark.at);
            var a, b, whole := CpuSecondsBetween(samples, since, at), CpuSecondsBetween(samples, at, until),
                               CpuSecondsBetween(samples, since, until);
            && a.Some? && b.Some? && whole.Some?
            && a.value.0 + b.value.0 == whole.value.0 && a.value.1 + b.value.1 == whole.value.1
  {
    var at := Some(samples[m].mark.at);
    assert Inside(samples[m], since, until) && Inside(samples[f], since, until) && Inside(samples[l], since, until);
    assert Frames(samples, f, m, since, at);
    assert Frames(samples, m, l, at, until);
    WindowSumsDeltas(samples, f, m, since, at);
    WindowSumsDeltas(samples, m, l, at, until);
    WindowSumsDeltas(samples, f, l, since, until);
    DeltasTelescope(samples, f, m);
    DeltasTelescope(samples, m, l);
    DeltasTelescope(samples, f, l);
  }
}
