/** Step timing: summaries of samples, and a bounded ring of recent samples per step that answers as
    if the whole history had been kept. */
module Timing {
  import opened Bytes
  import opened Division
  import opened Sorting

  datatype Reading = Reading(ms: u64, bytes: u64)

  datatype StepStats =
    StepStats(count: nat, p50: u64, p95: u64, max: u64, total: u64, bytes: u64, bytesPerSec: u64)

  // ----- totals

  function Total<T>(f: T -> nat, s: seq<T>): nat {
    if s == [] then 0 else Total(f, s[..|s| - 1]) + f(s[|s| - 1])
  }

  lemma {:induction false} TotalAppend<T>(f: T -> nat, a: seq<T>, b: seq<T>)
    ensures Total(f, a + b) == Total(f, a) + Total(f, b)
  {
    if b == [] {
      assert a + b == a;
    } else {
      assert (a + b)[..|a + b| - 1] == a + b[..|b| - 1];
      TotalAppend(f, a, b[..|b| - 1]);
    }
  }

  lemma {:induction false} TotalPermutes<T>(f: T -> nat, a: seq<T>, b: seq<T>)
    requires multiset(a) == multiset(b)
    ensures Total(f, a) == Total(f, b)
  {
    hide Total;
    if a == [] {
      SameElements(a, b);
      assert b == a;
    } else {
      var before, after := Locate(a, b);
      TotalPermutes(f, a[1..], before + after);
      assert a == [a[0]] + a[1..];
      TotalAppend(f, [a[0]], a[1..]);
      TotalAppend(f, before + [a[0]], after);
      TotalAppend(f, before, [a[0]]);
      TotalAppend(f, before, after);
    }
  }

  function Ms(r: Reading): nat { r.ms }

  function Size(r: Reading): nat { r.bytes }

  function Same(n: nat): nat { n }

  /** 64-bit saturation. */
  function Saturate(n: nat): u64 { if n < TWO_64 then n else TWO_64 - 1 }

  // ----- percentiles

  const Leq: Order<nat> := (a: nat, b: nat) => a <= b

  lemma {:induction false} LeqOrder()
    ensures TotalPreorder(Leq)
  {
  }

  function Hundredths(w: nat): nat { (w + 99) / 100 }

  /** `pct` percent of `n`, rounded up, and at least one. */
  function Rank(n: nat, pct: nat): nat {
    var rank := Hundredths(pct * n);
    if rank == 0 then 1 else rank
  }

  lemma {:induction false} HundredthsRoundUp(w: nat, n: nat)
    requires w <= 100 * n
    ensures w <= Hundredths(w) * 100 < w + 100 && Hundredths(w) <= n
  {
  }

  lemma {:induction false} Percent(n: nat, pct: nat)
    requires pct <= 100
    ensures pct * n <= 100 * n && (pct >= 1 ==> pct * n >= n)
  {
  }

  lemma {:induction false} RankBounds(n: nat, pct: nat)
    requires n >= 1 && pct <= 100
    ensures 1 <= Rank(n, pct) <= n
    ensures pct >= 1 ==> Rank(n, pct) * 100 >= pct * n > (Rank(n, pct) - 1) * 100
  {
    hide Hundredths;
    Percent(n, pct);
    HundredthsRoundUp(pct * n, n);
  }

  /** The nearest-rank percentile of sorted input. */
  function NearestRank(sorted: seq<nat>, pct: nat): nat
    requires sorted != [] && pct <= 100
  {
    RankBounds(|sorted|, pct);
    sorted[Rank(|sorted|, pct) - 1]
  }

  function AtMost(x: nat): nat -> nat { (y: nat) => if y <= x then 1 else 0 }

  /** How many samples are at or below `x`. */
  function CountLeq(s: seq<nat>, x: nat): nat { Total(AtMost(x), s) }

  lemma {:induction false} CountAbove(s: seq<nat>, x: nat, m: nat)
    requires m <= |s| && forall i :: m <= i < |s| ==> s[i] > x
    ensures CountLeq(s, x) <= m
    decreases |s|
  {
    if s != [] {
      CountAbove(s[..|s| - 1], x, if m < |s| then m else m - 1);
    }
  }

  lemma {:induction false} CountBelow(s: seq<nat>, x: nat, m: nat)
    requires m <= |s| && forall i :: 0 <= i < m ==> s[i] <= x
    ensures CountLeq(s, x) >= m
    decreases |s|
  {
    if s != [] {
      CountBelow(s[..|s| - 1], x, if m < |s| then m else m - 1);
    }
  }

  /** A sample with at least `pct` percent of the samples at or below it, and nothing smaller has. */
  ghost predicate IsPercentile(s: seq<nat>, pct: nat, r: nat) {
    && r in s
    && CountLeq(s, r) * 100 >= pct * |s|
    && forall x: nat :: x < r ==> CountLeq(s, x) * 100 < pct * |s|
  }

  lemma {:induction false} SortedRank(s: seq<nat>, pct: nat)
    requires s != [] && 1 <= pct <= 100 && Sorted(s, Leq)
    ensures IsPercentile(s, pct, NearestRank(s, pct))
  {
    hide CountLeq, Rank;
    RankBounds(|s|, pct);
    var rank := Rank(|s|, pct);
    var r := s[rank - 1];
    forall i | 0 <= i < rank ensures s[i] <= r {
      assert i < rank - 1 ==> Leq(s[i], s[rank - 1]);
    }
    CountBelow(s, r, rank);
    forall x: nat | x < r ensures CountLeq(s, x) * 100 < pct * |s| {
      forall i | rank - 1 <= i < |s| ensures s[i] > x {
        assert i > rank - 1 ==> Leq(s[rank - 1], s[i]);
      }
      CountAbove(s, x, rank - 1);
    }
  }

  lemma {:induction false} PercentileExact(s: seq<nat>, pct: nat)
    requires s != [] && 1 <= pct <= 100
    ensures IsPercentile(s, pct, NearestRank(Sort(s, Leq), pct))
  {
    hide Sort, NearestRank;
    var sorted := Sort(s, Leq);
    LeqOrder();
    SortSorted(s, Leq);
    SameElements(s, sorted);
    SortedRank(sorted, pct);
    forall x: nat ensures CountLeq(s, x) == CountLeq(sorted, x) {
      TotalPermutes(AtMost(x), s, sorted);
    }
  }

  // ----- summaries

  function StatsOf(rs: seq<Reading>): StepStats {
    if rs == [] then StepStats(0, 0, 0, 0, 0, 0, 0) else
    var ms := MapSeq(Ms, rs);
    var sorted := Sort(ms, Leq);
    var total, bytes := Saturate(Total(Same, ms)), Saturate(Total(Same, MapSeq(Size, rs)));
    StepStats(|rs|, Saturate(NearestRank(sorted, 50)), Saturate(NearestRank(sorted, 95)),
      Saturate(sorted[|sorted| - 1]),
              total, bytes, Saturate(bytes * 1000) / (if total == 0 then 1 else total))
  }

  lemma {:induction false} MsAreWide(rs: seq<Reading>, x: nat)
    requires x in MapSeq(Ms, rs)
    ensures Saturate(x) == x
  {
    var i :| 0 <= i < |rs| && MapSeq(Ms, rs)[i] == x;
  }

  /** `Total(Same, _)` is the sum. */
  lemma {:induction false} SumLaws(x: nat, a: seq<nat>, b: seq<nat>)
    ensures Total(Same, []) == 0 && Total(Same, [x]) == x
    ensures Total(Same, a + b) == Total(Same, a) + Total(Same, b)
  {
    assert [x][..0] == [];
    TotalAppend(Same, a, b);
  }

  function Min(a: nat, b: nat): nat { if a <= b then a else b }

  /** What a summary says about its samples, whatever their order. */
  lemma {:induction false} StatsMeaning(rs: seq<Reading>)
    requires rs != []
    ensures var s, ms, sizes := StatsOf(rs), MapSeq(Ms, rs), MapSeq(Size, rs);
            && s.count == |rs| == |ms| == |sizes|
            && (forall i :: 0 <= i < |rs| ==> ms[i] == rs[i].ms && sizes[i] == rs[i].bytes)
            && IsPercentile(ms, 50, s.p50) && IsPercentile(ms, 95, s.p95)
            && s.max in ms && (forall x :: x in ms ==> x <= s.max)
            && s.total == Min(Total(Same, ms), TWO_64 - 1) && s.bytes == Min(Total(Same, sizes), TWO_64 - 1)
  {
    hide IsPercentile, Total, MapSeq, Sort, NearestRank;
    var ms := MapSeq(Ms, rs);
    var sorted := Sort(ms, Leq);
    PercentileExact(ms, 50);
    PercentileExact(ms, 95);
    LeqOrder();
    SortSorted(ms, Leq);
    SameElements(ms, sorted);
    var last := sorted[|sorted| - 1];
    assert last in ms && NearestRank(sorted, 50) in ms && NearestRank(sorted, 95) in ms by {
      RankIn(sorted, 50);
      RankIn(sorted, 95);
    }
    MsAreWide(rs, last);
    MsAreWide(rs, NearestRank(sorted, 50));
    MsAreWide(rs, NearestRank(sorted, 95));
    forall x | x in ms ensures x <= last {
      var i :| 0 <= i < |sorted| && sorted[i] == x;
      assert i < |sorted| - 1 ==> Leq(sorted[i], last);
    }
  }

  /** The rate is the greatest number of bytes per second that the total time, taken as at least one
      millisecond, does not exceed; the thousandfold byte count saturates first. */
  lemma {:induction false} RateExact(rs: seq<Reading>, rate: nat)
    requires rs != []
    ensures var s := StatsOf(rs);
            rate <= s.bytesPerSec <==>
            rate * (if s.total == 0 then 1 else s.total) <= Min(s.bytes * 1000, TWO_64 - 1)
  {
    hide Total, MapSeq, Sort, NearestRank;
    var s := StatsOf(rs);
    QuotientExact(Min(s.bytes * 1000, TWO_64 - 1), if s.total == 0 then 1 else s.total, rate);
  }

  lemma {:induction false} RankIn(sorted: seq<nat>, pct: nat)
    requires sorted != [] && pct <= 100
    ensures NearestRank(sorted, pct) in sorted
  {
  }

  lemma {:induction false} StatsPermute(a: seq<Reading>, b: seq<Reading>)
    requires multiset(a) == multiset(b)
    ensures StatsOf(a) == StatsOf(b)
  {
    hide Total, MapSeq, Sort, NearestRank;
    SameElements(a, b);
    MapPermutes(Ms, a, b);
    MapPermutes(Size, a, b);
    TotalPermutes(Same, MapSeq(Ms, a), MapSeq(Ms, b));
    TotalPermutes(Same, MapSeq(Size, a), MapSeq(Size, b));
    LeqOrder();
    SortCanonical(MapSeq(Ms, a), MapSeq(Ms, b), Leq);
  }

  lemma {:induction false} TotalStep(s: seq<nat>, i: nat)
    requires i < |s|
    ensures Saturate(Saturate(Total(Same, s[..i])) + s[i]) == Saturate(Total(Same, s[..i + 1]))
  {
    assert s[..i + 1][..i] == s[..i];
  }

  /** The loop that gathers, the sort, and the loop that adds up. */
  method Summarize(rs: seq<Reading>) returns (stats: StepStats)
    ensures stats == StatsOf(rs)
    ensures rs == [] ==> stats == StepStats(0, 0, 0, 0, 0, 0, 0)
  {
    hide Total, MapSeq, Sort, NearestRank, Saturate;
    ghost var ms, sizes := MapSeq(Ms, rs), MapSeq(Size, rs);
    var durations: seq<nat>, bytes: u64, i := [], 0, 0;
    TotalNone();
    while i < |rs|
      invariant 0 <= i <= |rs|
      invariant durations == ms[..i] && bytes == Saturate(Total(Same, sizes[..i]))
    {
      TotalStep(sizes, i);
      durations := durations + [rs[i].ms];
      bytes := Saturate(bytes + rs[i].bytes);
      i := i + 1;
    }
    assert ms[..i] == ms && sizes[..i] == sizes;
    if durations == [] {
      return StepStats(0, 0, 0, 0, 0, 0, 0);
    }
    durations := Sort(durations, Leq);
    var total: u64 := 0;
    i := 0;
    while i < |durations|
      invariant 0 <= i <= |durations| && total == Saturate(Total(Same, durations[..i]))
    {
      TotalStep(durations, i);
      total := Saturate(total + durations[i]);
      i := i + 1;
    }
    assert durations[..i] == durations;
    TotalPermutes(Same, durations, ms);
    stats := StepStats(|durations|, Saturate(NearestRank(durations, 50)), Saturate(NearestRank(durations, 95)),
                       Saturate(durations[|durations| - 1]), total, bytes,
                       Saturate(bytes * 1000) / (if total == 0 then 1 else total));
  }

  lemma {:induction false} TotalNone()
    ensures Total(Same, []) == 0 && Saturate(0) == 0
  {
  }
}
