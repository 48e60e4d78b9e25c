/** The rolling window: at most `cap` samples per step, pruned by age when read, answering as if
    every sample ever recorded had been kept. */
module Rolling {
  import opened Bytes
  import opened Sorting
  import opened Timing
  import opened Selection

  /** Times are nanoseconds since some start. */
  datatype Sample = Sample(at: nat, reading: Reading)

  datatype WindowSummary = WindowSummary(windowSecs: nat, maxSamplesPerStep: nat, steps: map<string, StepStats>)

  function Millis(elapsed: nat): u64 { Saturate(elapsed / 1_000_000) }

  /** Within the window at time `now`; a sample from the future has age zero. */
  predicate Recent(s: Sample, now: nat, maxAge: nat) { (if now >= s.at then now - s.at else 0) <= maxAge }

  function ReadingOf(s: Sample): Reading { s.reading }

  function Readings(samples: seq<Sample>): seq<Reading> { MapSeq(ReadingOf, samples) }

  // ----- the reference: filter the newest samples of the full history

  function Newest(h: seq<Sample>, cap: nat): seq<Sample> { if |h| <= cap then h else h[|h| - cap..] }

  function Fresh(s: seq<Sample>, now: nat, maxAge: nat): seq<Sample> {
    if s == [] then []
    else (if Recent(s[0], now, maxAge) then [s[0]] else []) + Fresh(s[1..], now, maxAge)
  }

  function Window(h: seq<Sample>, cap: nat, now: nat, maxAge: nat): seq<Sample> { Fresh(Newest(h, cap), now, maxAge) }

  /** Whole milliseconds, rounded down, up to the 64-bit bound. */
  lemma {:induction false} MillisExact(elapsed: nat)
    ensures Millis(elapsed) * 1_000_000 <= elapsed
    ensures Millis(elapsed) < TWO_64 - 1 ==> elapsed < (Millis(elapsed) + 1) * 1_000_000
  {
    assert elapsed == elapsed / 1_000_000 * 1_000_000 + elapsed % 1_000_000;
  }

  /** Of the newest `cap` samples, exactly those at most `maxAge` old, in the order recorded. */
  lemma {:induction false} WindowHolds(h: seq<Sample>, cap: nat, now: nat, maxAge: nat)
    ensures Selects(h[if |h| <= cap then 0 else |h| - cap..], (s: Sample) => now <= s.at + maxAge, s => s,
                    Window(h, cap, now, maxAge))
  {
    var newest := Newest(h, cap);
    FreshHolds(newest, now, maxAge);
    assert newest == h[if |h| <= cap then 0 else |h| - cap..];
  }

  lemma {:induction false} FreshHolds(h: seq<Sample>, now: nat, maxAge: nat)
    ensures Selects(h, (s: Sample) => now <= s.at + maxAge, s => s, Fresh(h, now, maxAge))
  {
    if h != [] {
      FreshHolds(h[1..], now, maxAge);
      SelectsCons(h[1..], (s: Sample) => now <= s.at + maxAge, s => s, Fresh(h[1..], now, maxAge), h[0]);
      assert h == [h[0]] + h[1..];
    }
  }

  // ----- the ring

  function Push(ring: seq<Sample>, cap: nat, s: Sample): seq<Sample> {
    (if |ring| == cap && ring != [] then ring[1..] else ring) + [s]
  }

  /** The first sample from `i` on that is recent enough. */
  function FirstRecent(ring: seq<Sample>, i: nat, now: nat, maxAge: nat): (n: nat)
    requires i <= |ring|
    ensures i <= n <= |ring| && (n < |ring| ==> Recent(ring[n], now, maxAge))
    ensures forall j :: i <= j < n ==> !Recent(ring[j], now, maxAge)
    decreases |ring| - i
  {
    if i == |ring| || Recent(ring[i], now, maxAge) then i else FirstRecent(ring, i + 1, now, maxAge)
  }

  function Prune(ring: seq<Sample>, now: nat, maxAge: nat): seq<Sample> { ring[FirstRecent(ring, 0, now, maxAge)..] }

  /** The ring is the newest part of the history. */
  ghost predicate Follows(ring: seq<Sample>, h: seq<Sample>, cap: nat) {
    |ring| <= |h| && |ring| <= cap && ring == h[|h| - |ring|..]
  }

  /** Times of the history never decrease and none is after `clock`. */
  ghost predicate Timed(h: seq<Sample>, clock: nat) {
    && (forall i, j :: 0 <= i < j < |h| ==> h[i].at <= h[j].at)
    && (forall i :: 0 <= i < |h| ==> h[i].at <= clock)
  }

  /** Whatever the ring dropped is beyond the newest `cap` or too old. */
  ghost predicate DropsOnlyOld(ring: seq<Sample>, h: seq<Sample>, cap: nat, clock: nat, maxAge: nat) {
    forall i :: 0 <= i < |h| - |ring| ==> i < |h| - cap || !Recent(h[i], clock, maxAge)
  }

  lemma {:induction false} FreshAppend(a: seq<Sample>, b: seq<Sample>, now: nat, maxAge: nat)
    ensures Fresh(a + b, now, maxAge) == Fresh(a, now, maxAge) + Fresh(b, now, maxAge)
  {
    hide Recent;
    if a == [] {
      assert a + b == b;
    } else {
      assert (a + b)[0] == a[0] && (a + b)[1..] == a[1..] + b;
      FreshAppend(a[1..], b, now, maxAge);
      var head := if Recent(a[0], now, maxAge) then [a[0]] else [];
      assert head + (Fresh(a[1..], now, maxAge) + Fresh(b, now, maxAge))
          == head + Fresh(a[1..], now, maxAge) + Fresh(b, now, maxAge);
    }
  }

  lemma {:induction false} FreshNone(s: seq<Sample>, now: nat, maxAge: nat)
    requires forall i :: 0 <= i < |s| ==> !Recent(s[i], now, maxAge)
    ensures Fresh(s, now, maxAge) == []
  {
    if s != [] {
      FreshNone(s[1..], now, maxAge);
    }
  }

  lemma {:induction false} FreshAll(s: seq<Sample>, now: nat, maxAge: nat)
    requires forall i :: 0 <= i < |s| ==> Recent(s[i], now, maxAge)
    ensures Fresh(s, now, maxAge) == s
  {
    if s != [] {
      FreshAll(s[1..], now, maxAge);
    }
  }

  lemma {:induction false} StillRecent(a: Sample, b: Sample, now: nat, maxAge: nat)
    requires a.at <= b.at && Recent(a, now, maxAge)
    ensures Recent(b, now, maxAge)
  {
  }

  lemma {:induction false} StillOld(a: Sample, clock: nat, now: nat, maxAge: nat)
    requires clock <= now && !Recent(a, clock, maxAge)
    ensures !Recent(a, now, maxAge)
  {
  }

  lemma {:induction false} FreshIsRecent(s: seq<Sample>, now: nat, maxAge: nat)
    ensures forall i :: 0 <= i < |Fresh(s, now, maxAge)| ==> Recent(Fresh(s, now, maxAge)[i], now, maxAge)
  {
    hide Recent;
    if s != [] {
      FreshIsRecent(s[1..], now, maxAge);
    }
  }

  lemma {:induction false} FreshSome(s: seq<Sample>, now: nat, maxAge: nat)
    requires Fresh(s, now, maxAge) == []
    ensures forall i :: 0 <= i < |s| ==> !Recent(s[i], now, maxAge)
  {
    hide Recent;
    if s != [] {
      FreshSome(s[1..], now, maxAge);
      assert forall i :: 0 < i < |s| ==> s[i] == s[1..][i - 1];
    }
  }

  /** No recent sample stands before one that is too old. */
  ghost predicate OldFirst(ring: seq<Sample>, now: nat, maxAge: nat) {
    forall i, j :: 0 <= i < j < |ring| && Recent(ring[i], now, maxAge) ==> Recent(ring[j], now, maxAge)
  }

  ghost predicate AllRecent(s: seq<Sample>, now: nat, maxAge: nat) {
    forall i :: 0 <= i < |s| ==> Recent(s[i], now, maxAge)
  }

  lemma {:induction false} PrunedParts(ring: seq<Sample>, now: nat, maxAge: nat)
    ensures Fresh(ring, now, maxAge) == Fresh(Prune(ring, now, maxAge), now, maxAge)
    ensures OldFirst(ring, now, maxAge) <==> AllRecent(Prune(ring, now, maxAge), now, maxAge)
  {
    hide FirstRecent, Fresh, Recent;
    var kept, n := Prune(ring, now, maxAge), FirstRecent(ring, 0, now, maxAge);
    assert ring == ring[..n] + kept;
    FreshAppend(ring[..n], kept, now, maxAge);
    FreshNone(ring[..n], now, maxAge);
    if OldFirst(ring, now, maxAge) {
      forall i | 0 <= i < |kept| ensures Recent(kept[i], now, maxAge) {
        assert kept[i] == ring[n + i] && kept[0] == ring[n];
      }
    }
    if AllRecent(kept, now, maxAge) {
      forall i, j | 0 <= i < j < |ring| && Recent(ring[i], now, maxAge) ensures Recent(ring[j], now, maxAge) {
        assert ring[j] == kept[j - n];
      }
    }
  }

  /** Popping old samples off the front is filtering exactly when no recent sample hides an old one. */
  lemma {:induction false} PruneIsFresh(ring: seq<Sample>, now: nat, maxAge: nat)
    ensures Prune(ring, now, maxAge) == Fresh(ring, now, maxAge) <==> OldFirst(ring, now, maxAge)
  {
    hide Prune, Fresh, Recent, OldFirst;
    var kept := Prune(ring, now, maxAge);
    PrunedParts(ring, now, maxAge);
    FreshIsRecent(kept, now, maxAge);
    if AllRecent(kept, now, maxAge) {
      FreshAll(kept, now, maxAge);
    }
  }

  /** The ring still answers for its history at time `now`: what it dropped would not count, and what it
      holds is in order. */
  ghost predicate Answers(ring: seq<Sample>, h: seq<Sample>, cap: nat, maxAge: nat, now: nat) {
    DropsOnlyOld(ring, h, cap, now, maxAge) && OldFirst(ring, now, maxAge)
  }

  /** The samples of the newest `cap` that the ring no longer holds. */
  function Dropped(ring: seq<Sample>, h: seq<Sample>, cap: nat): (d: seq<Sample>)
    requires |ring| <= |h| && |ring| <= cap
  {
    h[if |h| <= cap then 0 else |h| - cap..|h| - |ring|]
  }

  lemma {:induction false} WindowParts(ring: seq<Sample>, h: seq<Sample>, cap: nat, now: nat, maxAge: nat)
    requires Follows(ring, h, cap)
    ensures Window(h, cap, now, maxAge) == Fresh(Dropped(ring, h, cap), now, maxAge) + Fresh(ring, now, maxAge)
    ensures Fresh(Dropped(ring, h, cap), now, maxAge) == [] <==> DropsOnlyOld(ring, h, cap, now, maxAge)
  {
    hide Fresh, Recent;
    var d, n := Dropped(ring, h, cap), if |h| <= cap then 0 else |h| - cap;
    assert Newest(h, cap) == d + ring;
    FreshAppend(d, ring, now, maxAge);
    assert forall i :: 0 <= i < |d| ==> d[i] == h[n + i];
    if Fresh(d, now, maxAge) == [] {
      FreshSome(d, now, maxAge);
      forall i | 0 <= i < |h| - |ring| && i >= |h| - cap ensures !Recent(h[i], now, maxAge) {
        assert h[i] == d[i - n];
      }
    }
    if DropsOnlyOld(ring, h, cap, now, maxAge) {
      FreshNone(d, now, maxAge);
    }
  }

  /** For every ring that holds the newest part of its history, whatever the clock did: the pruned ring
      is the window over the full history if and only if the ring still answers for it. */
  lemma {:induction false} WindowExact(ring: seq<Sample>, h: seq<Sample>, cap: nat, now: nat, maxAge: nat)
    requires Follows(ring, h, cap)
    ensures Prune(ring, now, maxAge) == Window(h, cap, now, maxAge) <==> Answers(ring, h, cap, maxAge, now)
  {
    hide Prune, Fresh, Recent, OldFirst, DropsOnlyOld, Dropped;
    var kept, d := Prune(ring, now, maxAge), Fresh(Dropped(ring, h, cap), now, maxAge);
    WindowParts(ring, h, cap, now, maxAge);
    PruneIsFresh(ring, now, maxAge);
    PrunedParts(ring, now, maxAge);
    if kept == Window(h, cap, now, maxAge) {
      FreshIsRecent(Newest(h, cap), now, maxAge);
      assert AllRecent(kept, now, maxAge);
      assert |d| == 0;
    }
  }

  /** A clock that never went back is enough. */
  lemma {:induction false} SteadyAnswers(ring: seq<Sample>, h: seq<Sample>, cap: nat, clock: nat, now: nat, maxAge: nat)
    requires Follows(ring, h, cap) && Timed(h, clock) && DropsOnlyOld(ring, h, cap, clock, maxAge) && clock <= now
    ensures Answers(ring, h, cap, maxAge, now)
  {
    hide Recent;
    forall i | 0 <= i < |h| - |ring| && i >= |h| - cap ensures !Recent(h[i], now, maxAge) {
      StillOld(h[i], clock, now, maxAge);
    }
    forall i, j | 0 <= i < j < |ring| && Recent(ring[i], now, maxAge) ensures Recent(ring[j], now, maxAge) {
      StillRecent(ring[i], ring[j], now, maxAge);
    }
  }

  /** Two ways a clock that goes back shows: a sample recorded late but dated early hides behind a recent
      one, and a sample pruned at a later time is missed at an earlier one. */
  lemma {:induction false} UnsteadyClockDiffers(r: Reading)
    ensures var a, b := Sample(10, r), Sample(0, r);
            var ring := Push(Push([], 2, a), 2, b);
            Prune(ring, 12, 5) == [a, b] && Window([a, b], 2, 12, 5) == [a]
    ensures var a := Sample(10, r);
            var ring := Prune(Push([], 2, a), 100, 5);
            Prune(ring, 12, 5) == [] && Window([a], 2, 12, 5) == [a]
  {
    var a, b := Sample(10, r), Sample(0, r);
    assert [a, b][1..] == [b] && [b][1..] == [] && [a][1..] == [];
    assert Push(Push([], 2, a), 2, b) == [a, b] && Push([], 2, a) == [a];
    assert FirstRecent([a, b], 0, 12, 5) == 0 && FirstRecent([a], 0, 100, 5) == 1 && [a][1..] == [];
    assert Fresh([b], 12, 5) == [] + Fresh([], 12, 5) && Fresh([a, b], 12, 5) == [a] + Fresh([b], 12, 5);
    assert Fresh([a], 12, 5) == [a] + Fresh([], 12, 5);
  }

  /** The ring answers for the history, provided the clock was steady so far. */
  ghost predicate Tracks(ring: seq<Sample>, h: seq<Sample>, cap: nat, maxAge: nat, clock: nat, steady: bool) {
    && Follows(ring, h, cap)
    && (steady ==> Timed(h, clock) && DropsOnlyOld(ring, h, cap, clock, maxAge))
  }

  lemma {:induction false} PruneTracks(ring: seq<Sample>, h: seq<Sample>, cap: nat, maxAge: nat, clock: nat,
      steady: bool, now: nat)
    requires Tracks(ring, h, cap, maxAge, clock, steady)
    ensures Tracks(Prune(ring, now, maxAge), h, cap, maxAge, now, steady && clock <= now)
    ensures steady && clock <= now ==> Answers(ring, h, cap, maxAge, now)
  {
    hide FirstRecent, Answers;
    var kept, k := Prune(ring, now, maxAge), |h| - |ring|;
    assert kept == h[|h| - |kept|..];
    if steady && clock <= now {
      forall i | 0 <= i < |h| - |kept| && i >= |h| - cap ensures !Recent(h[i], now, maxAge) {
        if i >= k {
          assert h[i] == ring[i - k];
        }
      }
      SteadyAnswers(ring, h, cap, clock, now, maxAge);
    }
  }

  lemma {:induction false} PushTracks(ring: seq<Sample>, h: seq<Sample>, cap: nat, maxAge: nat, clock: nat,
      steady: bool, s: Sample)
    requires Tracks(ring, h, cap, maxAge, clock, steady) && cap >= 1
    ensures Tracks(Push(ring, cap, s), h + [s], cap, maxAge, s.at, steady && clock <= s.at)
  {
    var pushed := Push(ring, cap, s);
    assert pushed == (h + [s])[|h| + 1 - |pushed|..];
  }

  lemma {:induction false} ClockTracks(ring: seq<Sample>, h: seq<Sample>, cap: nat, maxAge: nat, clock: nat,
      steady: bool, now: nat)
    requires Tracks(ring, h, cap, maxAge, clock, steady)
    ensures Tracks(ring, h, cap, maxAge, now, steady && clock <= now)
  {
  }

  // ----- the rings of all steps

  type Rings = map<string, seq<Sample>>

  function RingOf(rings: Rings, step: string): seq<Sample> { if step in rings then rings[step] else [] }

  lemma {:induction false} RecordTracks(
    before: Rings, was: Rings, cap: nat, maxAge: nat, clock: nat, steady: bool, step: string, s: Sample, other: string)
    requires cap >= 1 && Tracks(RingOf(before, other), RingOf(was, other), cap, maxAge, clock, steady)
    ensures var rings := before[step := Push(RingOf(before, step), cap, s)];
            var history := was[step := RingOf(was, step) + [s]];
            Tracks(RingOf(rings, other), RingOf(history, other), cap, maxAge, s.at, steady && clock <= s.at)
  {
    hide Tracks, Push;
    if other == step {
      PushTracks(RingOf(before, step), RingOf(was, step), cap, maxAge, clock, steady, s);
    } else {
      ClockTracks(RingOf(before, other), RingOf(was, other), cap, maxAge, clock, steady, s.at);
    }
  }

  /** Pops from the front while the front is too old. */
  method PopOld(ring: seq<Sample>, now: nat, maxAge: nat) returns (r: seq<Sample>)
    ensures r == Prune(ring, now, maxAge)
  {
    r := ring;
    ghost var k := 0;
    while r != [] && !Recent(r[0], now, maxAge)
      invariant k <= |ring| && r == ring[k..]
      invariant FirstRecent(ring, k, now, maxAge) == FirstRecent(ring, 0, now, maxAge)
      decreases |r|
    {
      r := r[1..];
      k := k + 1;
    }
  }

  ghost predicate AllTrack(rings: Rings, history: Rings, cap: nat, maxAge: nat, clock: nat, steady: bool) {
    forall step :: Tracks(RingOf(rings, step), RingOf(history, step), cap, maxAge, clock, steady)
  }

  ghost predicate AllFollow(rings: Rings, history: Rings, cap: nat) {
    forall step :: Follows(RingOf(rings, step), RingOf(history, step), cap)
  }

  /** The windows over a history, one per step. */
  ghost predicate AllWindows(rings: Rings, history: Rings, cap: nat, maxAge: nat, now: nat) {
    forall step :: RingOf(rings, step) == Window(RingOf(history, step), cap, now, maxAge)
  }

  ghost predicate AllAnswer(rings: Rings, history: Rings, cap: nat, maxAge: nat, now: nat) {
    forall step :: Answers(RingOf(rings, step), RingOf(history, step), cap, maxAge, now)
  }

  /** Every step that has samples is summarized, and no other. */
  ghost predicate Summarizes(stats: map<string, StepStats>, rings: Rings) {
    forall step ::
      if RingOf(rings, step) == [] then step !in stats
      else step in stats && stats[step] == StatsOf(Readings(RingOf(rings, step)))
  }

  lemma {:induction false} TracksFollow(rings: Rings, history: Rings, cap: nat, maxAge: nat, clock: nat, steady: bool)
    requires AllTrack(rings, history, cap, maxAge, clock, steady)
    ensures AllFollow(rings, history, cap)
  {
    hide Follows;
    assert forall step :: Tracks(RingOf(rings, step), RingOf(history, step), cap, maxAge, clock, steady);
  }

  ghost predicate AllPruned(before: Rings, pruned: Rings, now: nat, maxAge: nat) {
    forall step :: RingOf(pruned, step) == Prune(RingOf(before, step), now, maxAge)
  }

  /** The pruned rings are the windows over everything ever recorded if and only if every ring still
      answers; a steady clock sees to that. */
  lemma {:induction false} SummaryExact(
    before: Rings, pruned: Rings, history: Rings, cap: nat, maxAge: nat, clock: nat, steady: bool, now: nat)
    requires AllTrack(before, history, cap, maxAge, clock, steady) && AllPruned(before, pruned, now, maxAge)
    ensures AllTrack(pruned, history, cap, maxAge, now, steady && clock <= now)
    ensures AllFollow(before, history, cap)
    ensures AllWindows(pruned, history, cap, maxAge, now) <==> AllAnswer(before, history, cap, maxAge, now)
    ensures steady && clock <= now ==> AllAnswer(before, history, cap, maxAge, now)
  {
    hide Tracks, Window, Prune, Answers, RingOf, Follows;
    TracksFollow(before, history, cap, maxAge, clock, steady);
    forall step
      ensures Tracks(RingOf(pruned, step), RingOf(history, step), cap, maxAge, now, steady && clock <= now)
      ensures RingOf(pruned, step) == Window(RingOf(history, step), cap, now, maxAge)
         <==> Answers(RingOf(before, step), RingOf(history, step), cap, maxAge, now)
      ensures steady && clock <= now ==> Answers(RingOf(before, step), RingOf(history, step), cap, maxAge, now)
    {
      assert Follows(RingOf(before, step), RingOf(history, step), cap);
      assert RingOf(pruned, step) == Prune(RingOf(before, step), now, maxAge);
      PruneTracks(RingOf(before, step), RingOf(history, step), cap, maxAge, clock, steady, now);
      WindowExact(RingOf(before, step), RingOf(history, step), cap, now, maxAge);
    }
  }

  /** The ghost fields record what a caller did: every sample, the latest time passed in, and whether
      the times passed in never went back. */
  class RollingSteps {
    const cap: nat
    const maxAge: nat
    var steps: Rings
    ghost var history: Rings
    ghost var clock: nat
    ghost var steady: bool

    ghost predicate Valid()
      reads this
    {
      cap >= 1 && AllTrack(steps, history, cap, maxAge, clock, steady)
    }

    constructor (cap: nat, maxAge: nat)
      ensures Valid() && this.cap == (if cap == 0 then 1 else cap) && this.maxAge == maxAge
      ensures history == map[] && clock == 0 && steady
    {
      this.cap := if cap == 0 then 1 else cap;
      this.maxAge := maxAge;
      steps, history, clock, steady := map[], map[], 0, true;
    }

    method Record(step: string, elapsed: nat, bytes: u64, now: nat)
      requires Valid()
      modifies this
      ensures Valid()
      ensures var sample := Sample(now, Reading(Millis(elapsed), bytes));
              history == old(history)[step := RingOf(old(history), step) + [sample]]
      ensures clock == now && steady == (old(steady) && old(clock) <= now)
    {
      hide Tracks;
      var sample := Sample(now, Reading(Millis(elapsed), bytes));
      var ring := RingOf(steps, step);
      ghost var before, was := steps, history;
      if |ring| == cap {
        ring := ring[1..];
      }
      ring := ring + [sample];
      assert ring == Push(RingOf(before, step), cap, sample);
      steps := steps[step := ring];
      history := history[step := RingOf(history, step) + [sample]];
      steady := steady && clock <= now;
      clock := now;
      forall other ensures Tracks(RingOf(steps, other), RingOf(history, other), cap, maxAge, clock, steady) {
        RecordTracks(before, was, cap, maxAge, old(clock), old(steady), step, sample, other);
      }
    }

    /** Prunes every ring and forgets the empty ones. */
    method PruneAll(now: nat)
      modifies this`steps
      ensures AllPruned(old(steps), steps, now, maxAge)
      ensures forall step :: step in steps ==> steps[step] != []
    {
      hide Prune, Recent;
      ghost var before := steps;
      var todo := steps.Keys;
      while todo != {}
        invariant todo <= before.Keys && steps.Keys == before.Keys
        invariant forall step :: step in steps ==>
                    steps[step] == if step in todo then before[step] else Prune(before[step], now, maxAge)
        decreases |todo|
      {
        var step :| step in todo;
        var ring := PopOld(steps[step], now, maxAge);
        steps := steps[step := ring];
        todo := todo - {step};
      }
      steps := map step | step in steps && steps[step] != [] :: steps[step];
      PruneNothing(now, maxAge);
    }

    /** The summaries are those of the pruned rings. They are the windows over everything ever recorded,
        however earlier summaries pruned, if and only if every ring still answered for its history; on a
        clock that never went back every ring does. */
    method Summary(now: nat) returns (w: WindowSummary)
      requires Valid()
      modifies this
      ensures Valid() && history == old(history)
      ensures clock == now && steady == (old(steady) && old(clock) <= now)
      ensures w.windowSecs == maxAge / 1_000_000_000 && w.maxSamplesPerStep == cap
      ensures AllPruned(old(steps), steps, now, maxAge) && Summarizes(w.steps, steps)
      ensures AllFollow(old(steps), history, cap)
      ensures AllWindows(steps, history, cap, maxAge, now) <==> AllAnswer(old(steps), history, cap, maxAge, now)
      ensures steady ==> AllWindows(steps, history, cap, maxAge, now)
    {
      hide AllTrack, AllPruned, AllWindows, AllAnswer, StatsOf, Readings;
      ghost var before := steps;
      PruneAll(now);
      steady := steady && clock <= now;
      clock := now;
      var stats := AllStats();
      SummaryExact(before, steps, history, cap, maxAge, old(clock), old(steady), now);
      w := WindowSummary(maxAge / 1_000_000_000, cap, stats);
    }

    method AllStats() returns (stats: map<string, StepStats>)
      ensures stats.Keys == steps.Keys
      ensures forall step :: step in steps ==> stats[step] == StatsOf(Readings(steps[step]))
    {
      hide StatsOf, Readings;
      stats := map[];
      var todo := steps.Keys;
      while todo != {}
        invariant todo <= steps.Keys && stats.Keys == steps.Keys - todo
        invariant forall step :: step in stats ==> stats[step] == StatsOf(Readings(steps[step]))
        decreases |todo|
      {
        var step :| step in todo;
        var s := Summarize(Readings(steps[step]));
        stats := stats[step := s];
        todo := todo - {step};
      }
    }
  }

  lemma {:induction false} PruneNothing(now: nat, maxAge: nat)
    ensures Prune([], now, maxAge) == []
  {
  }
}
