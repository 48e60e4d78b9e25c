/** The guards on growing the validator set: headroom, posture, and the ceiling that keeps unproven
    members from ever being needed for a quorum. */
module Membership {
  import opened Quorums

  /** Members that can die before the set stalls, when all of it is alive. */
  function Tolerance(p: Profile, v: nat): nat
    requires v >= 1
  {
    v - Quorum(p, v)
  }

  function Inflation(p: Profile, v: nat, b: nat): nat {
    QuorumGrowth(p, v, b);
    Quorum(p, v + b) - Quorum(p, v)
  }

  /** Headroom gained by seating `b` live members; the subtraction never underflows. */
  function DeltaH(p: Profile, v: nat, b: nat): nat {
    QuorumGrowth(p, v, b);
    b - Inflation(p, v, b)
  }

  function Exposure(p: Profile, v: nat, b: nat): nat { b - DeltaH(p, v, b) }

  predicate PostureOk(p: Profile, v: nat, b: nat) {
    var dh := DeltaH(p, v, b);
    dh >= 1 || (dh == 0 && FEq(p, v + b) > FEq(p, v))
  }

  function SaturatingSub(a: nat, b: nat): nat { if a >= b then a - b else 0 }

  predicate CeilingOk(p: Profile, v: nat, b: nat, provenLive: nat)
    requires v >= 1
  {
    Tolerance(p, v) == 0 || Inflation(p, v, b) <= SaturatingSub(provenLive, Quorum(p, v))
  }

  // ----- headroom

  lemma {:induction false} DeltaSplits(p: Profile, v: nat, b: nat, c: nat)
    ensures DeltaH(p, v, b + c) == DeltaH(p, v, b) + DeltaH(p, v + b, c)
    ensures Exposure(p, v, b + c) == Exposure(p, v, b) + Exposure(p, v + b, c)
  {
    assert v + b + c == v + (b + c);
  }

  /** Of the `b` members seated, those that do not add headroom are the ones the quorum rose by. */
  lemma {:induction false} ExposureExact(p: Profile, v: nat, b: nat)
    ensures Quorum(p, v + b) == Quorum(p, v) + Exposure(p, v, b) && Exposure(p, v, b) + DeltaH(p, v, b) == b
  {
    QuorumGrowth(p, v, b);
  }

  lemma {:induction false} DeltaMonotone(p: Profile, v: nat, b: nat, c: nat)
    requires b <= c
    ensures DeltaH(p, v, b) <= DeltaH(p, v, c)
  {
    DeltaSplits(p, v, b, c - b);
  }

  /** Headroom gained is tolerance gained. */
  lemma {:induction false} DeltaIsTolerance(p: Profile, v: nat, b: nat)
    requires v >= 1
    ensures Tolerance(p, v + b) == Tolerance(p, v) + DeltaH(p, v, b)
  {
  }

  /** The smallest batch that gains headroom. */
  function LeastGain(p: Profile, v: nat): nat
    requires v >= 1
  {
    if p == Bft || (p == Auto && v >= V_BFT) then 3 - (v - 1) % 3
    else if p == Auto && v >= 5 then 10 - v
    else 2 - (v - 1) % 2
  }

  /** A batch gains headroom exactly from the least gaining size on: at most 3 under BFT, 2 under
      majority, and 5 under AUTO, which only v = 5 needs. */
  lemma {:induction false} GainsFrom(p: Profile, v: nat, b: nat)
    requires v >= 1
    ensures DeltaH(p, v, b) >= 1 <==> b >= LeastGain(p, v)
    ensures LeastGain(p, v) <= (match p case Bft => 3 case Majority => 2 case Auto => 5)
    ensures p == Auto && LeastGain(p, v) == 5 <==> p == Auto && v == 5
  {
    GainsAt(p, v);
    if b >= LeastGain(p, v) {
      DeltaMonotone(p, v, LeastGain(p, v), b);
    } else {
      DeltaMonotone(p, v, b, LeastGain(p, v) - 1);
    }
  }

  lemma {:induction false} GainsAt(p: Profile, v: nat)
    requires v >= 1
    ensures DeltaH(p, v, LeastGain(p, v)) == 1 && DeltaH(p, v, LeastGain(p, v) - 1) == 0
  {
    hide Quorum, DeltaH;
    var g := LeastGain(p, v);
    ToleranceForm(p, v);
    ToleranceForm(p, v + g);
    ToleranceForm(p, v + g - 1);
    DeltaIsTolerance(p, v, g);
    DeltaIsTolerance(p, v, g - 1);
  }

  lemma {:induction false} ToleranceForm(p: Profile, v: nat)
    requires v >= 1
    ensures Tolerance(p, v) == if ProfileAt(p, v) == Bft then (v - 1) / 3 else (v - 1) / 2
  {
  }

  /** Seating without a gain is allowed only on the step over AUTO's seam. */
  lemma {:induction false} PostureExact(p: Profile, v: nat, b: nat)
    requires v >= 1
    ensures PostureOk(p, v, b) <==>
            b >= LeastGain(p, v) || (p == Auto && ((v == 5 && 2 <= b <= 4) || (v == 6 && 1 <= b <= 3)))
    ensures PostureOk(p, v, b) && DeltaH(p, v, b) == 0 ==> p == Auto && v < V_BFT <= v + b
  {
    GainsFrom(p, v, b);
  }

  /** The sets with nothing to protect. */
  lemma {:induction false} WaiverExact(p: Profile, v: nat)
    requires v >= 1
    ensures Quorum(p, v) <= v
    ensures Tolerance(p, v) == 0 <==> v <= (if p == Bft then 3 else 2)
  {
  }

  /** The ceiling as a caller reads it, from the four numbers alone: a set too small to lose a
      member is waived; otherwise the grown set's quorum must be within the proven live members, or,
      where those are no quorum, must not rise at all. */
  lemma {:induction false} CeilingExact(p: Profile, v: nat, b: nat, provenLive: nat)
    requires v >= 1
    ensures CeilingOk(p, v, b, provenLive) <==>
            || v <= (if p == Bft then 3 else 2)
            || Quorum(p, v + b) <= (if provenLive >= Quorum(p, v) then provenLive else Quorum(p, v))
  {
    hide Quorum;
    WaiverExact(p, v);
    QuorumGrowth(p, v, b);
  }

  // ----- whole runs

  type Member = nat

  datatype State = State(members: set<Member>, live: set<Member>, proven: set<Member>) {
    ghost predicate Valid() { live <= members && proven <= members && members != {} }
    function ProvenLive(): set<Member> { live * proven }
  }

  /** Seat a batch of live candidates; a member survives long enough to be proven; an unproven
      member dies; a dead member comes back. */
  datatype Step = Seat(batch: set<Member>) | Prove(member: Member) | Die(member: Member) | Return(member: Member)

  ghost predicate Admitted(p: Profile, s: State, step: Step) {
    match step
    case Seat(batch) => batch !! s.members && NonEmpty(s) && CeilingOk(p, |s.members|, |batch|, |s.ProvenLive()|)
    case Prove(m) => m in s.members
    case Die(m) => m !in s.proven
    case Return(m) => m in s.members
  }

  ghost predicate NonEmpty(s: State) { |s.members| >= 1 }

  function Next(s: State, step: Step): State {
    match step
    case Seat(batch) => State(s.members + batch, s.live + batch, s.proven)
    case Prove(m) => s.(proven := s.proven + {m})
    case Die(m) => s.(live := s.live - {m})
    case Return(m) => s.(live := s.live + {m})
  }

  /** The invariant: a proven quorum is alive, and one death does not stall a fully live set. */
  ghost predicate Protected(p: Profile, s: State) {
    && s.Valid() && NonEmpty(s)
    && |s.ProvenLive()| >= Quorum(p, |s.members|)
    && Tolerance(p, |s.members|) >= 1
  }

  ghost predicate AdmittedRun(p: Profile, s: State, steps: seq<Step>)
    decreases |steps|
  {
    steps == [] || (Admitted(p, s, steps[0]) && AdmittedRun(p, Next(s, steps[0]), steps[1..]))
  }

  function Run(s: State, steps: seq<Step>): State
    decreases |steps|
  {
    if steps == [] then s else Run(Next(s, steps[0]), steps[1..])
  }

  lemma {:induction false} SeatProtected(p: Profile, s: State, batch: set<Member>)
    requires Protected(p, s) && Admitted(p, s, Seat(batch))
    ensures Protected(p, Next(s, Seat(batch)))
    ensures Tolerance(p, |Next(s, Seat(batch)).members|) >= Tolerance(p, |s.members|)
  {
    hide Quorum, CeilingOk;
    var t := Next(s, Seat(batch));
    assert s.members * batch == {};
    assert |t.members| == |s.members| + |batch|;
    WaiverExact(p, |s.members|);
    CeilingExact(p, |s.members|, |batch|, |s.ProvenLive()|);
    DeltaIsTolerance(p, |s.members|, |batch|);
    SubsetSize(s.ProvenLive(), t.ProvenLive());
  }

  lemma {:induction false} StepProtected(p: Profile, s: State, step: Step)
    requires Protected(p, s) && Admitted(p, s, step)
    ensures Protected(p, Next(s, step))
    ensures Tolerance(p, |Next(s, step).members|) >= Tolerance(p, |s.members|)
  {
    hide Quorum, CeilingOk;
    var t := Next(s, step);
    match step {
      case Seat(batch) =>
        SeatProtected(p, s, batch);
      case Prove(m) =>
        SubsetSize(s.ProvenLive(), t.ProvenLive());
      case Die(m) =>
        assert t.ProvenLive() == s.ProvenLive();
      case Return(m) =>
        SubsetSize(s.ProvenLive(), t.ProvenLive());
    }
  }

  /** Whatever is seated, proves itself, dies unproven or returns, and in whatever order: the proven
      live members stay a quorum and the zero-tolerance waiver never opens again. */
  lemma {:induction false} RunProtected(p: Profile, s: State, steps: seq<Step>)
    requires Protected(p, s) && AdmittedRun(p, s, steps)
    ensures Protected(p, Run(s, steps))
    ensures Tolerance(p, |Run(s, steps).members|) >= Tolerance(p, |s.members|)
    decreases |steps|
  {
    hide Protected, Admitted, Tolerance;
    if steps != [] {
      StepProtected(p, s, steps[0]);
      RunProtected(p, Next(s, steps[0]), steps[1..]);
      assert Run(s, steps) == Run(Next(s, steps[0]), steps[1..]);
    }
  }

  /** Losing any set of unproven members at once leaves enough live members to decide. */
  lemma {:induction false} UnprovenLossHarmless(p: Profile, s: State, steps: seq<Step>, lost: set<Member>)
    requires Protected(p, s) && AdmittedRun(p, s, steps) && lost !! Run(s, steps).proven
    ensures var t := Run(s, steps); |t.live - lost| >= Quorum(p, |t.members|)
  {
    RunProtected(p, s, steps);
    var t := Run(s, steps);
    SubsetSize(t.ProvenLive(), t.live - lost);
  }

  /** The ceiling refuses nothing it need not: a refused batch, seated anyway, would leave a set
      that the loss of its unproven members stalls. */
  lemma {:induction false} CeilingNecessary(p: Profile, s: State, batch: set<Member>)
    requires Protected(p, s) && batch !! s.members && !Admitted(p, s, Seat(batch))
    ensures var t := Next(s, Seat(batch)); |t.live - (t.members - t.proven)| < Quorum(p, |t.members|)
  {
    var t := Next(s, Seat(batch));
    assert s.members * batch == {};
    assert |t.members| == |s.members| + |batch|;
    WaiverExact(p, |s.members|);
    CeilingExact(p, |s.members|, |batch|, |s.ProvenLive()|);
    assert t.live - (t.members - t.proven) == s.ProvenLive();
  }

  function Without(s: State, m: Member): State { State(s.members - {m}, s.live - {m}, s.proven - {m}) }

  lemma {:induction false} WithoutSizes(s: State, m: Member)
    requires s.Valid() && m in s.members && m !in s.ProvenLive()
    ensures |Without(s, m).members| == |s.members| - 1 && Without(s, m).ProvenLive() == s.ProvenLive()
    ensures |s.members| >= 2 ==> Without(s, m).Valid()
  {
    if |s.members| >= 2 {
      assert Without(s, m).members != {};
    }
  }

  /** A departure of a member that is not both live and proven keeps the protection exactly as long as
      the smaller set still has tolerance. */
  lemma {:induction false} LeaveExact(p: Profile, s: State, m: Member)
    requires Protected(p, s) && m in s.members && m !in s.ProvenLive()
    ensures Protected(p, Without(s, m)) <==> |s.members| >= 2 && Tolerance(p, |s.members| - 1) >= 1
  {
    hide Quorum, Without;
    WithoutSizes(s, m);
    QuorumSlope(p, |s.members| - 1);
  }

  // ----- outside the protection

  /** The proven live members are a quorum, so that no unproven member is needed for one. */
  ghost predicate Unburdened(p: Profile, s: State) {
    s.Valid() && NonEmpty(s) && |s.ProvenLive()| >= Quorum(p, |s.members|)
  }

  /** The sizes at which an admitted batch adds no burden: there is tolerance, so the ceiling was
      checked, or the waiver is used for nothing or for the one seat that leaves the quorum alone. */
  predicate HarmlessSize(p: Profile, v: nat, b: nat)
    requires v >= 1
  {
    Tolerance(p, v) >= 1 || b == 0 || (b == 1 && v == (if p == Bft then 3 else 2))
  }

  lemma {:induction false} WaivedBatch(p: Profile, v: nat, b: nat)
    requires v >= 1 && Tolerance(p, v) == 0
    ensures Quorum(p, v) == v
    ensures Quorum(p, v + b) <= v <==> HarmlessSize(p, v, b)
  {
    WaiverExact(p, v);
    if b >= 2 {
      QuorumGrowth(p, v + 2, b - 2);
    }
  }

  /** An admitted seating leaves unproven members unneeded if and only if they were unneeded before and
      the batch is no stalling use of the waiver; both can be read off before the seating. */
  lemma {:induction false} SeatExact(p: Profile, s: State, batch: set<Member>)
    requires s.Valid() && Admitted(p, s, Seat(batch))
    ensures var t := Next(s, Seat(batch));
            && (Unburdened(p, t) <==> |t.live - (t.members - t.proven)| >= Quorum(p, |t.members|))
            && (Unburdened(p, t) <==> Unburdened(p, s) && HarmlessSize(p, |s.members|, |batch|))
  {
    hide Quorum;
    var t, v, b := Next(s, Seat(batch)), |s.members|, |batch|;
    SeatSizes(s, batch);
    QuorumGrowth(p, v, b);
    SubsetSize(s.ProvenLive(), s.members);
    if Tolerance(p, v) == 0 {
      WaivedBatch(p, v, b);
    } else {
      WaiverExact(p, v);
      CeilingExact(p, v, b, |s.ProvenLive()|);
    }
  }

  lemma {:induction false} SeatSizes(s: State, batch: set<Member>)
    requires s.Valid() && batch !! s.members
    ensures var t := Next(s, Seat(batch));
            && t.Valid() && NonEmpty(t) && |t.members| == |s.members| + |batch|
            && t.ProvenLive() == s.ProvenLive() && t.live - (t.members - t.proven) == s.ProvenLive()
  {
    var t := Next(s, Seat(batch));
    assert s.members * batch == {};
    assert t.ProvenLive() == s.ProvenLive();
  }

  ghost predicate HarmlessStep(p: Profile, s: State, step: Step) {
    step.Seat? && NonEmpty(s) ==> HarmlessSize(p, |s.members|, |step.batch|)
  }

  /** Along the whole run no unproven member is ever needed. */
  ghost predicate AlwaysUnburdened(p: Profile, s: State, steps: seq<Step>)
    decreases |steps|
  {
    Unburdened(p, s) && (steps == [] || AlwaysUnburdened(p, Next(s, steps[0]), steps[1..]))
  }

  ghost predicate HarmlessRun(p: Profile, s: State, steps: seq<Step>)
    decreases |steps|
  {
    steps == [] || (HarmlessStep(p, s, steps[0]) && HarmlessRun(p, Next(s, steps[0]), steps[1..]))
  }

  lemma {:induction false} StepExact(p: Profile, s: State, step: Step)
    requires Unburdened(p, s) && Admitted(p, s, step)
    ensures Unburdened(p, Next(s, step)) <==> HarmlessStep(p, s, step)
  {
    hide Quorum, HarmlessSize, CeilingOk;
    var t := Next(s, step);
    match step {
      case Seat(batch) =>
        SeatExact(p, s, batch);
      case Prove(m) =>
        SubsetSize(s.ProvenLive(), t.ProvenLive());
      case Die(m) =>
        assert t.ProvenLive() == s.ProvenLive();
      case Return(m) =>
        SubsetSize(s.ProvenLive(), t.ProvenLive());
    }
  }

  /** Over every admitted run from a state without burden, with or without tolerance: unproven members
      stay unneeded all along if and only if no seating of the run is a stalling use of the waiver. */
  lemma {:induction false} RunExact(p: Profile, s: State, steps: seq<Step>)
    requires Unburdened(p, s) && AdmittedRun(p, s, steps)
    ensures AlwaysUnburdened(p, s, steps) <==> HarmlessRun(p, s, steps)
    decreases |steps|
  {
    hide Unburdened, Admitted, HarmlessStep, Next;
    if steps != [] {
      StepExact(p, s, steps[0]);
      if Unburdened(p, Next(s, steps[0])) {
        RunExact(p, Next(s, steps[0]), steps[1..]);
      }
    }
  }

  /** A stalling use of the waiver: from a pair of proven members under AUTO it admits a batch whose
      loss stalls the mesh. */
  lemma {:induction false} WaiverCanStall()
    ensures var s := State({0, 1}, {0, 1}, {0, 1});
            var batch := {2, 3, 4, 5, 6};
            var t := Next(s, Seat(batch));
            && s.Valid() && |s.ProvenLive()| >= Quorum(Auto, |s.members|) && Admitted(Auto, s, Seat(batch))
            && |t.live - batch| < Quorum(Auto, |t.members|)
  {
    var s := State({0, 1}, {0, 1}, {0, 1});
    var batch := {2, 3, 4, 5, 6};
    var t := Next(s, Seat(batch));
    assert s.ProvenLive() == {0, 1} && t.live - batch == {0, 1} && t.members == {0, 1, 2, 3, 4, 5, 6};
  }
}
