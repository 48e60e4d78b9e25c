/** Quorum profiles: how many votes decide among `v` validators of equal power, and how many
    equivocating validators the profile survives. */
module Quorums {
  datatype Profile = Bft | Majority | Auto

  /** Where AUTO switches from crash faults to Byzantine faults. */
  const V_BFT: nat := 7

  function ProfileAt(p: Profile, v: nat): Profile {
    if p != Auto then p else if v >= V_BFT then Bft else Majority
  }

  function Quorum(p: Profile, v: nat): nat {
    if ProfileAt(p, v) == Bft then v * 2 / 3 + 1 else v / 2 + 1
  }

  function FEq(p: Profile, v: nat): nat {
    if ProfileAt(p, v) == Bft && v > 0 then (v - 1) / 3 else 0
  }

  /** The engine's vote threshold: a fraction of the total power that has to be exceeded. */
  datatype Threshold = Threshold(num: nat, den: nat) {
    predicate IsMet(weight: nat, total: nat) { weight * den > total * num }
  }

  function QuorumThreshold(p: Profile, v: nat): Threshold {
    if ProfileAt(p, v) == Bft then Threshold(2, 3) else Threshold(1, 2)
  }

  /** `Quorum` is the closed form of the engine's threshold: a count meets it exactly from there on. */
  lemma {:induction false} QuorumMeetsThreshold(p: Profile, v: nat, weight: nat)
    ensures QuorumThreshold(p, v).IsMet(weight, v) <==> weight >= Quorum(p, v)
  {
    if ProfileAt(p, v) == Bft {
      assert v * 2 == 3 * (v * 2 / 3) + v * 2 % 3;
    } else {
      assert v == 2 * (v / 2) + v % 2;
    }
  }

  // ----- intersection

  lemma {:induction false} SubsetSize<T>(a: set<T>, b: set<T>)
    requires a <= b
    ensures |a| <= |b|
  {
    assert b == a + (b - a) && a * (b - a) == {};
  }

  /** Any two quorums of one set share more members than may equivocate, so at least one member
      outside any tolerated faulty set voted in both. */
  lemma {:induction false} QuorumsIntersect<T>(p: Profile, members: set<T>, a: set<T>, b: set<T>, faulty: set<T>)
    requires a <= members && b <= members && |a| >= Quorum(p, |members|) && |b| >= Quorum(p, |members|)
    requires |faulty| <= FEq(p, |members|)
    ensures |a * b| > FEq(p, |members|)
    ensures exists x :: x in a && x in b && x !in faulty
  {
    assert |a + b| + |a * b| == |a| + |b|;
    SubsetSize(a + b, members);
    if forall x :: x in a && x in b ==> x in faulty {
      SubsetSize(a * b, faulty);
      assert false;
    }
  }

  /** Without the tolerated faulty members the others still decide. */
  lemma {:induction false} RemainderDecides<T>(p: Profile, members: set<T>, faulty: set<T>)
    requires members != {} && faulty <= members && |faulty| <= FEq(p, |members|)
    ensures |members - faulty| >= Quorum(p, |members|)
  {
    assert (members - faulty) + faulty == members && (members - faulty) * faulty == {};
    assert |members - faulty| == |members| - |faulty|;
  }

  /** `FEq` is the most equivocators a profile can survive: under BFT one more would leave the others
      without a quorum, and no number of them is survived under majority. */
  lemma {:induction false} FEqExact(p: Profile, v: nat, f: nat)
    requires v >= 1
    ensures f <= FEq(p, v) <==> if ProfileAt(p, v) == Bft then Quorum(p, v) + f <= v else f == 0
    ensures ProfileAt(p, v) == Bft <==> p == Bft || (p == Auto && v >= 7)
  {
  }

  // ----- growth

  /** One more member raises the quorum by at most one, in every profile and across AUTO's seam. */
  lemma {:induction false} QuorumSlope(p: Profile, v: nat)
    ensures Quorum(p, v) <= Quorum(p, v + 1) <= Quorum(p, v) + 1
  {
  }

  lemma {:induction false} QuorumGrowth(p: Profile, v: nat, b: nat)
    ensures Quorum(p, v) <= Quorum(p, v + b) <= Quorum(p, v) + b
  {
    if b > 0 {
      QuorumGrowth(p, v, b - 1);
      QuorumSlope(p, v + b - 1);
    }
  }
}
