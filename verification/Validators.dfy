/** Validator sets: the canonical order of a height's validators, and whose turn it is to propose. */
module Validators {
  import opened Bytes
  import opened Codec
  import opened Division
  import opened Sorting
  import opened Quorums

  type i32 = x: int | -0x8000_0000 <= x < 0x8000_0000

  datatype Validator = Validator(address: i32, publicKey: seq<byte>, power: u64)

  /** Voting power downwards, then address upwards. */
  const SetOrder: Order<Validator> :=
    (a: Validator, b: Validator) => a.power > b.power || (a.power == b.power && a.address <= b.address)

  lemma {:induction false} SetOrderTotal()
    ensures TotalPreorder(SetOrder)
  {
  }

  predicate NeighboursDiffer(s: seq<Validator>) {
    forall i :: 0 <= i < |s| - 1 ==> s[i].address != s[i + 1].address
  }

  /** A validator set, or the refusal of an empty or duplicated one. */
  method New(validators: seq<Validator>) returns (r: Option<seq<Validator>>)
    ensures var sorted := Sort(validators, SetOrder);
            r == if validators != [] && NeighboursDiffer(sorted) then Some(sorted) else None
  {
    if validators == [] {
      return None;
    }
    var sorted := Sort(validators, SetOrder);
    var i := 0;
    while i < |sorted| - 1
      invariant 0 <= i <= |sorted| - 1
      invariant forall j :: 0 <= j < i ==> sorted[j].address != sorted[j + 1].address
    {
      if sorted[i].address == sorted[i + 1].address {
        return None;
      }
      i := i + 1;
    }
    r := Some(sorted);
  }

  ghost predicate Accepted(vs: seq<Validator>) { vs != [] && NeighboursDiffer(Sort(vs, SetOrder)) }

  // ----- order independence

  ghost predicate TiedPair(s: seq<Validator>, i: int, j: int)
    requires 0 <= i < |s| && 0 <= j < |s|
  {
    SetOrder(s[i], s[j]) && SetOrder(s[j], s[i])
  }

  /** Ties in a sorted list stand next to each other, so a scan of neighbours sees them. */
  lemma {:induction false} NoTies(s: seq<Validator>, i: nat, j: nat)
    requires Sorted(s, SetOrder) && NeighboursDiffer(s) && i < j < |s|
    ensures !TiedPair(s, i, j)
  {
    assert s[i].address != s[i + 1].address;
    assert SetOrder(s[i], s[i + 1]);
    if i + 1 < j {
      assert SetOrder(s[i + 1], s[j]);
    }
  }

  lemma {:induction false} AcceptedTieFree(vs: seq<Validator>)
    requires Accepted(vs)
    ensures TieFree(Sort(vs, SetOrder), SetOrder)
  {
    hide Sort, SetOrder;
    var s := Sort(vs, SetOrder);
    SetOrderTotal();
    SortSorted(vs, SetOrder);
    forall a, b | a in s && b in s && SetOrder(a, b) && SetOrder(b, a) ensures a == b {
      var i :| 0 <= i < |s| && s[i] == a;
      var j :| 0 <= j < |s| && s[j] == b;
      if i < j {
        NoTies(s, i, j);
      } else if j < i {
        NoTies(s, j, i);
      }
    }
  }

  /** Whatever order the rows come in, the set is the same list. */
  lemma {:induction false} OrderIndependent(vs: seq<Validator>, ws: seq<Validator>)
    requires multiset(vs) == multiset(ws) && Accepted(vs)
    ensures Accepted(ws) && Sort(vs, SetOrder) == Sort(ws, SetOrder)
  {
    hide Sort, SetOrder;
    var a, b := Sort(vs, SetOrder), Sort(ws, SetOrder);
    SetOrderTotal();
    SortSorted(vs, SetOrder);
    SortSorted(ws, SetOrder);
    AcceptedTieFree(vs);
    SortedUnique(a, b, SetOrder);
    SameElements(vs, ws);
  }

  /** The accepted set is listed by power downwards, and by strictly rising address within a power. */
  lemma {:induction false} SetListed(vs: seq<Validator>)
    requires Accepted(vs)
    ensures var s := Sort(vs, SetOrder);
            && multiset(s) == multiset(vs)
            && forall i, j :: 0 <= i < j < |s| ==>
                s[i].power > s[j].power || (s[i].power == s[j].power && s[i].address < s[j].address)
  {
    hide Sort;
    var s := Sort(vs, SetOrder);
    SetOrderTotal();
    SortSorted(vs, SetOrder);
    forall i, j | 0 <= i < j < |s|
      ensures s[i].power > s[j].power || (s[i].power == s[j].power && s[i].address < s[j].address)
    {
      assert SetOrder(s[i], s[j]);
      NoTies(s, i, j);
    }
  }

  // ----- which lists are accepted

  /** Some third entry sorts strictly between the two. */
  ghost predicate Parted(vs: seq<Validator>, a: Validator, b: Validator) {
    exists c :: c in vs && SetOrder(a, c) && !SetOrder(c, a) && SetOrder(c, b) && !SetOrder(b, c)
  }

  /** Entries that share an address are all parted by others. */
  ghost predicate DuplicatesParted(vs: seq<Validator>) {
    forall i, j :: 0 <= i < |vs| && 0 <= j < |vs| && i != j ==>
      (vs[i].address == vs[j].address && SetOrder(vs[i], vs[j]) ==> Parted(vs, vs[i], vs[j]))
  }

  function Without<T>(s: seq<T>, i: nat): (r: seq<T>)
    requires i < |s|
    ensures |r| == |s| - 1 && multiset(r) == multiset(s) - multiset{s[i]}
    ensures forall m :: 0 <= m < |r| ==> r[m] == s[if m < i then m else m + 1]
  {
    assert s == s[..i] + [s[i]] + s[i + 1..];
    s[..i] + s[i + 1..]
  }

  lemma {:induction false} TwoPositions<T>(a: seq<T>, b: seq<T>, i: nat, j: nat) returns (p: nat, q: nat)
    requires multiset(a) == multiset(b) && i < |a| && j < |a| && i != j
    ensures p < |b| && q < |b| && p != q && b[p] == a[i] && b[q] == a[j]
  {
    hide Without;
    assert a[i] in multiset(b);
    p :| p < |b| && b[p] == a[i];
    var k := if j < i then j else j - 1;
    assert Without(a, i)[k] == a[j];
    assert a[j] in multiset(Without(b, p));
    var m :| 0 <= m < |Without(b, p)| && Without(b, p)[m] == a[j];
    q := if m < p then m else m + 1;
  }

  lemma {:induction false} SortedParted(s: seq<Validator>, p: nat, q: nat)
    requires Sorted(s, SetOrder) && NeighboursDiffer(s) && p < q < |s| && s[p].address == s[q].address
    ensures Parted(s, s[p], s[q])
  {
    hide SetOrder;
    assert s[p].address != s[p + 1].address;
    NoTies(s, p, p + 1);
    NoTies(s, p + 1, q);
    assert s[p + 1] in s;
  }

  lemma {:induction false} NeighboursNotParted(s: seq<Validator>, p: nat)
    requires Sorted(s, SetOrder) && p + 1 < |s|
    ensures !Parted(s, s[p], s[p + 1])
  {
    forall c | c in s && SetOrder(s[p], c) && !SetOrder(c, s[p]) ensures SetOrder(s[p + 1], c) {
      var k :| 0 <= k < |s| && s[k] == c;
    }
  }

  lemma {:induction false} PartedPermutes(vs: seq<Validator>, ws: seq<Validator>, a: Validator, b: Validator)
    requires multiset(vs) == multiset(ws) && Parted(vs, a, b)
    ensures Parted(ws, a, b)
  {
    hide SetOrder;
    SameElements(vs, ws);
    var c :| c in vs && SetOrder(a, c) && !SetOrder(c, a) && SetOrder(c, b) && !SetOrder(b, c);
    assert c in ws;
  }

  /** Exactly the non-empty lists in which entries of one address are parted by others are accepted. */
  lemma {:induction false} AcceptedExact(vs: seq<Validator>)
    ensures Accepted(vs) <==> vs != [] && DuplicatesParted(vs)
  {
    hide Sort, SetOrder, Parted;
    var s := Sort(vs, SetOrder);
    SetOrderTotal();
    SortSorted(vs, SetOrder);
    if Accepted(vs) {
      forall i, j | 0 <= i < |vs| && 0 <= j < |vs| && i != j && vs[i].address == vs[j].address && SetOrder(vs[i], vs[j])
        ensures Parted(vs, vs[i], vs[j])
      {
        DuplicateParted(vs, i, j);
      }
    }
    if vs != [] && DuplicatesParted(vs) {
      forall p | 0 <= p < |s| - 1 ensures s[p].address != s[p + 1].address {
        var i, j := TwoPositions(s, vs, p, p + 1);
        NeighboursNotParted(s, p);
        if Parted(vs, s[p], s[p + 1]) {
          PartedPermutes(vs, s, s[p], s[p + 1]);
        }
        assert SetOrder(vs[i], vs[j]);
      }
    }
  }

  lemma {:induction false} DuplicateParted(vs: seq<Validator>, i: nat, j: nat)
    requires Accepted(vs) && i < |vs| && j < |vs| && i != j && vs[i].address == vs[j].address && SetOrder(vs[i], vs[j])
    ensures Parted(vs, vs[i], vs[j])
  {
    hide Sort, SetOrder, Parted;
    var s := Sort(vs, SetOrder);
    SetOrderTotal();
    SortSorted(vs, SetOrder);
    var p, q := TwoPositions(vs, s, i, j);
    if q < p {
      NoTies(s, q, p);
    } else {
      SortedParted(s, p, q);
    }
    PartedPermutes(s, vs, vs[i], vs[j]);
  }

  /** With equal powers, as every mesh has today: exactly the duplicate-free lists. */
  lemma {:induction false} UniformExact(vs: seq<Validator>)
    requires forall i, j :: 0 <= i < |vs| && 0 <= j < |vs| ==> vs[i].power == vs[j].power
    ensures Accepted(vs) <==> vs != [] && forall i, j :: 0 <= i < j < |vs| ==> vs[i].address != vs[j].address
  {
    AcceptedExact(vs);
    if DuplicatesParted(vs) {
      forall i, j | 0 <= i < j < |vs| ensures vs[i].address != vs[j].address {
        assert SetOrder(vs[i], vs[j]) || SetOrder(vs[j], vs[i]);
      }
    }
  }

  /** With unequal powers a duplicate can pass the scan. */
  lemma {:induction false} DuplicatePasses(key: seq<byte>)
    ensures var vs := [Validator(1, key, 2), Validator(2, key, 2), Validator(1, key, 1)];
            Accepted(vs) && vs[0].address == vs[2].address
  {
    hide Sort;
    var vs := [Validator(1, key, 2), Validator(2, key, 2), Validator(1, key, 1)];
    SetOrderTotal();
    assert Sorted(vs, SetOrder);
    SortIdempotent(vs, SetOrder);
  }

  // ----- rotation

  /** The sum is taken in 64 bits. */
  function IndexAt(n: nat, sum: nat): (i: nat)
    requires n >= 1
    ensures i < n
  {
    sum % TWO_64 % n
  }

  function ProposerIndex(n: nat, height: u64, round: u32): (i: nat)
    requires n >= 1
    ensures i < n
  {
    IndexAt(n, height + round)
  }

  function SelectProposer(vs: seq<Validator>, height: u64, round: u32): Validator
    requires vs != []
  {
    vs[ProposerIndex(|vs|, height, round)]
  }

  lemma {:induction false} NoWrap(n: nat, height: u64, round: u32)
    requires n >= 1 && height + round < TWO_64
    ensures ProposerIndex(n, height, round) == (height + round) % n
  {
    assert (height + round) % TWO_64 == height + round;
  }

  function After(i: nat, n: nat): nat { if i + 1 >= n then 0 else i + 1 }

  /** The turn starts at the head of the list and moves one place down with every round and with every
      height, back to the head at the end of the list and where the 64-bit sum wraps. */
  lemma {:induction false} TurnMoves(n: nat, height: u64, round: u32)
    requires n >= 1
    ensures ProposerIndex(n, 0, 0) == 0
    ensures var wraps := height + round == TWO_64 - 1;
            && (round + 1 < TWO_32 ==>
                  ProposerIndex(n, height, round + 1)
                  == if wraps then 0 else After(ProposerIndex(n, height, round), n))
            && (height + 1 < TWO_64 ==>
                  ProposerIndex(n, height + 1, round)
                  == if wraps then 0 else After(ProposerIndex(n, height, round), n))
  {
    hide IndexAt;
    NextIndex(n, height + round);
    FirstIndex(n);
    assert height + round + 1 == height + (round + 1) == height + 1 + round;
  }

  lemma {:induction false} FirstIndex(n: nat)
    requires n >= 1
    ensures IndexAt(n, 0) == 0
  {
    DivModUnique(0, 0, 0, n);
  }

  lemma {:induction false} NextIndex(n: nat, x: nat)
    requires n >= 1 && x < 2 * TWO_64 - 1
    ensures IndexAt(n, x + 1) == if x == TWO_64 - 1 then 0 else After(IndexAt(n, x), n)
  {
    NextSum(x);
    var y := x % TWO_64;
    if x == TWO_64 - 1 {
      DivModUnique(0, 0, 0, n);
    } else if n > 1 {
      ModStep(y, 1, n);
    } else {
      DivModUnique(y + 1, y + 1, 0, n);
    }
  }

  lemma {:induction false} NextSum(x: nat)
    requires x < 2 * TWO_64 - 1
    ensures (x + 1) % TWO_64 == if x == TWO_64 - 1 then 0 else x % TWO_64 + 1
  {
  }

  /** Any `n` consecutive rounds of a height have pairwise different proposers. */
  lemma {:induction false} RoundsDiffer(n: nat, height: u64, r: u32, s: u32)
    requires r < s < r + n && height + s < TWO_64
    ensures ProposerIndex(n, height, r) != ProposerIndex(n, height, s)
  {
    hide ProposerIndex;
    NoWrap(n, height, r);
    NoWrap(n, height, s);
    ModStep(height + r, s - r, n);
  }

  /** Every validator's turn comes within `n` rounds. */
  lemma {:induction false} TurnComes(n: nat, height: u64, r: u32, i: nat) returns (round: u32)
    requires i < n && r + n <= TWO_32 && height + r + n <= TWO_64
    ensures r <= round < r + n && ProposerIndex(n, height, round) == i
  {
    hide ProposerIndex;
    var m := (height + r) % n;
    var d := if m <= i then i - m else i + n - m;
    round := r + d;
    ModStep(height + r, d, n);
    NoWrap(n, height, round);
  }

  /** The addresses that propose in rounds `r` to `last`. */
  function Proposers(vs: seq<Validator>, height: u64, r: u32, last: u32): set<int>
    requires vs != [] && r <= last
    decreases last
  {
    var a: int := SelectProposer(vs, height, last).address;
    if r == last then {a} else Proposers(vs, height, r, last - 1) + {a}
  }

  lemma {:induction false} ProposersAre(vs: seq<Validator>, height: u64, r: u32, last: u32, a: int)
    requires vs != [] && r <= last
    ensures a in Proposers(vs, height, r, last) <==>
            exists round: u32 :: r <= round <= last && SelectProposer(vs, height, round).address == a
    decreases last
  {
    hide SelectProposer;
    if r < last {
      ProposersAre(vs, height, r, last - 1, a);
    }
  }

  lemma {:induction false} ProposersCount(vs: seq<Validator>, height: u64, r: u32, last: u32)
    requires forall i, j :: 0 <= i < j < |vs| ==> vs[i].address != vs[j].address
    requires r <= last < r + |vs| && height + last < TWO_64
    ensures |Proposers(vs, height, r, last)| == last - r + 1
    decreases last
  {
    hide ProposerIndex;
    if r < last {
      ProposersCount(vs, height, r, last - 1);
      var a := SelectProposer(vs, height, last).address;
      ProposersAre(vs, height, r, last - 1, a);
      forall round: u32 | r <= round <= last - 1 ensures SelectProposer(vs, height, round).address != a {
        RoundsDiffer(|vs|, height, round, last);
      }
      assert a !in Proposers(vs, height, r, last - 1);
    }
  }

  /** Among `k + 1` consecutive rounds one proposer lies outside any faulty set of size `k`. */
  lemma {:induction false} HonestTurn(vs: seq<Validator>, height: u64, r: u32, k: nat, faulty: set<int>)
    returns (round: u32)
    requires (forall i, j :: 0 <= i < j < |vs| ==> vs[i].address != vs[j].address) && k < |vs|
    requires r + k < TWO_32 && height + r + k < TWO_64 && |faulty| <= k
    ensures r <= round <= r + k && SelectProposer(vs, height, round).address !in faulty
  {
    hide SelectProposer, Proposers;
    var s := Proposers(vs, height, r, r + k);
    ProposersCount(vs, height, r, r + k);
    if forall a :: a in s ==> a in faulty {
      SubsetSize(s, faulty);
      assert false;
    }
    var a :| a in s && a !in faulty;
    ProposersAre(vs, height, r, r + k, a);
    round :| r <= round <= r + k && SelectProposer(vs, height, round).address == a;
  }
}
