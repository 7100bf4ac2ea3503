/** Node ids: the ring of integers modulo 2^160, ordered by clockwise distance from a node. */
module Ring {

  const RING: nat := 0x1_00000000_00000000_00000000_00000000_00000000

  type Did = x: int | 0 <= x < RING

  // ---------- ring arithmetic ----------

  function Neg(a: Did): Did {
    (RING - a) % RING
  }

  function Add(a: Did, b: Did): Did {
    (a + b) % RING
  }

  function Sub(a: Did, b: Did): Did {
    Add(a, Neg(b))
  }

  /** Clockwise distance from `n` to `x`. */
  function Dist(n: Did, x: Did): Did {
    if n <= x then x - n else RING - n + x
  }

  /** The source computes distances as `x - n` in the ring. */
  lemma SubIsDist(n: Did, x: Did)
    ensures Sub(x, n) == Dist(n, x) == (x - n) % RING
  {
  }

  lemma RingLaws(a: Did, b: Did)
    ensures Add(a, Neg(a)) == 0
    ensures Neg(Neg(a)) == a
    ensures Add(Sub(a, b), b) == a
    ensures Add(a, b) == Add(b, a)
    ensures Dist(a, Add(a, b)) == b
  {
    SubIsDist(b, a);
    assert Neg(a) == if a == 0 then 0 else RING - a;
    assert Add(a, b) == if a + b < RING then a + b else a + b - RING;
  }

  /** Walking `a -> b -> c` without passing `c` adds the two distances up. */
  lemma DistSplit(a: Did, b: Did, c: Did)
    ensures Dist(a, b) <= Dist(a, c) <==> Dist(a, b) + Dist(b, c) == Dist(a, c)
    ensures Dist(a, b) == 0 <==> a == b
    ensures Dist(a, b) == Dist(a, c) <==> b == c
  {
  }

  // ---------- biased ids and their order ----------

  /** An id together with the base its position is counted from. */
  datatype BiasId = BiasId(bias: Did, pos: Did) {
    function ToDid(): Did {
      Add(pos, bias)
    }
  }

  function Bias(n: Did, x: Did): (b: BiasId)
    ensures b.bias == n && b.ToDid() == x
  {
    RingLaws(x, n);
    BiasId(n, Sub(x, n))
  }

  /** Negative, zero or positive: `other` is first moved to the base of `a`. */
  function Compare(a: BiasId, other: BiasId): int {
    if other.bias != a.bias then a.pos - Bias(a.bias, other.ToDid()).pos
    else a.pos - other.pos
  }

  /** Whatever base the right operand has, the order is the clockwise order seen from the left base. */
  lemma CompareIsDistance(a: BiasId, b: BiasId)
    ensures Compare(a, b) == Dist(a.bias, a.ToDid()) - Dist(a.bias, b.ToDid())
  {
    PosIsDist(a);
    PosIsDist(b);
    PosIsDist(Bias(a.bias, b.ToDid()));
  }

  lemma PosIsDist(b: BiasId)
    ensures b.pos == Dist(b.bias, b.ToDid())
  {
    RingLaws(b.bias, b.pos);
    RingLaws(b.pos, b.bias);
  }

  /** `base` lies on the arc that leaves `from` and ends at `to`. */
  predicate OnArc(base: Did, from: Did, to: Did) {
    0 < Dist(from, base) <= Dist(from, to)
  }

  /** The order is antisymmetric exactly for equal ids or bases on the same arc between the two ids. */
  lemma CompareAntisymmetricIff(a: BiasId, b: BiasId)
    ensures (Compare(a, b) < 0 <==> Compare(b, a) > 0) && (Compare(a, b) > 0 <==> Compare(b, a) < 0)
       <==> a.ToDid() == b.ToDid() || (OnArc(a.bias, b.ToDid(), a.ToDid()) <==> OnArc(b.bias, b.ToDid(), a.ToDid()))
  {
    CompareIsDistance(a, b);
    CompareIsDistance(b, a);
  }

  /** Ids 1 and 3 seen from bases 0 and 2: each is smaller than the other. */
  lemma CompareMayContradictItself()
    ensures Bias(0, 1).ToDid() == 1 && Bias(2, 3).ToDid() == 3
    ensures Compare(Bias(0, 1), Bias(2, 3)) < 0 && Compare(Bias(2, 3), Bias(0, 1)) < 0
  {
    CompareIsDistance(Bias(0, 1), Bias(2, 3));
    CompareIsDistance(Bias(2, 3), Bias(0, 1));
  }

  // ---------- sorting by distance ----------

  predicate Sorted(n: Did, v: seq<Did>) {
    forall i, j :: 0 <= i < j < |v| ==> Dist(n, v[i]) <= Dist(n, v[j])
  }

  predicate Ascending(n: Did, v: seq<Did>) {
    forall i, j :: 0 <= i < j < |v| ==> Dist(n, v[i]) < Dist(n, v[j])
  }

  function Insert(n: Did, v: seq<Did>, x: Did): seq<Did> {
    if v != [] && Dist(n, x) < Dist(n, v[|v| - 1]) then Insert(n, v[..|v| - 1], x) + [v[|v| - 1]]
    else v + [x]
  }

  lemma {:induction false} InsertElements(n: Did, v: seq<Did>, x: Did)
    ensures multiset(Insert(n, v, x)) == multiset(v) + multiset{x}
    ensures |Insert(n, v, x)| == |v| + 1
  {
    if v != [] && Dist(n, x) < Dist(n, v[|v| - 1]) {
      InsertElements(n, v[..|v| - 1], x);
      assert v == v[..|v| - 1] + [v[|v| - 1]];
    }
  }

  lemma {:induction false} InsertSorted(n: Did, v: seq<Did>, x: Did)
    requires Sorted(n, v)
    ensures Sorted(n, Insert(n, v, x))
  {
    if v != [] && Dist(n, x) < Dist(n, v[|v| - 1]) {
      var front, last := v[..|v| - 1], v[|v| - 1];
      InsertSorted(n, front, x);
      InsertElements(n, front, x);
      assert v == front + [last];
      forall y | y in multiset(Insert(n, front, x)) ensures Dist(n, y) <= Dist(n, last) {
        if y != x {
          assert y in multiset(v);
          LastIsFarthest(n, v, y);
        }
      }
      SortedAppend(n, Insert(n, front, x), last);
    } else {
      forall y | y in multiset(v) ensures Dist(n, y) <= Dist(n, x) {
        LastIsFarthest(n, v, y);
      }
      SortedAppend(n, v, x);
    }
  }

  lemma SortedAppend(n: Did, v: seq<Did>, x: Did)
    requires Sorted(n, v) && forall y :: y in multiset(v) ==> Dist(n, y) <= Dist(n, x)
    ensures Sorted(n, v + [x])
  {
    forall i | 0 <= i < |v| ensures Dist(n, v[i]) <= Dist(n, x) {
      assert v[i] in multiset(v);
    }
  }

  /** `sort` of the source: a stable sort by distance from `n`. */
  function SortRing(n: Did, v: seq<Did>): seq<Did> {
    if v == [] then [] else Insert(n, SortRing(n, v[..|v| - 1]), v[|v| - 1])
  }

  lemma {:induction false} SortRingSorts(n: Did, v: seq<Did>)
    ensures Sorted(n, SortRing(n, v))
    ensures multiset(SortRing(n, v)) == multiset(v)
  {
    if v != [] {
      var k := |v| - 1;
      SortRingSorts(n, v[..k]);
      InsertSorted(n, SortRing(n, v[..k]), v[k]);
      InsertElements(n, SortRing(n, v[..k]), v[k]);
      assert v == v[..k] + [v[k]];
    }
  }

  /** Any sorting algorithm gives this very sequence: distances from `n` tell ids apart. */
  lemma SortUnique(n: Did, v: seq<Did>, w: seq<Did>)
    requires Sorted(n, w) && multiset(w) == multiset(v)
    ensures w == SortRing(n, v)
  {
    SortRingSorts(n, v);
    SortedUnique(n, SortRing(n, v), w);
  }

  lemma {:induction false} SortedUnique(n: Did, a: seq<Did>, b: seq<Did>)
    requires Sorted(n, a) && Sorted(n, b) && multiset(a) == multiset(b)
    ensures a == b
  {
    if a == [] {
      assert b == [] by { assert |multiset(b)| == 0; }
    } else {
      SameLast(n, a, b);
      WithoutLast(a);
      WithoutLast(b);
      SortedUnique(n, a[..|a| - 1], b[..|b| - 1]);
      assert a == a[..|a| - 1] + [a[|a| - 1]];
      assert b == b[..|b| - 1] + [b[|b| - 1]];
    }
  }

  lemma SameLast(n: Did, a: seq<Did>, b: seq<Did>)
    requires Sorted(n, a) && Sorted(n, b) && multiset(a) == multiset(b) && a != []
    ensures b != [] && a[|a| - 1] == b[|b| - 1]
  {
    assert a[|a| - 1] in multiset(b);
    LastIsFarthest(n, b, a[|a| - 1]);
    assert b[|b| - 1] in multiset(a);
    LastIsFarthest(n, a, b[|b| - 1]);
  }

  lemma WithoutLast(a: seq<Did>)
    requires a != []
    ensures multiset(a[..|a| - 1]) == multiset(a) - multiset{a[|a| - 1]}
  {
    assert a == a[..|a| - 1] + [a[|a| - 1]];
  }

  lemma LastIsFarthest(n: Did, a: seq<Did>, x: Did)
    requires Sorted(n, a) && x in multiset(a)
    ensures a != [] && Dist(n, x) <= Dist(n, a[|a| - 1])
  {
    var i :| 0 <= i < |a| && a[i] == x;
  }

  lemma SortOfAscending(n: Did, v: seq<Did>)
    requires Ascending(n, v)
    ensures SortRing(n, v) == v
  {
    SortUnique(n, v, v);
  }

  // ---------- powers of two ----------

  function Pow2(k: nat): (r: nat)
    ensures r >= 1
  {
    if k == 0 then 1 else 2 * Pow2(k - 1)
  }

  lemma {:induction false} Pow2Monotone(i: nat, j: nat)
    requires i <= j
    ensures Pow2(i) <= Pow2(j)
    ensures i < j ==> Pow2(i) < Pow2(j)
    decreases j
  {
    if i < j {
      Pow2Monotone(i, j - 1);
    }
  }

  lemma {:induction false} Pow2Sum(i: nat, j: nat)
    ensures Pow2(i + j) == Pow2(i) * Pow2(j)
  {
    if i > 0 {
      Pow2Sum(i - 1, j);
    }
  }

  lemma Pow2Square(k: nat, v: nat, w: nat)
    requires Pow2(k) == v && w == v * v
    ensures Pow2(k + k) == w
  {
    Pow2Sum(k, k);
  }

  lemma Pow2OfRing()
    ensures Pow2(160) == RING
  {
    assert Pow2(5) == 0x20;
    Pow2Square(5, 0x20, 0x400);
    Pow2Square(10, 0x400, 0x10_0000);
    Pow2Square(20, 0x10_0000, 0x100_0000_0000);
    Pow2Square(40, 0x100_0000_0000, 0x1_0000_0000_0000_0000_0000);
    Pow2Square(80, 0x1_0000_0000_0000_0000_0000, RING);
  }

  /** The id made from 2^k; ids are taken modulo the ring size. */
  function Pos(k: nat): (r: Did)
    ensures k < 160 ==> r == Pow2(k)
  {
    if k < 160 then
      Pow2Monotone(k, 160);
      Pow2OfRing();
      Pow2(k) % RING
    else Pow2(k) % RING
  }

  /** Every positive distance lies in exactly one of the buckets [2^j, 2^(j+1)). */
  lemma {:induction false} Log2(x: nat, k: nat) returns (j: nat)
    requires 0 < x < Pow2(k)
    ensures j < k && Pow2(j) <= x < 2 * Pow2(j)
  {
    if x < Pow2(k - 1) {
      j := Log2(x, k - 1);
    } else {
      j := k - 1;
    }
  }
}
