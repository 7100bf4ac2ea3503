/** The bounded list of the nearest known successors of a node. */
module Successors {
  import opened Ring

  // ---------- what the operations do to the list ----------

  function Truncate(v: seq<Did>, max: nat): seq<Did> {
    if |v| <= max then v else v[..max]
  }

  function Updated(n: Did, max: nat, list: seq<Did>, s: Did): seq<Did> {
    if s in list || s == n then list else Truncate(SortRing(n, list + [s]), max)
  }

  function Without(list: seq<Did>, d: Did): seq<Did> {
    if list == [] then []
    else if list[0] == d then Without(list[1..], d)
    else [list[0]] + Without(list[1..], d)
  }

  function MinOf(n: Did, list: seq<Did>): Did {
    if list == [] then n else list[0]
  }

  function MaxOf(n: Did, list: seq<Did>): Did {
    if list == [] then n else list[|list| - 1]
  }

  /** The length is cast to a byte before it is compared. */
  predicate IsFull(max: nat, list: seq<Did>) {
    |list| % 256 >= max
  }

  // ---------- the invariant and the meaning ----------

  ghost predicate WellFormed(n: Did, max: nat, list: seq<Did>) {
    |list| <= max < 256 && Ascending(n, list) && n !in list
  }

  /** The list holds the `max` ids of `ids` nearest to `n`, in clockwise order (all of them if fewer). */
  ghost predicate NearestOf(n: Did, max: nat, list: seq<Did>, ids: set<Did>) {
    && WellFormed(n, max, list)
    && (forall x :: x in list ==> x in ids)
    && (forall x :: x in ids && x != n && x !in list ==>
         |list| == max && forall y :: y in list ==> Dist(n, y) < Dist(n, x))
  }

  /** Inserting into an ascending list: everything up to some place, the new id, everything behind. */
  lemma {:induction false} InsertAt(n: Did, v: seq<Did>, x: Did) returns (i: nat)
    requires Ascending(n, v)
    ensures i <= |v| && Insert(n, v, x) == v[..i] + [x] + v[i..]
    ensures forall j :: 0 <= j < i ==> Dist(n, v[j]) <= Dist(n, x)
    ensures forall j :: i <= j < |v| ==> Dist(n, x) < Dist(n, v[j])
  {
    if v != [] && Dist(n, x) < Dist(n, v[|v| - 1]) {
      var front := v[..|v| - 1];
      assert forall j :: 0 <= j < |front| ==> front[j] == v[j];
      i := InsertAt(n, front, x);
      InsertInFront(v, i, x);
    } else {
      i := |v|;
      forall j | 0 <= j < |v| ensures Dist(n, v[j]) <= Dist(n, x) {
        assert j < |v| - 1 ==> Dist(n, v[j]) < Dist(n, v[|v| - 1]);
      }
      assert v[..i] + [x] + v[i..] == v + [x];
    }
  }

  lemma InsertInFront(v: seq<Did>, i: nat, x: Did)
    requires i < |v|
    ensures v[..i] + [x] + v[i..] == (v[..|v| - 1][..i] + [x] + v[..|v| - 1][i..]) + [v[|v| - 1]]
  {
  }

  lemma SortAppend(n: Did, list: seq<Did>, s: Did)
    requires Ascending(n, list)
    ensures SortRing(n, list + [s]) == Insert(n, list, s)
  {
    SortOfAscending(n, list);
    assert (list + [s])[..|list|] == list;
  }

  /** One update of a well formed list by a new id: kept out, inserted, or inserted with the last pushed out. */
  lemma UpdatedShape(n: Did, max: nat, list: seq<Did>, s: Did) returns (i: nat)
    requires WellFormed(n, max, list) && s != n && s !in list
    ensures i <= |list|
    ensures forall j :: 0 <= j < i ==> Dist(n, list[j]) < Dist(n, s)
    ensures forall j :: i <= j < |list| ==> Dist(n, s) < Dist(n, list[j])
    ensures Updated(n, max, list, s) ==
      if |list| < max then list[..i] + [s] + list[i..]
      else if i == |list| then list
      else list[..i] + [s] + list[i..|list| - 1]
  {
    SortAppend(n, list, s);
    i := InsertAt(n, list, s);
    FirstOfInserted(list, i, s);
    forall j | 0 <= j < i ensures Dist(n, list[j]) < Dist(n, s) {
      DistSplit(n, list[j], s);
    }
  }

  /** Any list is updated so: the first `max` of any sorted arrangement of its entries and the new id. */
  lemma UpdatedIsNearestPart(n: Did, max: nat, list: seq<Did>, s: Did, w: seq<Did>)
    requires s != n && s !in list && Sorted(n, w) && multiset(w) == multiset(list + [s])
    ensures Updated(n, max, list, s) == if |w| <= max then w else w[..max]
  {
    SortUnique(n, list + [s], w);
  }

  lemma FirstOfInserted(list: seq<Did>, i: nat, s: Did)
    requires i <= |list|
    ensures (list[..i] + [s] + list[i..])[..|list|] ==
      if i == |list| then list else list[..i] + [s] + list[i..|list| - 1]
  {
  }

  lemma UpdateKeepsWellFormed(n: Did, max: nat, list: seq<Did>, s: Did)
    requires WellFormed(n, max, list)
    ensures WellFormed(n, max, Updated(n, max, list, s))
  {
    if s != n && s !in list {
      var i := UpdatedShape(n, max, list, s);
      assert list == list[..i] + list[i..];
      AscendingInsert(n, list[..i], s, list[i..]);
      if |list| == max && i < |list| {
        assert list[..|list| - 1] == list[..i] + list[i..|list| - 1];
        AscendingInsert(n, list[..i], s, list[i..|list| - 1]);
      }
    }
  }

  lemma AscendingInsert(n: Did, a: seq<Did>, s: Did, b: seq<Did>)
    requires Ascending(n, a + b) && n !in a + b && s != n
    requires forall j :: 0 <= j < |a| ==> Dist(n, a[j]) < Dist(n, s)
    requires forall j :: 0 <= j < |b| ==> Dist(n, s) < Dist(n, b[j])
    ensures Ascending(n, a + [s] + b) && n !in a + [s] + b
  {
    var r, rest := a + [s] + b, a + b;
    forall i, j | 0 <= i < j < |r| ensures Dist(n, r[i]) < Dist(n, r[j]) {
      assert i != |a| ==> r[i] == rest[if i < |a| then i else i - 1];
      assert j != |a| ==> r[j] == rest[if j < |a| then j else j - 1];
    }
  }

  lemma InsertedElements(list: seq<Did>, i: nat, s: Did)
    requires i <= |list|
    ensures forall x :: x in list[..i] + [s] + list[i..] <==> x in list || x == s
  {
    assert list == list[..i] + list[i..];
  }

  lemma PushedOut(n: Did, list: seq<Did>, i: nat, s: Did)
    requires Ascending(n, list) && i < |list| && Dist(n, s) < Dist(n, list[i])
    requires forall j :: 0 <= j < i ==> Dist(n, list[j]) < Dist(n, s)
    ensures var r, last := list[..i] + [s] + list[i..|list| - 1], list[|list| - 1];
      && (forall y :: y in r ==> (y in list || y == s) && Dist(n, y) < Dist(n, last))
      && (forall y :: y in list ==> y in r || y == last)
      && Dist(n, s) < Dist(n, last)
  {
    var last := |list| - 1;
    assert i < last ==> Dist(n, list[i]) < Dist(n, list[last]);
    LastIsFarthestOf(n, list[..i] + [s] + list[i..last], list[last]);
    PushedOutElements(list, i, s);
  }

  lemma PushedOutElements(list: seq<Did>, i: nat, s: Did)
    requires i < |list|
    ensures var r, last := list[..i] + [s] + list[i..|list| - 1], list[|list| - 1];
      && (forall y :: y in r ==> y in list || y == s)
      && (forall y :: y in list ==> y in r || y == last)
  {
    assert list == list[..i] + list[i..|list| - 1] + [list[|list| - 1]];
  }

  lemma LastIsFarthestOf(n: Did, v: seq<Did>, x: Did)
    requires forall j :: 0 <= j < |v| ==> Dist(n, v[j]) < Dist(n, x)
    ensures forall y :: y in v ==> Dist(n, y) < Dist(n, x)
  {
  }

  /** `r` holds old entries and `s`, all of them unless the list was full; then the farthest goes. */
  ghost predicate HoldsUpdated(n: Did, max: nat, list: seq<Did>, s: Did, r: seq<Did>) {
    && |list| <= |r| <= max
    && (forall x :: x in r ==> x in list || x == s)
    && (forall x :: (x in list || x == s) && x != n && x !in r ==>
         |list| == max && forall y :: y in r ==> Dist(n, y) < Dist(n, x))
    && (|list| == max && s in r && s !in list ==> list != [] && Dist(n, s) < Dist(n, list[max - 1]))
  }

  lemma InsertedHolds(n: Did, max: nat, list: seq<Did>, i: nat, s: Did)
    requires |list| < max && i <= |list|
    ensures HoldsUpdated(n, max, list, s, list[..i] + [s] + list[i..])
  {
    InsertedElements(list, i, s);
  }

  lemma PushedOutHolds(n: Did, max: nat, list: seq<Did>, i: nat, s: Did)
    requires |list| == max && Ascending(n, list) && i < |list| && Dist(n, s) < Dist(n, list[i])
    requires forall j :: 0 <= j < i ==> Dist(n, list[j]) < Dist(n, s)
    ensures HoldsUpdated(n, max, list, s, list[..i] + [s] + list[i..|list| - 1])
  {
    PushedOut(n, list, i, s);
    var r := list[..i] + [s] + list[i..|list| - 1];
    assert r[i] == s;
  }

  /** What an update holds. */
  lemma UpdatedElements(n: Did, max: nat, list: seq<Did>, s: Did)
    requires WellFormed(n, max, list)
    ensures HoldsUpdated(n, max, list, s, Updated(n, max, list, s))
  {
    if s != n && s !in list {
      var i := UpdatedShape(n, max, list, s);
      if |list| < max {
        InsertedHolds(n, max, list, i, s);
      } else if i < |list| {
        PushedOutHolds(n, max, list, i, s);
      } else {
        LastIsFarthestOf(n, list, s);
      }
    }
  }

  /** The head of the list after an update is the nearer of the old head and the new id. */
  lemma UpdatedHead(n: Did, max: nat, list: seq<Did>, s: Did)
    requires WellFormed(n, max, list) && s != n && max > 0
    ensures var r := Updated(n, max, list, s);
      r != [] && r[0] == if list == [] || Dist(n, s) < Dist(n, list[0]) then s else list[0]
  {
    if s in list {
      var k :| 0 <= k < |list| && list[k] == s;
    } else {
      var i := UpdatedShape(n, max, list, s);
    }
  }

  /** Updating with `s` adds one id to the set whose nearest members are listed. */
  lemma UpdateKeepsNearest(n: Did, max: nat, list: seq<Did>, ids: set<Did>, s: Did)
    requires NearestOf(n, max, list, ids)
    ensures NearestOf(n, max, Updated(n, max, list, s), ids + {s})
  {
    var r := Updated(n, max, list, s);
    UpdateKeepsWellFormed(n, max, list, s);
    UpdatedElements(n, max, list, s);
    forall x | x in ids + {s} && x != n && x !in r
      ensures |r| == max && forall y :: y in r ==> Dist(n, y) < Dist(n, x)
    {
      if x != s && x !in list {
        assert |list| == max;
        assert max > 0 ==> list[max - 1] in list;
      }
    }
  }

  /** Two lists of the nearest members of one set are the same list. */
  lemma NearestUnique(n: Did, max: nat, a: seq<Did>, b: seq<Did>, ids: set<Did>)
    requires NearestOf(n, max, a, ids) && NearestOf(n, max, b, ids)
    ensures a == b
  {
    if |a| <= |b| {
      NearestPrefix(n, max, a, b, ids, |a|);
      NearestNotLonger(n, max, a, b, ids);
    } else {
      NearestPrefix(n, max, b, a, ids, |b|);
      NearestNotLonger(n, max, b, a, ids);
    }
  }

  lemma {:induction false} NearestPrefix(n: Did, max: nat, a: seq<Did>, b: seq<Did>, ids: set<Did>, i: nat)
    requires NearestOf(n, max, a, ids) && NearestOf(n, max, b, ids)
    requires i <= |a| && i <= |b|
    ensures forall j :: 0 <= j < i ==> a[j] == b[j]
  {
    if i > 0 {
      NearestPrefix(n, max, a, b, ids, i - 1);
      SameNext(n, max, a, b, ids, i - 1);
    }
  }

  lemma SameNext(n: Did, max: nat, a: seq<Did>, b: seq<Did>, ids: set<Did>, i: nat)
    requires NearestOf(n, max, a, ids) && NearestOf(n, max, b, ids)
    requires i < |a| && i < |b| && forall j :: 0 <= j < i ==> a[j] == b[j]
    ensures a[i] == b[i]
  {
    NotNearer(n, max, a, b, ids, i);
    NotNearer(n, max, b, a, ids, i);
    DistSplit(n, a[i], b[i]);
  }

  lemma NotNearer(n: Did, max: nat, a: seq<Did>, b: seq<Did>, ids: set<Did>, i: nat)
    requires NearestOf(n, max, a, ids) && NearestOf(n, max, b, ids)
    requires i < |a| && i < |b| && forall j :: 0 <= j < i ==> a[j] == b[j]
    ensures Dist(n, a[i]) >= Dist(n, b[i])
  {
    if a[i] in b {
      var j :| 0 <= j < |b| && b[j] == a[i];
      NextIsFresh(n, a, b, i);
      assert j >= i;
    } else {
      assert a[i] in a && b[i] in b;
    }
  }

  lemma NextIsFresh(n: Did, a: seq<Did>, b: seq<Did>, i: nat)
    requires Ascending(n, a) && i < |a| && i <= |b|
    requires forall j :: 0 <= j < i ==> a[j] == b[j]
    ensures a[i] !in b[..i]
  {
    forall j | 0 <= j < i ensures b[..i][j] != a[i] {
      assert Dist(n, a[j]) < Dist(n, a[i]);
    }
  }

  lemma NearestNotLonger(n: Did, max: nat, a: seq<Did>, b: seq<Did>, ids: set<Did>)
    requires NearestOf(n, max, a, ids) && NearestOf(n, max, b, ids)
    requires |a| <= |b| && forall j :: 0 <= j < |a| ==> a[j] == b[j]
    ensures a == b
  {
    assert a[..|a|] == a;
    if |a| < |b| {
      NextIsFresh(n, b, a, |a|);
    }
  }

  lemma {:induction false} WithoutElements(list: seq<Did>, d: Did)
    ensures forall x :: x in Without(list, d) <==> x in list && x != d
    ensures |Without(list, d)| <= |list|
  {
    if list != [] {
      WithoutElements(list[1..], d);
      assert list == [list[0]] + list[1..];
    }
  }

  /** In any list exactly the occurrences of `d` go; all else stays in order, repetitions too. */
  lemma {:induction false} WithoutOfConcat(a: seq<Did>, b: seq<Did>, d: Did)
    ensures Without(a + b, d) == Without(a, d) + Without(b, d)
    ensures |a| == 1 ==> Without(a, d) == if a[0] == d then [] else a
  {
    if a == [] {
      assert a + b == b;
    } else {
      WithoutOfConcat(a[1..], b, d);
      assert (a + b)[1..] == a[1..] + b && (a + b)[0] == a[0];
    }
  }

  lemma {:induction false} RemoveKeepsWellFormed(n: Did, max: nat, list: seq<Did>, d: Did)
    requires WellFormed(n, max, list)
    ensures WellFormed(n, max, Without(list, d))
  {
    WithoutElements(list, d);
    if list != [] {
      RemoveKeepsWellFormed(n, max, list[1..], d);
      WithoutElements(list[1..], d);
      var rest := Without(list[1..], d);
      forall i | 0 <= i < |rest| ensures Dist(n, list[0]) < Dist(n, rest[i]) {
        assert rest[i] in rest;
        var j :| 0 <= j < |list[1..]| && list[1..][j] == rest[i];
        assert list[j + 1] == rest[i];
      }
    }
  }

  // ---------- the list as it lives in a node ----------

  class SuccessorSeq {
    const did: Did
    const max: nat
    var successors: seq<Did>

    constructor (did: Did, max: nat)
      requires max < 256
      ensures this.did == did && this.max == max && successors == []
      ensures NearestOf(did, max, successors, {})
    {
      this.did := did;
      this.max := max;
      successors := [];
    }

    predicate Full()
      reads this
    {
      IsFull(max, successors)
    }

    function Min(): Did
      reads this
    {
      MinOf(did, successors)
    }

    function Max(): Did
      reads this
    {
      MaxOf(did, successors)
    }

    /** A list of the nearest ids of a set becomes the list of the nearest ids of the set with `s`. */
    method Update(s: Did)
      modifies this
      ensures successors == Updated(did, max, old(successors), s)
      ensures WellFormed(did, max, old(successors)) ==> WellFormed(did, max, successors)
      ensures forall ids :: NearestOf(did, max, old(successors), ids) ==> NearestOf(did, max, successors, ids + {s})
    {
      if WellFormed(did, max, successors) {
        UpdateKeepsWellFormed(did, max, successors, s);
      }
      forall ids | NearestOf(did, max, successors, ids)
        ensures NearestOf(did, max, Updated(did, max, successors, s), ids + {s})
      {
        UpdateKeepsNearest(did, max, successors, ids, s);
      }
      if s in successors || s == did {
        return;
      }
      successors := successors + [s];
      successors := SortRing(did, successors);
      successors := Truncate(successors, max);
    }

    /** Exactly `d` goes, and the order stays. */
    method Remove(d: Did)
      modifies this
      ensures successors == Without(old(successors), d)
      ensures forall x :: x in successors <==> x in old(successors) && x != d
      ensures WellFormed(did, max, old(successors)) ==> WellFormed(did, max, successors)
    {
      WithoutElements(successors, d);
      if WellFormed(did, max, successors) {
        RemoveKeepsWellFormed(did, max, successors, d);
      }
      successors := Without(successors, d);
    }
  }
}
