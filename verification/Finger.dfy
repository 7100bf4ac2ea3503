/** The finger table: slot k points at the nearest known node at distance at least 2^k. */
module Fingers {
  import opened Wrappers
  import opened Ring

  type Slots = seq<Option<Did>>

  // ---------- what the operations do to the slots ----------

  /** Slot `k` after joining `d` to the table of `n`. */
  function JoinSlot(n: Did, k: nat, s: Option<Did>, d: Did): Option<Did> {
    if Dist(n, d) >= Pos(k) && (s.None? || Dist(n, d) < Dist(n, s.value)) then Some(d) else s
  }

  function Joined(n: Did, fs: Slots, d: Did): Slots {
    seq(|fs|, k requires 0 <= k < |fs| => JoinSlot(n, k, fs[k], d))
  }

  /** The slots holding `x`, in order. */
  function IndexesOf(fs: Slots, x: Option<Did>): (r: seq<nat>)
    ensures r == [] <==> x !in fs
    ensures r != [] ==> r[0] <= r[|r| - 1] < |fs| && fs[r[0]] == x && fs[r[|r| - 1]] == x
    ensures r != [] ==> forall k :: 0 <= k < |fs| && fs[k] == x ==> r[0] <= k <= r[|r| - 1]
  {
    if fs == [] then []
    else
      var k := |fs| - 1;
      if fs[k] == x then IndexesOf(fs[..k], x) + [k] else IndexesOf(fs[..k], x)
  }

  function Fill(fs: Slots, first: nat, end: nat, s: Option<Did>): Slots {
    seq(|fs|, k requires 0 <= k < |fs| => if first <= k < end then s else fs[k])
  }

  /** All slots from the first to the last one holding `d` take over the slot behind them. */
  function Removed(fs: Slots, d: Did): Slots {
    var indexes := IndexesOf(fs, Some(d));
    if indexes == [] then fs
    else
      var first, end := indexes[0], indexes[|indexes| - 1] + 1;
      Fill(fs, first, end, SlotAt(fs, end))
  }

  function SlotAt(fs: Slots, k: nat): Option<Did> {
    if k < |fs| then fs[k] else None
  }

  /** The first filled slot. */
  function First(fs: Slots): Option<Did> {
    if fs == [] || fs[0].Some? then SlotAt(fs, 0) else First(fs[1..])
  }

  /** Scans from the last slot down for an id strictly before `d`; the owner itself if there is none. */
  function Closest(n: Did, fs: Slots, d: Did): Did {
    if fs == [] then n
    else
      var s := fs[|fs| - 1];
      if s.Some? && Dist(n, s.value) < Dist(n, d) then s.value else Closest(n, fs[..|fs| - 1], d)
  }

  function Members(fs: Slots): set<Did> {
    set s | s in fs && s.Some? :: s.value
  }

  lemma MemberSlot(fs: Slots, v: Did)
    ensures v in Members(fs) <==> Some(v) in fs
  {
    if Some(v) in fs {
      assert Some(v).value in Members(fs);
    }
  }

  // ---------- what they do in any table, exact or not ----------

  /** `r` is what a slot at distance 2^k with entry `s` holds after joining `d`: the nearer one, if `d` is out there. */
  predicate JoinsSlot(n: Did, k: nat, s: Option<Did>, d: Did, r: Option<Did>) {
    && (r == s || r == Some(d))
    && (Pow2(k) <= Dist(n, d) ==> r.Some? && Dist(n, r.value) <= Dist(n, d))
    && (r != s ==> Pow2(k) <= Dist(n, d) && (s.None? || Dist(n, d) < Dist(n, s.value)))
  }

  lemma JoinedSlot(n: Did, fs: Slots, d: Did, k: nat)
    requires k < |fs| <= 160
    ensures |Joined(n, fs, d)| == |fs| && JoinsSlot(n, k, fs[k], d, Joined(n, fs, d)[k])
  {
    assert Pos(k) == Pow2(k);
  }

  /**
   * Everything from the first to the last slot with `d`, whatever stands between them, is replaced by the slot
   * behind the last one; nothing else changes.
   */
  lemma RemovedSpan(fs: Slots, d: Did) returns (first: nat, end: nat)
    ensures first <= end <= |fs| == |Removed(fs, d)| && (first == end <==> Some(d) !in fs)
    ensures first < end ==> fs[first] == Some(d) && fs[end - 1] == Some(d)
    ensures forall k :: 0 <= k < |fs| && fs[k] == Some(d) ==> first <= k < end
    ensures forall k :: 0 <= k < |fs| ==>
      Removed(fs, d)[k] == if first <= k < end then (if end < |fs| then fs[end] else None) else fs[k]
  {
    var indexes := IndexesOf(fs, Some(d));
    if indexes == [] {
      first, end := 0, 0;
    } else {
      first, end := indexes[0], indexes[|indexes| - 1] + 1;
    }
  }

  /** The first filled slot, in any table. */
  lemma {:induction false} FirstIsFirstFilled(fs: Slots)
    ensures First(fs).None? ==> forall k :: 0 <= k < |fs| ==> fs[k].None?
    ensures First(fs).Some? ==>
      exists k :: 0 <= k < |fs| && fs[k] == First(fs) && forall j :: 0 <= j < k ==> fs[j].None?
  {
    if fs != [] && fs[0].None? {
      FirstIsFirstFilled(fs[1..]);
      if First(fs).Some? {
        var k :| 0 <= k < |fs[1..]| && fs[1..][k] == First(fs) && forall j :: 0 <= j < k ==> fs[1..][j].None?;
        assert fs[k + 1] == First(fs);
        assert forall j :: 0 < j < k + 1 ==> fs[j] == fs[1..][j - 1];
      }
      assert fs == [fs[0]] + fs[1..];
    }
  }

  // ---------- the index property ----------

  /** `s` is the id of `ids` nearest to `n` among those at distance 2^k or more; None if there are none. */
  ghost predicate IsNearest(n: Did, ids: set<Did>, k: nat, s: Option<Did>) {
    match s
    case None => forall m :: m in ids ==> Dist(n, m) < Pow2(k)
    case Some(v) =>
      && v in ids && Pow2(k) <= Dist(n, v)
      && forall m :: m in ids && Pow2(k) <= Dist(n, m) ==> Dist(n, v) <= Dist(n, m)
  }

  /** The table is the index of `ids`: every slot holds exactly the id it should. */
  ghost predicate IndexOf(n: Did, fs: Slots, ids: set<Did>) {
    |fs| <= 160 && forall k :: 0 <= k < |fs| ==> IsNearest(n, ids, k, fs[k])
  }

  /** The index is a function of the id set. */
  lemma IndexUnique(n: Did, a: Slots, b: Slots, ids: set<Did>)
    requires IndexOf(n, a, ids) && IndexOf(n, b, ids) && |a| == |b|
    ensures a == b
  {
    forall k | 0 <= k < |a| ensures a[k] == b[k] {
      assert IsNearest(n, ids, k, a[k]) && IsNearest(n, ids, k, b[k]);
      if a[k].Some? && b[k].Some? {
        DistSplit(n, a[k].value, b[k].value);
      }
    }
  }

  lemma EmptyIndex(n: Did, size: nat)
    requires size <= 160
    ensures IndexOf(n, seq(size, _ => None), {})
  {
  }

  /** Joining adds one id to the indexed set. */
  lemma JoinKeepsIndex(n: Did, fs: Slots, ids: set<Did>, d: Did)
    requires IndexOf(n, fs, ids)
    ensures IndexOf(n, Joined(n, fs, d), ids + {d})
  {
    forall k | 0 <= k < |fs| ensures IsNearest(n, ids + {d}, k, Joined(n, fs, d)[k]) {
      assert IsNearest(n, ids, k, fs[k]);
      assert Pos(k) == Pow2(k);
    }
  }

  /** A table that indexes some set also indexes the ids it still holds. */
  lemma IndexOfMembers(n: Did, fs: Slots, ids: set<Did>)
    requires IndexOf(n, fs, ids)
    ensures IndexOf(n, fs, Members(fs)) && Members(fs) <= ids
  {
    forall v | v in Members(fs) ensures v in ids {
      MemberSlot(fs, v);
      var k :| 0 <= k < |fs| && fs[k] == Some(v);
      assert IsNearest(n, ids, k, fs[k]);
    }
    forall k | 0 <= k < |fs| ensures IsNearest(n, Members(fs), k, fs[k]) {
      assert IsNearest(n, ids, k, fs[k]);
      if fs[k].Some? {
        MemberSlot(fs, fs[k].value);
      }
    }
  }

  /** Filled slots form a prefix, distances never fall, equal ids are contiguous, the owner is absent. */
  lemma IndexShape(n: Did, fs: Slots, ids: set<Did>)
    requires IndexOf(n, fs, ids)
    ensures forall i, j :: 0 <= i < j < |fs| && fs[j].Some? ==>
      fs[i].Some? && Dist(n, fs[i].value) <= Dist(n, fs[j].value)
    ensures forall i, k, j :: 0 <= i < k < j < |fs| && fs[i].Some? && fs[i] == fs[j] ==> fs[k] == fs[i]
    ensures Some(n) !in fs
  {
    forall i, j | 0 <= i < j < |fs| && fs[j].Some?
      ensures fs[i].Some? && Dist(n, fs[i].value) <= Dist(n, fs[j].value)
    {
      assert IsNearest(n, ids, i, fs[i]) && IsNearest(n, ids, j, fs[j]);
      Pow2Monotone(i, j);
    }
    forall i, k, j | 0 <= i < k < j < |fs| && fs[i].Some? && fs[i] == fs[j] ensures fs[k] == fs[i] {
      DistSplit(n, fs[i].value, fs[k].value);
    }
    if k :| 0 <= k < |fs| && fs[k] == Some(n) {
      assert IsNearest(n, ids, k, fs[k]);
      assert Pow2(k) <= Dist(n, n);
    }
  }

  /** In any table at all, what is left after removing `d` was there before and is not `d`. */
  lemma RemovedMembers(fs: Slots, d: Did)
    ensures |Removed(fs, d)| == |fs| && Members(Removed(fs, d)) <= Members(fs) - {d}
  {
    var r := Removed(fs, d);
    forall v | v in Members(r) ensures v in Members(fs) - {d} {
      MemberSlot(r, v);
      MemberSlot(fs, v);
      var k :| 0 <= k < |r| && r[k] == Some(v);
      if IndexesOf(fs, Some(d)) != [] {
        var first, end := IndexesOf(fs, Some(d))[0], IndexesOf(fs, Some(d))[|IndexesOf(fs, Some(d))| - 1] + 1;
        RemovedIsFill(fs, d, first, end);
      }
    }
  }

  /** What removing does in a well formed table: the run of `d` is replaced by its right neighbour. */
  lemma RemovedRun(n: Did, fs: Slots, d: Did) returns (first: nat, end: nat)
    requires IndexOf(n, fs, Members(fs)) && Some(d) in fs
    ensures first < end <= |fs|
    ensures forall k :: 0 <= k < |fs| ==> (fs[k] == Some(d) <==> first <= k < end)
    ensures |Removed(fs, d)| == |fs|
    ensures forall k :: 0 <= k < |fs| ==> Removed(fs, d)[k] == if first <= k < end then SlotAt(fs, end) else fs[k]
  {
    first, end := RunOf(n, fs, d);
    RemovedIsFill(fs, d, first, end);
  }

  lemma RemovedIsFill(fs: Slots, d: Did, first: nat, end: nat)
    requires IndexesOf(fs, Some(d)) != []
    requires first == IndexesOf(fs, Some(d))[0] && end == IndexesOf(fs, Some(d))[|IndexesOf(fs, Some(d))| - 1] + 1
    ensures |Removed(fs, d)| == |fs|
    ensures forall k :: 0 <= k < |fs| ==> Removed(fs, d)[k] == if first <= k < end then SlotAt(fs, end) else fs[k]
  {
  }

  lemma RunOf(n: Did, fs: Slots, d: Did) returns (first: nat, end: nat)
    requires IndexOf(n, fs, Members(fs)) && Some(d) in fs
    ensures first < end <= |fs| && IndexesOf(fs, Some(d)) != []
    ensures first == IndexesOf(fs, Some(d))[0] && end == IndexesOf(fs, Some(d))[|IndexesOf(fs, Some(d))| - 1] + 1
    ensures forall k :: 0 <= k < |fs| ==> (fs[k] == Some(d) <==> first <= k < end)
  {
    var indexes := IndexesOf(fs, Some(d));
    first, end := indexes[0], indexes[|indexes| - 1] + 1;
    forall k | 0 <= k < |fs| ensures fs[k] == Some(d) <==> first <= k < end {
      if first < k < end - 1 {
        IndexShape(n, fs, Members(fs));
      }
    }
  }

  /** Removing takes exactly one id out of the indexed set. */
  lemma RemoveKeepsIndex(n: Did, fs: Slots, d: Did)
    requires IndexOf(n, fs, Members(fs))
    ensures IndexOf(n, Removed(fs, d), Members(fs) - {d})
    ensures Members(Removed(fs, d)) == Members(fs) - {d}
  {
    MemberSlot(fs, d);
    if Some(d) in fs {
      var first, end := RemovedRun(n, fs, d);
      forall k | 0 <= k < |fs| ensures IsNearest(n, Members(fs) - {d}, k, Removed(fs, d)[k]) {
        assert IsNearest(n, Members(fs), k, fs[k]);
        if first <= k < end {
          RemovedSlot(n, fs, d, first, end, k);
        }
      }
      IndexOfMembers(n, Removed(fs, d), Members(fs) - {d});
      forall v | v in Members(fs) && v != d ensures v in Members(Removed(fs, d)) {
        MemberSlot(fs, v);
        var k :| 0 <= k < |fs| && fs[k] == Some(v);
        assert Removed(fs, d)[k] == Some(v);
        MemberSlot(Removed(fs, d), v);
      }
    } else {
      assert IndexesOf(fs, Some(d)) == [];
    }
  }

  lemma RemovedSlot(n: Did, fs: Slots, d: Did, first: nat, end: nat, k: nat)
    requires IndexOf(n, fs, Members(fs))
    requires first <= k < end <= |fs|
    requires forall i :: 0 <= i < |fs| ==> (fs[i] == Some(d) <==> first <= i < end)
    ensures IsNearest(n, Members(fs) - {d}, k, SlotAt(fs, end))
  {
    var s := SlotAt(fs, end);
    Pow2Monotone(k, end);
    if s.Some? {
      MemberSlot(fs, s.value);
      assert IsNearest(n, Members(fs), end, fs[end]);
    }
    forall m | m in Members(fs) - {d} && Pow2(k) <= Dist(n, m)
      ensures s.Some? && Dist(n, s.value) <= Dist(n, m)
    {
      MemberSlot(fs, m);
      var j :| 0 <= j < |fs| && fs[j] == Some(m);
      assert IsNearest(n, Members(fs), k, fs[k]);
      FartherIsBehind(n, fs, d, end, j);
    }
  }

  /** A finger farther than the last of the run of `d` sits behind the run, and so nothing behind it is nearer. */
  lemma FartherIsBehind(n: Did, fs: Slots, d: Did, end: nat, j: nat)
    requires IndexOf(n, fs, Members(fs)) && 0 < end <= |fs| && j < |fs|
    requires fs[end - 1] == Some(d) && fs[j].Some? && fs[j].value != d && Dist(n, d) <= Dist(n, fs[j].value)
    ensures end <= j && fs[end].Some? && Dist(n, fs[end].value) <= Dist(n, fs[j].value)
  {
    DistSplit(n, d, fs[j].value);
    IndexShape(n, fs, Members(fs));
  }

  // ---------- runs ----------

  datatype Op = JoinOp(d: Did) | RemoveOp(d: Did)

  function Step(n: Did, fs: Slots, op: Op): Slots {
    match op
    case JoinOp(d) => Joined(n, fs, d)
    case RemoveOp(d) => Removed(fs, d)
  }

  /** The table of `n` after `new(n, size)` and then `ops`. */
  function Run(n: Did, size: nat, ops: seq<Op>): Slots {
    if ops == [] then seq(size, _ => None)
    else Step(n, Run(n, size, ops[..|ops| - 1]), ops[|ops| - 1])
  }

  /** After any run, each slot holds exactly the nearest table member at distance 2^k or more. */
  lemma {:induction false} RunIsIndex(n: Did, size: nat, ops: seq<Op>)
    requires size <= 160
    ensures |Run(n, size, ops)| == size
    ensures IndexOf(n, Run(n, size, ops), Members(Run(n, size, ops)))
  {
    if ops == [] {
      EmptyIndex(n, size);
      IndexOfMembers(n, Run(n, size, ops), {});
    } else {
      var fs := Run(n, size, ops[..|ops| - 1]);
      RunIsIndex(n, size, ops[..|ops| - 1]);
      match ops[|ops| - 1]
      case JoinOp(d) =>
        JoinKeepsIndex(n, fs, Members(fs), d);
        IndexOfMembers(n, Joined(n, fs, d), Members(fs) + {d});
      case RemoveOp(d) =>
        RemoveKeepsIndex(n, fs, d);
    }
  }

  /** In every reachable table the order of the slots is the order of the ring. */
  lemma RunShape(n: Did, size: nat, ops: seq<Op>)
    requires size <= 160
    ensures var fs := Run(n, size, ops);
      && (forall i, j :: 0 <= i < j < |fs| && fs[j].Some? ==>
           fs[i].Some? && Dist(n, fs[i].value) <= Dist(n, fs[j].value))
      && (forall i, k, j :: 0 <= i < k < j < |fs| && fs[i].Some? && fs[i] == fs[j] ==> fs[k] == fs[i])
      && Some(n) !in fs
  {
    RunIsIndex(n, size, ops);
    IndexShape(n, Run(n, size, ops), Members(Run(n, size, ops)));
  }

  // ---------- what the queries mean ----------

  /** In an indexed table the first filled slot is slot 0. */
  lemma FirstIsSlot0(n: Did, fs: Slots, ids: set<Did>)
    requires IndexOf(n, fs, ids)
    ensures First(fs) == SlotAt(fs, 0)
  {
    IndexShape(n, fs, ids);
    if fs != [] && fs[0].None? {
      NoFirst(fs);
    }
  }

  lemma {:induction false} NoFirst(fs: Slots)
    requires forall k :: 0 <= k < |fs| ==> fs[k].None?
    ensures First(fs).None?
  {
    if fs != [] {
      NoFirst(fs[1..]);
    }
  }

  lemma {:induction false} FirstMember(fs: Slots)
    ensures First(fs).Some? ==> First(fs) in fs
    ensures First(fs).None? ==> forall k :: 0 <= k < |fs| ==> fs[k].None?
  {
    if fs != [] && fs[0].None? {
      FirstMember(fs[1..]);
      assert fs == [fs[0]] + fs[1..];
    }
  }

  /** `c` is what the highest slot strictly before `d` holds, or the owner if there is no such slot. */
  ghost predicate HighestBefore(n: Did, fs: Slots, d: Did, c: Did) {
    || (c == n && forall k :: 0 <= k < |fs| && fs[k].Some? ==> Dist(n, fs[k].value) >= Dist(n, d))
    || exists i :: 0 <= i < |fs| && fs[i] == Some(c) && Dist(n, c) < Dist(n, d)
         && forall k :: i < k < |fs| && fs[k].Some? ==> Dist(n, fs[k].value) >= Dist(n, d)
  }

  /** In any table `closest` answers from the highest slot that lies strictly before `d`. */
  lemma {:induction false} ClosestHighest(n: Did, fs: Slots, d: Did)
    ensures HighestBefore(n, fs, d, Closest(n, fs, d))
  {
    if fs != [] {
      var last := |fs| - 1;
      if fs[last].Some? && Dist(n, fs[last].value) < Dist(n, d) {
        assert fs[last] == Some(Closest(n, fs, d));
      } else {
        ClosestHighest(n, fs[..last], d);
        assert forall k :: 0 <= k < last ==> fs[..last][k] == fs[k];
      }
    }
  }

  /** In an indexed table `closest` is the farthest member strictly before `d`, or the owner. */
  lemma ClosestIsFarthestBefore(n: Did, fs: Slots, ids: set<Did>, d: Did)
    requires IndexOf(n, fs, ids)
    ensures var c := Closest(n, fs, d);
      && (c in Members(fs) || c == n)
      && (c != n ==> Dist(n, c) < Dist(n, d))
      && forall m :: m in Members(fs) && Dist(n, m) < Dist(n, d) ==> Dist(n, m) <= Dist(n, c)
  {
    var c := Closest(n, fs, d);
    ClosestHighest(n, fs, d);
    IndexShape(n, fs, ids);
    MemberSlot(fs, c);
    forall m | m in Members(fs) && Dist(n, m) < Dist(n, d) ensures Dist(n, m) <= Dist(n, c) {
      MemberSlot(fs, m);
      var j :| 0 <= j < |fs| && fs[j] == Some(m);
    }
  }

  // ---------- the table as it lives in a node ----------

  class FingerTable {
    const did: Did
    const size: nat
    const finger: array<Option<Did>>
    var fixFingerIndex: nat

    ghost predicate Valid()
      reads this
    {
      finger.Length == size <= 160
    }

    function Slots(): Slots
      reads this, finger
    {
      finger[..]
    }

    constructor (did: Did, size: nat)
      requires size <= 160
      ensures Valid() && fresh(finger)
      ensures this.did == did && this.size == size && fixFingerIndex == 0
      ensures Slots() == Run(did, size, [])
    {
      this.did := did;
      this.size := size;
      finger := new Option<Did>[size](_ => None);
      fixFingerIndex := 0;
    }

    /** Writes one slot; an index past the end is ignored. */
    method Set(index: nat, d: Did)
      requires Valid()
      modifies finger
      ensures Slots() == if index < size then old(Slots())[index := Some(d)] else old(Slots())
    {
      if index >= finger.Length {
        return;
      }
      finger[index] := Some(d);
    }

    method SetFix(d: Did)
      requires Valid()
      modifies finger
      ensures Slots() == if fixFingerIndex < size then old(Slots())[fixFingerIndex := Some(d)] else old(Slots())
    {
      Set(fixFingerIndex, d);
    }

    method Remove(d: Did)
      requires Valid()
      modifies finger
      ensures Slots() == Removed(old(Slots()), d)
    {
      var indexes := IndexesOf(Slots(), Some(d));
      if indexes != [] {
        var first, end := indexes[0], indexes[|indexes| - 1] + 1;
        var fixId := SlotAt(Slots(), end);
        for idx := first to end
          invariant forall k :: 0 <= k < finger.Length ==>
            finger[k] == if first <= k < idx then fixId else old(finger[k])
        {
          finger[idx] := fixId;
        }
      }
    }

    method Join(d: Did)
      requires Valid()
      modifies finger
      ensures Slots() == Joined(did, old(Slots()), d)
      ensures forall k :: 0 <= k < size ==> JoinsSlot(did, k, old(finger[k]), d, finger[k])
    {
      forall k | 0 <= k < size ensures JoinsSlot(did, k, finger[k], d, JoinSlot(did, k, finger[k], d)) {
        JoinedSlot(did, Slots(), d, k);
      }
      for k := 0 to size
        invariant forall i :: 0 <= i < size ==>
          finger[i] == if i < k then JoinSlot(did, i, old(finger[i]), d) else old(finger[i])
      {
        if Dist(did, d) >= Pos(k) {
          match finger[k]
          case Some(v) =>
            if Dist(did, d) < Dist(did, v) {
              finger[k] := Some(d);
            }
          case None =>
            finger[k] := Some(d);
        }
      }
    }

    method ClosestPreceding(d: Did) returns (r: Did)
      requires Valid()
      ensures r == Closest(did, Slots(), d)
    {
      assert finger[..size] == Slots();
      for i := size downto 0
        invariant Closest(did, Slots(), d) == Closest(did, finger[..i], d)
      {
        assert finger[..i + 1][..i] == finger[..i];
        match finger[i]
        case Some(v) =>
          if Dist(did, v) < Dist(did, d) {
            return v;
          }
        case None =>
      }
      return did;
    }
  }
}
