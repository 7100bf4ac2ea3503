/** Periodic finger fixing, and where the nearest finger and the nearest successor part company. */
module FixFingers {
  import opened Wrappers
  import opened Ring
  import opened Fingers
  import opened Successors
  import opened Chord

  /** `k` calls of `fix_fingers` in a row, whatever each of them finds. */
  function FixRun(p: Peer, k: nat): Peer {
    if k == 0 then p else FixPeer(FixRun(p, k - 1)).0
  }

  /** One call moves the counter, may write one slot, and touches nothing else. */
  lemma FixFrame(p: Peer)
    ensures FixPeer(p).0 == p.(fixIndex := NextFix(p.fixIndex), fingers := FixPeer(p).0.fingers)
  {
  }

  lemma {:induction false} FixRunIndex(p: Peer, k: nat)
    requires p.fixIndex < 159 && k <= 159
    ensures FixRun(p, k).fixIndex == if p.fixIndex + k < 159 then p.fixIndex + k else p.fixIndex + k - 159
  {
    if k > 0 {
      FixRunIndex(p, k - 1);
      FixFrame(FixRun(p, k - 1));
    }
  }

  /** Among any 159 calls in a row, each of the slots 0 to 158 has its turn exactly once. */
  lemma FixVisitsEverySlotOnce(p: Peer, slot: nat) returns (k: nat)
    requires p.fixIndex < 159 && slot < 159
    ensures 1 <= k <= 159
    ensures forall j: nat :: 1 <= j <= 159 ==> (FixRun(p, j).fixIndex == slot <==> j == k)
  {
    k := if slot > p.fixIndex then slot - p.fixIndex else slot + 159 - p.fixIndex;
    forall j: nat | 1 <= j <= 159 ensures FixRun(p, j).fixIndex == slot <==> j == k {
      FixRunIndex(p, j);
    }
  }

  /** In a node that knows `ids`, a fixing call leaves every slot as it is exactly if there is a successor. */
  lemma FixWritesKnownValueIff(p: Peer, ids: set<Did>)
    requires Knows(p, ids) && p.fixIndex < 159
    ensures FixPeer(p).0.fingers == p.fingers <==> p.successors != []
  {
    var index := NextFix(p.fixIndex);
    RingLaws(p.did, Pos(index));
    if p.successors == [] {
      IndexShape(p.did, p.fingers, ids);
      assert FixPeer(p).0.fingers[index] == Some(p.did);
    } else {
      var s := p.successors[0];
      assert s in p.successors;
      if Pos(index) <= Dist(p.did, s) {
        assert IsNearest(p.did, ids, index, p.fingers[index]);
        var v := p.fingers[index].value;
        DistSplit(p.did, p.did, v);
        MinIsNearest(p, ids, v);
        DistSplit(p.did, s, v);
      }
    }
  }

  /** The same after any joins and removals, as long as the nearest successor is the first finger. */
  lemma FixKeepsSlotsIff(p: Peer, live: set<Did>)
    requires PeerInv(p, live) && Agree(p) && p.fixIndex < 159
    ensures FixPeer(p).0.fingers == p.fingers <==> p.successors != []
  {
    var index := NextFix(p.fixIndex);
    RingLaws(p.did, Pos(index));
    FirstIsSlot0(p.did, p.fingers, Members(p.fingers));
    IndexShape(p.did, p.fingers, Members(p.fingers));
    assert IsNearest(p.did, Members(p.fingers), index, p.fingers[index]);
    if p.successors == [] {
      assert FixPeer(p).0.fingers[index] == Some(p.did);
    } else {
      MemberSlot(p.fingers, p.successors[0]);
      if Pos(index) <= Dist(p.did, p.successors[0]) {
        DistSplit(p.did, p.successors[0], p.fingers[index].value);
      }
    }
  }

  /**
   * In any state, a fixing call that can answer itself writes the answer into the slot whose turn it is: the
   * nearest successor if it is at least 2^index away, the node's own id if there is none.
   */
  lemma FixWritesAnswer(p: Peer)
    requires |p.fingers| == 160 && p.fixIndex < 159
    ensures var (q, action) := FixPeer(p); var index := if p.fixIndex == 158 then 0 else p.fixIndex + 1;
      && q == p.(fixIndex := index, fingers := q.fingers)
      && (p.successors == [] ==> action == NoAction && q.fingers == p.fingers[index := Some(p.did)])
      && (p.successors != [] && Pow2(index) <= Dist(p.did, p.successors[0]) ==>
           action == NoAction && q.fingers == p.fingers[index := Some(p.successors[0])])
      && (p.successors != [] && Pow2(index) > Dist(p.did, p.successors[0]) ==>
           action.Remote? && q.fingers == p.fingers)
  {
    RingLaws(p.did, Pos(NextFix(p.fixIndex)));
  }

  /** A fixing call that cannot answer itself asks a node on the way about the id 2^index further on. */
  lemma FixAsksForSlot(p: Peer)
    requires p.fixIndex < 159
    ensures var (q, action) := FixPeer(p);
      match action
      case Remote(a, FindSuccessorForFix(d)) =>
        && Dist(p.did, d) == Pow2(q.fixIndex) && q.fingers == p.fingers
        && a == Closest(p.did, p.fingers, d) && p.successors != [] && Dist(p.did, p.successors[0]) < Dist(p.did, d)
      case _ => action == NoAction
  {
    RingLaws(p.did, Pos(NextFix(p.fixIndex)));
  }

  datatype JoinOrFix = Join(d: Did) | Fix

  /** Joins with fixing calls in between; a fixing call is only made while there is a successor. */
  function MixedRun(n: Did, max: nat, ops: seq<JoinOrFix>): Option<Peer> {
    if ops == [] then Some(NewPeer(n, max))
    else
      match MixedRun(n, max, ops[..|ops| - 1])
      case None => None
      case Some(p) =>
        match ops[|ops| - 1]
        case Join(d) => Some(JoinPeer(p, d))
        case Fix => if p.successors == [] then None else Some(FixPeer(p).0)
  }

  function JoinsOf(ops: seq<JoinOrFix>): seq<Did> {
    if ops == [] then []
    else
      var front := JoinsOf(ops[..|ops| - 1]);
      match ops[|ops| - 1]
      case Join(d) => front + [d]
      case Fix => front
  }

  /** Local fixing changes nothing but the counter: the node is the one the joins alone produce. */
  lemma {:induction false} FixingIsSilent(n: Did, max: nat, ops: seq<JoinOrFix>)
    requires max < 256 && MixedRun(n, max, ops).Some?
    ensures var p := MixedRun(n, max, ops).value;
      p == JoinAll(n, max, JoinsOf(ops)).(fixIndex := p.fixIndex) && p.fixIndex < 159
  {
    if ops != [] {
      var front := ops[..|ops| - 1];
      FixingIsSilent(n, max, front);
      var p := MixedRun(n, max, front).value;
      match ops[|ops| - 1]
      case Join(d) =>
        JoinIgnoresCounter(JoinAll(n, max, JoinsOf(front)), p.fixIndex, d);
        JoinAllAppend(n, max, JoinsOf(front), d);
      case Fix =>
        JoinAllKnows(n, max, JoinsOf(front));
        FixKeepsKnowing(p, IdSet(JoinsOf(front)));
    }
  }

  lemma JoinIgnoresCounter(p: Peer, index: nat, d: Did)
    ensures JoinPeer(p.(fixIndex := index), d) == JoinPeer(p, d).(fixIndex := index)
  {
  }

  lemma JoinAllAppend(n: Did, max: nat, ds: seq<Did>, d: Did)
    ensures JoinAll(n, max, ds + [d]) == JoinPeer(JoinAll(n, max, ds), d)
  {
    assert (ds + [d])[..|ds|] == ds;
  }

  lemma FixKeepsKnowing(p: Peer, ids: set<Did>)
    requires Knows(p, ids) && p.fixIndex < 159 && p.successors != []
    ensures FixPeer(p).0 == p.(fixIndex := NextFix(p.fixIndex)) && NextFix(p.fixIndex) < 159
  {
    FixFrame(p);
    FixWritesKnownValueIff(p, ids);
  }

  /** Without a successor the fixing call writes the node's own id into its table. */
  lemma FixOfEmptyNode(n: Did, max: nat)
    requires max < 256
    ensures FixPeer(NewPeer(n, max)).0.fingers[1] == Some(n)
  {
  }

  // ---------- nearest finger and nearest successor ----------

  predicate Agree(p: Peer) {
    First(p.fingers) == if p.successors == [] then None else Some(p.successors[0])
  }

  /** The first id in the slots that is not `x`. */
  function FirstOther(fs: Slots, x: Option<Did>): Option<Did> {
    if fs == [] then None else if fs[0] != x then fs[0] else FirstOther(fs[1..], x)
  }

  lemma {:induction false} FirstOtherIsBehindRun(fs: Slots, x: Option<Did>, end: nat)
    requires end <= |fs|
    requires forall k :: 0 <= k < |fs| ==> (fs[k] == x <==> k < end)
    ensures FirstOther(fs, x) == SlotAt(fs, end)
  {
    if end > 0 {
      FirstOtherIsBehindRun(fs[1..], x, end - 1);
    }
  }

  /**
   * A removal keeps the nearest finger equal to the nearest successor exactly if it removes another id,
   * or there is no second successor, or the second successor is also the second finger.
   */
  lemma RemoveKeepsAgreementIff(p: Peer, live: set<Did>, d: Did)
    requires PeerInv(p, live) && Agree(p) && p.max > 0 && p.successors != []
    ensures Agree(RemovePeer(p, d)) <==>
      d != p.successors[0] || |p.successors| == 1 || FirstOther(p.fingers, Some(d)) == Some(p.successors[1])
  {
    FirstIsSlot0(p.did, p.fingers, Members(p.fingers));
    if d == p.successors[0] {
      RemoveNearest(p, live, d);
    } else {
      RemoveOther(p, live, d);
    }
  }

  lemma RemoveOther(p: Peer, live: set<Did>, d: Did)
    requires PeerInv(p, live) && p.successors != [] && p.fingers[0] == Some(p.successors[0]) && d != p.successors[0]
    ensures Agree(RemovePeer(p, d))
  {
    RemoveKeepsIndex(p.did, p.fingers, d);
    FirstIsSlot0(p.did, Removed(p.fingers, d), Members(p.fingers) - {d});
    if Some(d) in p.fingers {
      var first, end := RemovedRun(p.did, p.fingers, d);
    }
  }

  lemma RemoveNearest(p: Peer, live: set<Did>, d: Did)
    requires PeerInv(p, live) && p.max > 0 && p.successors != [] && p.fingers[0] == Some(d) && d == p.successors[0]
    ensures Agree(RemovePeer(p, d)) <==> |p.successors| == 1 || FirstOther(p.fingers, Some(d)) == Some(p.successors[1])
  {
    var r := Removed(p.fingers, d);
    var first, end := RemovedRun(p.did, p.fingers, d);
    FirstOtherIsBehindRun(p.fingers, Some(d), end);
    RemoveKeepsIndex(p.did, p.fingers, d);
    FirstIsSlot0(p.did, r, Members(p.fingers) - {d});
    SecondStays(p.did, p.max, p.successors);
    FirstIsMember(p.did, r);
    if First(r).Some? {
      UpdateOfNone(p.did, p.max, First(r).value);
    }
  }

  lemma SecondStays(n: Did, max: nat, list: seq<Did>)
    requires WellFormed(n, max, list) && list != []
    ensures Without(list, list[0]) == list[1..]
  {
    forall i | 0 <= i < |list[1..]| ensures list[1..][i] != list[0] {
      assert Dist(n, list[0]) < Dist(n, list[i + 1]);
    }
    NothingToDrop(list[1..], list[0]);
  }

  lemma {:induction false} NothingToDrop(list: seq<Did>, d: Did)
    requires forall i :: 0 <= i < |list| ==> list[i] != d
    ensures Without(list, d) == list
  {
    if list != [] {
      NothingToDrop(list[1..], d);
    }
  }

  /** A join keeps the nearest finger equal to the nearest successor. */
  lemma JoinKeepsAgreement(p: Peer, live: set<Did>, d: Did)
    requires PeerInv(p, live) && Agree(p) && p.max > 0
    ensures Agree(JoinPeer(p, d))
  {
    if d != p.did {
      JoinKeepsIndex(p.did, p.fingers, Members(p.fingers), d);
      FirstIsSlot0(p.did, p.fingers, Members(p.fingers));
      FirstIsSlot0(p.did, JoinPeer(p, d).fingers, Members(p.fingers) + {d});
      JoinIsUpdate(p, d);
      UpdatedHead(p.did, p.max, p.successors, d);
      DistSplit(p.did, p.did, d);
      assert Pos(0) == 1;
    }
  }

  /** The removals that make the nearest finger and the nearest successor differ. */
  predicate Parts(p: Peer, op: PeerOp) {
    op.RemoveNode? && |p.successors| > 1 && op.d == p.successors[0]
    && FirstOther(p.fingers, Some(op.d)) != Some(p.successors[1])
  }

  lemma StepKeepsAgreementIff(p: Peer, live: set<Did>, op: PeerOp)
    requires PeerInv(p, live) && Agree(p) && p.max > 0
    ensures Agree(PeerStep(p, op)) <==> !Parts(p, op)
  {
    match op
    case JoinNode(d) => JoinKeepsAgreement(p, live, d);
    case NotifiedBy(d) =>
    case RemoveNode(d) =>
      if p.successors != [] {
        RemoveKeepsAgreementIff(p, live, d);
      } else {
        RemoveOfNothing(p, live, d);
      }
  }

  lemma RemoveOfNothing(p: Peer, live: set<Did>, d: Did)
    requires PeerInv(p, live) && Agree(p) && p.successors == []
    ensures Agree(RemovePeer(p, d))
  {
    FirstMember(p.fingers);
    assert IndexesOf(p.fingers, Some(d)) == [];
  }

  /** No step of the run was a removal of that kind. */
  predicate NeverParts(n: Did, max: nat, ops: seq<PeerOp>) {
    ops == [] ||
    (NeverParts(n, max, ops[..|ops| - 1]) && !Parts(PeerRun(n, max, ops[..|ops| - 1]), ops[|ops| - 1]))
  }

  /** All along a run the nearest successor is the first finger exactly if no step was such a removal. */
  lemma {:induction false} AgreementOverRuns(n: Did, max: nat, ops: seq<PeerOp>)
    requires 0 < max < 256
    ensures (forall k :: 0 <= k <= |ops| ==> Agree(PeerRun(n, max, ops[..k]))) <==> NeverParts(n, max, ops)
  {
    assert ops[..|ops|] == ops;
    if ops == [] {
      FirstOfNew(n, FINGER_SIZE);
    } else {
      var front := ops[..|ops| - 1];
      AgreementOverRuns(n, max, front);
      PeerRunInv(n, max, front);
      assert forall k :: 0 <= k < |ops| ==> ops[..k] == front[..k];
      if Agree(PeerRun(n, max, front)) {
        StepKeepsAgreementIff(PeerRun(n, max, front), Live(front), ops[|ops| - 1]);
      }
    }
  }

  lemma FirstOfNew(n: Did, size: nat)
    ensures First(Run(n, size, [])) == None
  {
    NoFirst(seq(size, _ => None));
  }

  // ---------- what disagreement means for routing ----------

  /** Some finger lies strictly before the key. */
  ghost predicate HasFingerBefore(p: Peer, key: Did) {
    exists m :: m in Members(p.fingers) && Dist(p.did, m) < Dist(p.did, key)
  }

  /** A node passes a lookup on to another node exactly if one of its fingers lies strictly before the key. */
  lemma ForwardLeavesIff(p: Peer, live: set<Did>, key: Did)
    requires PeerInv(p, live) && FindSuccessorOf(p, key).Remote?
    ensures FindSuccessorOf(p, key).next != p.did <==> HasFingerBefore(p, key)
  {
    var next := FindSuccessorOf(p, key).next;
    ClosestIsFarthestBefore(p.did, p.fingers, Members(p.fingers), key);
    IndexShape(p.did, p.fingers, Members(p.fingers));
    MemberSlot(p.fingers, p.did);
    if m :| m in Members(p.fingers) && Dist(p.did, m) < Dist(p.did, key) {
      DistSplit(p.did, p.did, m);
    }
  }

  /** Where finger and successor agree, a forward always leaves the node. */
  lemma AgreementForwardsOn(p: Peer, live: set<Did>, key: Did)
    requires PeerInv(p, live) && Agree(p) && FindSuccessorOf(p, key).Remote?
    ensures FindSuccessorOf(p, key).next != p.did
  {
    FirstMember(p.fingers);
    MemberSlot(p.fingers, p.successors[0]);
    ForwardLeavesIff(p, live, key);
  }

  /**
   * Joining ids at distances 4, 5 and 6 and removing the first leaves two successors and no finger. A lookup
   * beyond the nearest successor is then passed on to the node itself.
   */
  lemma AgreementMayBreak(joins: seq<Did>)
    requires joins == [4, 5, 6]
    ensures var p := RemovePeer(JoinAll(0, 3, joins), 4);
      && p.successors == [5, 6] && First(p.fingers) == None && !Agree(p)
      && FindSuccessorOf(p, 6) == Remote(0, FindSuccessor(6))
  {
    JoinAllKnows(0, 3, joins);
    assert IdSet(joins) == {4, 5, 6};
    ExampleBreaks(JoinAll(0, 3, joins), joins);
  }

  lemma ExampleBreaks(p: Peer, joins: seq<Did>)
    requires joins == [4, 5, 6] && p.did == 0 && p.max == 3 && Knows(p, {4, 5, 6})
    ensures RemovePeer(p, 4).successors == [5, 6] && First(RemovePeer(p, 4).fingers) == None
    ensures FindSuccessorOf(RemovePeer(p, 4), 6) == Remote(0, FindSuccessor(6))
  {
    NearestUnique(0, 3, p.successors, joins, {4, 5, 6});
    SecondStays(0, 3, joins);
    OneBucket(p.fingers);
    FirstMember(RemovePeer(p, 4).fingers);
    ClosestOfNothing(0, RemovePeer(p, 4).fingers, 6);
  }

  lemma ClosestOfNothing(n: Did, fs: Slots, d: Did)
    requires forall k :: 0 <= k < |fs| ==> fs[k].None?
    ensures Closest(n, fs, d) == n
  {
    ClosestHighest(n, fs, d);
  }

  lemma OneBucket(fs: Slots)
    requires IndexOf(0, fs, {4, 5, 6})
    ensures First(Removed(fs, 4)) == None
  {
    forall v | v in Members(fs) ensures v == 4 {
      MemberSlot(fs, v);
      var k :| 0 <= k < |fs| && fs[k] == Some(v);
      assert IsNearest(0, {4, 5, 6}, k, fs[k]);
      assert Pow2(2) == 4 && Pow2(3) == 8;
      Pow2Monotone(if k < 3 then k else 3, if k < 3 then 2 else k);
    }
    IndexOfMembers(0, fs, {4, 5, 6});
    RemoveKeepsIndex(0, fs, 4);
    NoMembersNoFirst(Removed(fs, 4));
  }

  lemma NoMembersNoFirst(fs: Slots)
    requires Members(fs) == {}
    ensures First(fs) == None
  {
    FirstMember(fs);
    if First(fs).Some? {
      MemberSlot(fs, First(fs).value);
    }
  }
}
