/** One Chord node: what every operation does to its state, and what every run keeps. */
module Chord {
  import opened Wrappers
  import opened Ring
  import opened VNodes
  import opened Fingers
  import opened Successors

  datatype RemoteAction =
    | FindSuccessor(d: Did)
    | FindVNode(d: Did)
    | FindVNodeForOperate(op: VNodeOperation)
    | SyncVNodeWithSuccessor(data: seq<VirtualNode>)
    | FindSuccessorForConnect(d: Did)
    | FindSuccessorForFix(d: Did)

  datatype Action =
    | NoAction
    | SomeVNode(vnode: VirtualNode)
    | Found(d: Did)
    | Remote(next: Did, what: RemoteAction)

  /** The whole state of a node. */
  datatype Peer = Peer(
    did: Did,
    max: nat,
    fingers: Slots,
    fixIndex: nat,
    successors: seq<Did>,
    predecessor: Option<Did>,
    storage: map<Did, VirtualNode>,
    cache: map<Did, VirtualNode>)

  const FINGER_SIZE: nat := 160

  function NewPeer(did: Did, max: nat): Peer {
    Peer(did, max, Run(did, FINGER_SIZE, []), 0, [], None, map[], map[])
  }

  // ---------- the operations on values ----------

  function JoinPeer(p: Peer, d: Did): Peer {
    if d == p.did then p
    else p.(
      fingers := Joined(p.did, p.fingers, d),
      successors :=
        if Dist(p.did, d) < Dist(p.did, MaxOf(p.did, p.successors)) || !IsFull(p.max, p.successors)
        then Updated(p.did, p.max, p.successors, d)
        else p.successors)
  }

  function RemovePeer(p: Peer, d: Did): Peer {
    var fingers := Removed(p.fingers, d);
    var successors := Without(p.successors, d);
    p.(
      predecessor := if p.predecessor == Some(d) then None else p.predecessor,
      fingers := fingers,
      successors :=
        if successors == [] && First(fingers).Some? then Updated(p.did, p.max, [], First(fingers).value)
        else successors)
  }

  function FindSuccessorOf(p: Peer, d: Did): (a: Action)
    ensures a.Found? || (a.Remote? && a.what == FindSuccessor(d))
  {
    if p.successors == [] || Dist(p.did, d) <= Dist(p.did, MinOf(p.did, p.successors))
    then Found(MinOf(p.did, p.successors))
    else Remote(Closest(p.did, p.fingers, d), FindSuccessor(d))
  }

  /** The predecessor kept after being notified by `d`: the one met last going clockwise from `n`. */
  function Notified(n: Did, pre: Option<Did>, d: Did): Option<Did> {
    match pre
    case Some(current) => if Dist(n, current) < Dist(n, d) then Some(d) else pre
    case None => Some(d)
  }

  function NextFix(index: nat): nat {
    if index + 1 >= 159 then 0 else index + 1
  }

  function FixPeer(p: Peer): (Peer, Action) {
    var index := NextFix(p.fixIndex);
    match FindSuccessorOf(p, Add(p.did, Pos(index)))
    case Found(v) =>
      var fingers := if index < |p.fingers| then p.fingers[index := Some(v)] else p.fingers;
      (p.(fixIndex := index, fingers := fingers), NoAction)
    case Remote(a, FindSuccessor(d)) => (p.(fixIndex := index), Remote(a, FindSuccessorForFix(d)))
  }

  function LookupVNode(p: Peer, vid: Did): (a: Action)
    ensures a.SomeVNode? || a.NoAction? || (a.Remote? && a.what == FindVNode(vid))
  {
    match FindSuccessorOf(p, vid)
    case Remote(next, FindSuccessor(d)) => Remote(next, FindVNode(d))
    case Found(_) => if vid in p.storage then SomeVNode(p.storage[vid]) else NoAction
  }

  function OperateVNode(p: Peer, op: VNodeOperation): (Peer, Result<Action, VNodeError>) {
    var vid := op.vnode.did;
    match FindSuccessorOf(p, vid)
    case Remote(next, _) => (p, Ok(Remote(next, FindVNodeForOperate(op))))
    case Found(_) =>
      var current := if vid in p.storage then p.storage[vid] else DefaultVNode(op);
      match Operate(current, op)
      case Ok(v) => (p.(storage := p.storage[vid := v]), Ok(NoAction))
      case Err(e) => (p, Err(e))
  }

  // ---------- what they do in any state ----------

  /** A join reaches fingers and successors only, and the node's own id reaches nothing. */
  lemma JoinFrame(p: Peer, d: Did)
    ensures var q := JoinPeer(p, d); q == p.(fingers := q.fingers, successors := q.successors)
    ensures d == p.did ==> JoinPeer(p, d) == p
    ensures d != p.did ==> JoinPeer(p, d).fingers == Joined(p.did, p.fingers, d)
  {
  }

  /** A removal reaches predecessor, fingers and successors only: what is stored and cached stays. */
  lemma RemoveFrame(p: Peer, d: Did)
    ensures var q := RemovePeer(p, d);
      && q.did == p.did && q.max == p.max && q.fixIndex == p.fixIndex
      && q.storage == p.storage && q.cache == p.cache
      && q.predecessor == (if p.predecessor == Some(d) then None else p.predecessor)
      && q.fingers == Removed(p.fingers, d)
  {
  }

  /**
   * After a removal the other successors stay as they are. Only if there are none the first filled slot that is
   * left becomes the one successor, unless it holds the node's own id or the list may hold nothing.
   */
  lemma RemovedSuccessors(p: Peer, d: Did)
    ensures var list, first := RemovePeer(p, d).successors, First(Removed(p.fingers, d));
      if exists s :: s in p.successors && s != d then list == Without(p.successors, d)
      else if first.Some? && first.value != p.did && p.max > 0 then list == [first.value]
      else list == []
  {
    WithoutElements(p.successors, d);
    var rest, first := Without(p.successors, d), First(Removed(p.fingers, d));
    assert rest != [] ==> rest[0] in rest;
    if s :| s in p.successors && s != d {
      assert s in rest;
    } else {
      if first.Some? && first.value != p.did {
        RefillOfAny(p.did, p.max, first.value);
      }
    }
  }

  lemma RefillOfAny(n: Did, max: nat, s: Did)
    requires s != n
    ensures Updated(n, max, [], s) == if max > 0 then [s] else []
  {
    assert [] + [s] == [s];
    UpdatedIsNearestPart(n, max, [], s, [s]);
  }

  /**
   * A lookup ends here if there is no successor or the nearest one is not before the id. Else the node named is
   * in the highest slot strictly before the id, or is this node itself.
   */
  lemma FindSuccessorInAnyState(p: Peer, d: Did)
    ensures p.successors == [] ==> FindSuccessorOf(p, d) == Found(p.did)
    ensures p.successors != [] && Dist(p.did, d) <= Dist(p.did, p.successors[0]) ==>
      FindSuccessorOf(p, d) == Found(p.successors[0])
    ensures p.successors != [] && Dist(p.did, d) > Dist(p.did, p.successors[0]) ==>
      && FindSuccessorOf(p, d).Remote? && FindSuccessorOf(p, d).what == FindSuccessor(d)
      && HighestBefore(p.did, p.fingers, d, FindSuccessorOf(p, d).next)
  {
    ClosestHighest(p.did, p.fingers, d);
  }

  /** A value is looked for, and operated on, at the very node a lookup of its id leads to next. */
  lemma ValuesFollowLookups(p: Peer, op: VNodeOperation)
    ensures var vid := op.vnode.did;
      match FindSuccessorOf(p, vid)
      case Remote(next, _) =>
        && LookupVNode(p, vid) == Remote(next, FindVNode(vid))
        && OperateVNode(p, op) == (p, Ok(Remote(next, FindVNodeForOperate(op))))
      case Found(_) =>
        && LookupVNode(p, vid) == (if vid in p.storage then SomeVNode(p.storage[vid]) else NoAction)
        && OperateVNode(p, op) ==
             match Operate(if vid in p.storage then p.storage[vid] else VirtualNode(vid, [], op.vnode.kind), op)
             case Ok(v) => (p.(storage := p.storage[vid := v]), Ok(NoAction))
             case Err(e) => (p, Err(e))
  {
  }

  // ---------- single steps ----------

  /** The guard in `join` only skips updates that would change nothing. */
  lemma JoinIsUpdate(p: Peer, d: Did)
    requires WellFormed(p.did, p.max, p.successors) && d != p.did
    ensures JoinPeer(p, d).successors == Updated(p.did, p.max, p.successors, d)
  {
    var list := p.successors;
    if IsFull(p.max, list) && Dist(p.did, d) >= Dist(p.did, MaxOf(p.did, list)) && d !in list {
      var i := UpdatedShape(p.did, p.max, list, d);
    }
  }

  /** What every node state keeps under `join`, `remove` and `notify`. */
  ghost predicate PeerInv(p: Peer, live: set<Did>) {
    && |p.fingers| == FINGER_SIZE && IndexOf(p.did, p.fingers, Members(p.fingers))
    && WellFormed(p.did, p.max, p.successors)
    && Members(p.fingers) <= live
    && (forall s :: s in p.successors ==> s in live)
    && (p.successors == [] && p.max > 0 ==> Members(p.fingers) == {})
  }

  lemma JoinKeepsInv(p: Peer, live: set<Did>, d: Did)
    requires PeerInv(p, live)
    ensures PeerInv(JoinPeer(p, d), live + {d})
  {
    if d != p.did {
      JoinIsUpdate(p, d);
      JoinKeepsIndex(p.did, p.fingers, Members(p.fingers), d);
      IndexOfMembers(p.did, Joined(p.did, p.fingers, d), Members(p.fingers) + {d});
      UpdateKeepsWellFormed(p.did, p.max, p.successors, d);
      UpdatedElements(p.did, p.max, p.successors, d);
    }
  }

  lemma RemoveKeepsInv(p: Peer, live: set<Did>, d: Did)
    requires PeerInv(p, live)
    ensures PeerInv(RemovePeer(p, d), live - {d})
  {
    RemoveKeepsIndex(p.did, p.fingers, d);
    RemoveKeepsWellFormed(p.did, p.max, p.successors, d);
    WithoutElements(p.successors, d);
    RefillKeeps(p.did, p.max, Removed(p.fingers, d));
  }

  /** Refilling an empty list from the fingers. */
  lemma RefillKeeps(n: Did, max: nat, fs: Slots)
    requires IndexOf(n, fs, Members(fs)) && max < 256
    ensures First(fs).None? ==> Members(fs) == {}
    ensures First(fs).Some? ==>
      var list := Updated(n, max, [], First(fs).value);
      WellFormed(n, max, list) && (forall s :: s in list ==> s in Members(fs)) && (max > 0 ==> list != [])
  {
    FirstIsMember(n, fs);
    if First(fs).Some? {
      var x := First(fs).value;
      UpdateKeepsWellFormed(n, max, [], x);
      UpdatedElements(n, max, [], x);
    }
  }

  lemma FirstIsMember(n: Did, fs: Slots)
    requires IndexOf(n, fs, Members(fs))
    ensures First(fs).Some? ==> First(fs).value in Members(fs) && First(fs).value != n
    ensures First(fs).None? ==> Members(fs) == {}
  {
    FirstMember(fs);
    IndexShape(n, fs, Members(fs));
    if First(fs).Some? {
      MemberSlot(fs, First(fs).value);
    }
  }

  /** A removed id is gone from the fingers, the successors and the predecessor; every other id stays. */
  lemma RemoveForgets(p: Peer, live: set<Did>, d: Did)
    requires PeerInv(p, live)
    ensures var q := RemovePeer(p, d);
      && Members(q.fingers) == Members(p.fingers) - {d}
      && d !in q.successors && (forall s :: s in p.successors && s != d ==> s in q.successors)
      && q.predecessor == (if p.predecessor == Some(d) then None else p.predecessor)
  {
    RemoveKeepsInv(p, live, d);
    RemoveKeepsIndex(p.did, p.fingers, d);
    WithoutElements(p.successors, d);
  }

  /** If the last successor is removed, the nearest finger that is left takes its place. */
  lemma RemoveRefills(p: Peer, live: set<Did>, d: Did, m: Did)
    requires PeerInv(p, live) && p.max > 0 && (forall s :: s in p.successors ==> s == d)
    requires m in Members(p.fingers) && m != d
    ensures var q := RemovePeer(p, d);
      && |q.successors| == 1 && q.successors[0] in Members(p.fingers) - {d}
      && Dist(p.did, q.successors[0]) <= Dist(p.did, m)
  {
    var fs := Removed(p.fingers, d);
    RemoveKeepsIndex(p.did, p.fingers, d);
    assert forall i :: 0 <= i < |p.successors| ==> p.successors[i] in p.successors;
    DropAll(p.successors, d);
    FirstIsMember(p.did, fs);
    NearestFinger(p.did, fs, m);
    UpdateOfNone(p.did, p.max, First(fs).value);
  }

  lemma {:induction false} DropAll(list: seq<Did>, d: Did)
    requires forall i :: 0 <= i < |list| ==> list[i] == d
    ensures Without(list, d) == []
  {
    if list != [] {
      DropAll(list[1..], d);
    }
  }

  lemma NearestFinger(n: Did, fs: Slots, m: Did)
    requires IndexOf(n, fs, Members(fs)) && m in Members(fs)
    ensures First(fs).Some? && Dist(n, First(fs).value) <= Dist(n, m)
  {
    FirstIsSlot0(n, fs, Members(fs));
    MemberSlot(fs, m);
    IndexShape(n, fs, Members(fs));
    DistSplit(n, n, m);
    assert IsNearest(n, Members(fs), 0, fs[0]);
  }

  lemma UpdateOfNone(n: Did, max: nat, s: Did)
    requires max > 0 && s != n
    ensures Updated(n, max, [], s) == [s]
  {
    assert [] + [s] == [s];
    assert [s][..0] == [];
    assert SortRing(n, [s]) == Insert(n, SortRing(n, []), s) == [s];
  }

  // ---------- what fixing and reports keep as well ----------

  /** Kept by every operation, also by fixing, which may write the node's own id into a slot. */
  ghost predicate PeerSound(p: Peer, live: set<Did>) {
    && |p.fingers| == FINGER_SIZE && p.fixIndex < 159
    && WellFormed(p.did, p.max, p.successors)
    && Members(p.fingers) <= live + {p.did}
    && (forall s :: s in p.successors ==> s in live)
  }

  lemma JoinKeepsSound(p: Peer, live: set<Did>, d: Did)
    requires PeerSound(p, live)
    ensures PeerSound(JoinPeer(p, d), live + {d})
  {
    if d != p.did {
      JoinIsUpdate(p, d);
      UpdateKeepsWellFormed(p.did, p.max, p.successors, d);
      UpdatedElements(p.did, p.max, p.successors, d);
      forall v | v in Members(JoinPeer(p, d).fingers) ensures v == d || v in Members(p.fingers) {
        MemberSlot(JoinPeer(p, d).fingers, v);
        var k :| 0 <= k < |p.fingers| && Joined(p.did, p.fingers, d)[k] == Some(v);
        MemberSlot(p.fingers, v);
      }
    }
  }

  lemma RemoveKeepsSound(p: Peer, live: set<Did>, d: Did)
    requires PeerSound(p, live)
    ensures PeerSound(RemovePeer(p, d), live - {d})
  {
    var fs := Removed(p.fingers, d);
    RemovedMembers(p.fingers, d);
    RemoveKeepsWellFormed(p.did, p.max, p.successors, d);
    WithoutElements(p.successors, d);
    FirstMember(fs);
    if First(fs).Some? {
      MemberSlot(fs, First(fs).value);
      UpdateKeepsWellFormed(p.did, p.max, [], First(fs).value);
      UpdatedElements(p.did, p.max, [], First(fs).value);
    }
  }

  lemma FixKeepsSound(p: Peer, live: set<Did>)
    requires PeerSound(p, live)
    ensures PeerSound(FixPeer(p).0, live)
  {
    var q := FixPeer(p).0;
    assert p.successors != [] ==> p.successors[0] in p.successors;
    forall v | v in Members(q.fingers) ensures v in live + {p.did} {
      MemberSlot(q.fingers, v);
      var k :| 0 <= k < |q.fingers| && q.fingers[k] == Some(v);
      MemberSlot(p.fingers, v);
    }
  }

  /** Node `p` is told of a successor, not of a node it joined. */
  function ReportPeer(p: Peer, d: Did): Peer {
    p.(successors := Updated(p.did, p.max, p.successors, d))
  }

  lemma ReportKeepsSound(p: Peer, live: set<Did>, d: Did)
    requires PeerSound(p, live)
    ensures PeerSound(ReportPeer(p, d), live + {d})
    ensures PeerInv(p, live) ==> PeerInv(ReportPeer(p, d), live + {d})
  {
    UpdateKeepsWellFormed(p.did, p.max, p.successors, d);
    UpdatedElements(p.did, p.max, p.successors, d);
  }

  // ---------- runs of join, remove and notify ----------

  datatype PeerOp = JoinNode(d: Did) | RemoveNode(d: Did) | NotifiedBy(d: Did)

  function PeerStep(p: Peer, op: PeerOp): Peer {
    match op
    case JoinNode(d) => JoinPeer(p, d)
    case RemoveNode(d) => RemovePeer(p, d)
    case NotifiedBy(d) => p.(predecessor := Notified(p.did, p.predecessor, d))
  }

  function PeerRun(n: Did, max: nat, ops: seq<PeerOp>): Peer {
    if ops == [] then NewPeer(n, max)
    else PeerStep(PeerRun(n, max, ops[..|ops| - 1]), ops[|ops| - 1])
  }

  /** The ids joined and not removed since. */
  function Live(ops: seq<PeerOp>): set<Did> {
    if ops == [] then {}
    else
      var before := Live(ops[..|ops| - 1]);
      match ops[|ops| - 1]
      case JoinNode(d) => before + {d}
      case RemoveNode(d) => before - {d}
      case NotifiedBy(d) => before
  }

  /** Every reachable node: indexed fingers, ascending bounded successors, only live ids, never itself. */
  lemma {:induction false} PeerRunInv(n: Did, max: nat, ops: seq<PeerOp>)
    requires max < 256
    ensures PeerRun(n, max, ops).did == n && PeerRun(n, max, ops).max == max
    ensures PeerInv(PeerRun(n, max, ops), Live(ops))
  {
    if ops == [] {
      EmptyIndex(n, FINGER_SIZE);
      IndexOfMembers(n, NewPeer(n, max).fingers, {});
    } else {
      var p, live := PeerRun(n, max, ops[..|ops| - 1]), Live(ops[..|ops| - 1]);
      PeerRunInv(n, max, ops[..|ops| - 1]);
      match ops[|ops| - 1]
      case JoinNode(d) => JoinKeepsInv(p, live, d);
      case RemoveNode(d) => RemoveKeepsInv(p, live, d);
      case NotifiedBy(d) =>
    }
  }

  /** "No successors means no fingers" holds on every run exactly when the list may hold anything at all. */
  lemma EmptyTogetherIff(n: Did, max: nat)
    requires max < 256
    ensures (forall ops :: PeerRun(n, max, ops).successors == [] ==> Members(PeerRun(n, max, ops).fingers) == {})
            <==> max > 0
  {
    if max > 0 {
      forall ops ensures PeerRun(n, max, ops).successors == [] ==> Members(PeerRun(n, max, ops).fingers) == {} {
        PeerRunInv(n, max, ops);
      }
    } else {
      var d := Add(n, 1);
      RingLaws(n, 1);
      var ops := [JoinNode(d)];
      PeerRunInv(n, max, ops);
      assert ops[..0] == [];
      var p := PeerRun(n, max, ops);
      assert p == JoinPeer(NewPeer(n, max), d);
      assert Pos(0) == 1;
      assert p.fingers[0] == Some(d);
      MemberSlot(p.fingers, d);
    }
  }

  // ---------- join-only runs ----------

  function JoinAll(n: Did, max: nat, ds: seq<Did>): Peer {
    if ds == [] then NewPeer(n, max) else JoinPeer(JoinAll(n, max, ds[..|ds| - 1]), ds[|ds| - 1])
  }

  function IdSet(ds: seq<Did>): set<Did> {
    set d | d in ds
  }

  /** Fingers and successors know the nearest of `ids` in every respect they are made for. */
  ghost predicate Knows(p: Peer, ids: set<Did>) {
    && |p.fingers| == FINGER_SIZE && IndexOf(p.did, p.fingers, ids)
    && NearestOf(p.did, p.max, p.successors, ids)
  }

  lemma JoinKeepsKnows(p: Peer, ids: set<Did>, d: Did)
    requires Knows(p, ids)
    ensures Knows(JoinPeer(p, d), ids + {d})
  {
    if d == p.did {
      forall k | 0 <= k < |p.fingers| ensures IsNearest(p.did, ids + {d}, k, p.fingers[k]) {
        assert IsNearest(p.did, ids, k, p.fingers[k]);
      }
    } else {
      JoinIsUpdate(p, d);
      JoinKeepsIndex(p.did, p.fingers, ids, d);
      UpdateKeepsNearest(p.did, p.max, p.successors, ids, d);
    }
  }

  /** After any joins: slot k is the nearest joined id at distance 2^k or more, the list the nearest `max`. */
  lemma {:induction false} JoinAllKnows(n: Did, max: nat, ds: seq<Did>)
    requires max < 256
    ensures JoinAll(n, max, ds).did == n && JoinAll(n, max, ds).max == max
    ensures Knows(JoinAll(n, max, ds), IdSet(ds))
  {
    if ds == [] {
      EmptyIndex(n, FINGER_SIZE);
      assert IdSet(ds) == {};
    } else {
      JoinAllKnows(n, max, ds[..|ds| - 1]);
      JoinKeepsKnows(JoinAll(n, max, ds[..|ds| - 1]), IdSet(ds[..|ds| - 1]), ds[|ds| - 1]);
      assert ds == ds[..|ds| - 1] + [ds[|ds| - 1]];
      assert IdSet(ds) == IdSet(ds[..|ds| - 1]) + {ds[|ds| - 1]};
    }
  }

  lemma KnowsUnique(p: Peer, q: Peer, ids: set<Did>)
    requires Knows(p, ids) && Knows(q, ids) && p.did == q.did && p.max == q.max
    ensures p.fingers == q.fingers && p.successors == q.successors
  {
    IndexUnique(p.did, p.fingers, q.fingers, ids);
    NearestUnique(p.did, p.max, p.successors, q.successors, ids);
  }

  lemma {:induction false} JoinAllFrame(n: Did, max: nat, ds: seq<Did>)
    ensures var p := JoinAll(n, max, ds); p == NewPeer(n, max).(fingers := p.fingers, successors := p.successors)
  {
    if ds != [] {
      JoinAllFrame(n, max, ds[..|ds| - 1]);
    }
  }

  /** The order and the repetition of joins leave no trace. */
  lemma JoinOrderIrrelevant(n: Did, max: nat, ds: seq<Did>, es: seq<Did>)
    requires max < 256 && IdSet(ds) == IdSet(es)
    ensures JoinAll(n, max, ds) == JoinAll(n, max, es)
  {
    JoinAllKnows(n, max, ds);
    JoinAllKnows(n, max, es);
    KnowsUnique(JoinAll(n, max, ds), JoinAll(n, max, es), IdSet(ds));
    JoinAllFrame(n, max, ds);
    JoinAllFrame(n, max, es);
  }

  /** In a node that knows `ids`, the nearest successor is the nearest other id. */
  lemma MinIsNearest(p: Peer, ids: set<Did>, m: Did)
    requires NearestOf(p.did, p.max, p.successors, ids) && m in ids && m != p.did && p.max > 0
    ensures p.successors != [] && Dist(p.did, p.successors[0]) <= Dist(p.did, m)
  {
    if m in p.successors {
      var i :| 0 <= i < |p.successors| && p.successors[i] == m;
    } else {
      assert p.successors[0] in p.successors;
    }
  }

  /** Without removals the nearest successor and the first finger agree. */
  lemma FirstFingerIsMin(p: Peer, ids: set<Did>)
    requires Knows(p, ids) && p.max > 0
    ensures First(p.fingers) == if p.successors == [] then None else Some(MinOf(p.did, p.successors))
  {
    FirstIsSlot0(p.did, p.fingers, ids);
    assert IsNearest(p.did, ids, 0, p.fingers[0]);
    if p.successors != [] {
      var s := p.successors[0];
      assert s in p.successors;
      DistSplit(p.did, p.did, s);
      MinIsNearest(p, ids, p.fingers[0].value);
      DistSplit(p.did, s, p.fingers[0].value);
    } else if p.fingers[0].Some? {
      MinIsNearest(p, ids, p.fingers[0].value);
    }
  }
}
