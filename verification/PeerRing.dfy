/** The node object: each method is proved to do what the function of the same operation says. */
module PeerRings {
  import opened Wrappers
  import opened Ring
  import opened Sequences
  import opened VNodes
  import opened Fingers
  import opened Successors
  import opened Chord
  import opened FixFingers

  /** The stored entries that stay with node `n` when `s` becomes its successor. */
  function KeptBy(n: Did, storage: map<Did, VirtualNode>, s: Did): map<Did, VirtualNode> {
    map k | k in storage && Dist(n, k) <= Dist(n, s) :: storage[k]
  }

  /** The entries with the given keys, in that order. */
  function EntriesAt(storage: map<Did, VirtualNode>, keys: seq<Did>): seq<VirtualNode>
    requires forall k :: k in keys ==> k in storage
  {
    seq(|keys|, i requires 0 <= i < |keys| => storage[keys[i]])
  }

  class PeerRing {
    const did: Did
    const finger: FingerTable
    const successor: SuccessorSeq
    var predecessor: Option<Did>
    var storage: map<Did, VirtualNode>
    var cache: map<Did, VirtualNode>

    /** The ids joined or reported, and not removed since. */
    ghost var live: set<Did>

    ghost predicate Valid()
      reads this, finger, finger.finger, successor
    {
      && finger.Valid() && finger.did == did && successor.did == did
      && PeerSound(State(), live)
      && StoreInv(storage)
    }

    /** Holds on top of `Valid` until a fixing call has written a slot that was not known to be right. */
    ghost predicate Indexed()
      reads this, finger, finger.finger, successor
    {
      PeerInv(State(), live)
    }

    ghost function State(): Peer
      reads this, finger, finger.finger, successor
    {
      Peer(did, successor.max, finger.Slots(), finger.fixFingerIndex, successor.successors, predecessor, storage, cache)
    }

    constructor (did: Did, succMax: nat)
      requires succMax < 256
      ensures Valid() && Indexed() && live == {}
      ensures fresh(finger) && fresh(finger.finger) && fresh(successor)
      ensures State() == NewPeer(did, succMax)
      ensures |finger.Slots()| == 160 && (forall k :: 0 <= k < 160 ==> finger.Slots()[k].None?)
      ensures successor.successors == [] && predecessor == None && storage == map[] && cache == map[]
      ensures this.did == did && successor.max == succMax && finger.fixFingerIndex == 0
    {
      this.did := did;
      finger := new FingerTable(did, FINGER_SIZE);
      successor := new SuccessorSeq(did, succMax);
      predecessor := None;
      storage := map[];
      cache := map[];
      live := {};
      new;
      PeerRunInv(did, succMax, []);
    }

    method Remove(d: Did)
      requires Valid()
      modifies this`live, this`predecessor, finger.finger, successor
      ensures Valid() && (old(Indexed()) ==> Indexed()) && live == old(live) - {d}
      ensures State() == RemovePeer(old(State()), d)
      ensures storage == old(storage) && cache == old(cache)
    {
      RemoveKeepsSound(State(), live, d);
      if PeerInv(State(), live) {
        RemoveKeepsInv(State(), live, d);
      }
      if predecessor == Some(d) {
        predecessor := None;
      }
      finger.Remove(d);
      successor.Remove(d);
      if successor.successors == [] {
        match First(finger.Slots())
        case Some(x) => successor.Update(x);
        case None =>
      }
      live := live - {d};
    }

    method Join(d: Did) returns (action: Action)
      requires Valid()
      modifies this`live, finger.finger, successor
      ensures Valid() && (old(Indexed()) ==> Indexed()) && live == old(live) + {d}
      ensures State() == JoinPeer(old(State()), d)
      ensures d != did ==> forall k :: 0 <= k < 160 ==> JoinsSlot(did, k, old(finger.Slots()[k]), d, finger.Slots()[k])
      ensures action == if d == did then NoAction else Remote(d, FindSuccessorForConnect(did))
    {
      JoinKeepsSound(State(), live, d);
      if PeerInv(State(), live) {
        JoinKeepsInv(State(), live, d);
      }
      live := live + {d};
      if d == did {
        return NoAction;
      }
      finger.Join(d);
      if Dist(did, d) < Dist(did, successor.Max()) || !successor.Full() {
        successor.Update(d);
      }
      return Remote(d, FindSuccessorForConnect(did));
    }

    /** A forward of a node with exact fingers leaves it exactly if some finger lies strictly before the id. */
    method FindSuccessor(d: Did) returns (action: Action)
      requires Valid()
      ensures action == FindSuccessorOf(State(), d)
      ensures Indexed() && action.Remote? ==> (action.next != did <==> HasFingerBefore(State(), d))
    {
      if successor.successors == [] || Dist(did, d) <= Dist(did, successor.Min()) {
        return Found(successor.Min());
      }
      var closest := finger.ClosestPreceding(d);
      if PeerInv(State(), live) {
        ForwardLeavesIff(State(), live, d);
      }
      return Remote(closest, Chord.FindSuccessor(d));
    }

    /** Answers the new predecessor if it was accepted. */
    method Notify(d: Did) returns (accepted: Option<Did>)
      requires Valid()
      modifies this`predecessor
      ensures Valid() && (old(Indexed()) ==> Indexed())
      ensures State() == old(State()).(predecessor := Notified(did, old(predecessor), d))
      ensures accepted.Some? <==> predecessor != old(predecessor)
      ensures accepted.Some? ==> accepted == predecessor == Some(d)
    {
      match predecessor
      case Some(pre) =>
        if Dist(did, pre) < Dist(did, d) {
          predecessor := Some(d);
          return Some(d);
        }
        return None;
      case None =>
        predecessor := Some(d);
        return Some(d);
    }

    /** Where first finger and nearest successor agree, a call of a node with a successor changes no slot. */
    method FixFingers() returns (action: Action)
      requires Valid()
      modifies finger, finger.finger
      ensures Valid() && (State(), action) == FixPeer(old(State()))
      ensures var index := finger.fixFingerIndex;
        && index == (if old(finger.fixFingerIndex) == 158 then 0 else old(finger.fixFingerIndex) + 1)
        && (successor.successors == [] ==> finger.Slots() == old(finger.Slots())[index := Some(did)])
        && (successor.successors != [] && Pow2(index) <= Dist(did, successor.successors[0]) ==>
             finger.Slots() == old(finger.Slots())[index := Some(successor.successors[0])])
      ensures old(Indexed()) && Agree(old(State())) && successor.successors != [] ==>
        Indexed() && finger.Slots() == old(finger.Slots())
    {
      FixKeepsSound(State(), live);
      FixWritesAnswer(State());
      if PeerInv(State(), live) && Agree(State()) {
        FixKeepsSlotsIff(State(), live);
      }
      var index := finger.fixFingerIndex + 1;
      if index >= 159 {
        index := 0;
      }
      var d := Add(did, Pos(index));
      var found := FindSuccessor(d);
      finger.fixFingerIndex := index;
      match found
      case Found(v) =>
        finger.SetFix(v);
        return NoAction;
      case Remote(a, what) =>
        return Remote(a, FindSuccessorForFix(d));
    }

    method VNodeLookup(vid: Did) returns (action: Action)
      requires Valid()
      ensures action == LookupVNode(State(), vid)
      ensures action.SomeVNode? ==> action.vnode.did == vid && action.vnode.kind == Data
    {
      var found := FindSuccessor(vid);
      match found
      case Remote(next, what) =>
        return Remote(next, FindVNode(vid));
      case Found(_) =>
        return if vid in storage then SomeVNode(storage[vid]) else NoAction;
    }

    /** Fails exactly if the node is in charge and the value is not data. */
    method VNodeOperate(op: VNodeOperation) returns (r: Result<Action, VNodeError>)
      requires Valid()
      modifies this`storage
      ensures Valid() && (old(Indexed()) ==> Indexed())
      ensures (State(), r) == OperateVNode(old(State()), op)
      ensures r.Err? <==> FindSuccessorOf(State(), op.vnode.did).Found? && op.vnode.kind != Data
      ensures r.Err? ==> r.error == if op.vnode.did in storage then KindNotEqual
                                    else if op.Overwrite? then NotOverwritable else NotAppendable
    {
      OperateKeepsStore(State(), op);
      OperateSucceedsIff(if op.vnode.did in storage then storage[op.vnode.did] else DefaultVNode(op), op);
      var vid := op.vnode.did;
      var found := FindSuccessor(vid);
      match found
      case Remote(next, what) =>
        return Ok(Remote(next, FindVNodeForOperate(op)));
      case Found(_) =>
        var current := if vid in storage then storage[vid] else DefaultVNode(op);
        match Operate(current, op)
        case Ok(v) =>
          storage := storage[vid := v];
          return Ok(NoAction);
        case Err(e) =>
          return Err(e);
    }

    /**
     * Takes every entry beyond the new successor out of the store and answers them for sending.
     * `order` names the keys of the entries sent: no entry is lost, none is sent twice, none is kept and sent.
     */
    method SyncVNodeWithSuccessor(s: Did) returns (action: Action, ghost order: seq<Did>)
      requires Valid()
      modifies this`storage
      ensures Valid() && (old(Indexed()) ==> Indexed())
      ensures State() == old(State()).(storage := KeptBy(did, old(storage), s))
      ensures forall k :: k in order <==> k in old(storage) && Dist(did, k) > Dist(did, s)
      ensures NoRepeats(order)
      ensures action == if order == [] then NoAction
                        else Remote(s, Chord.SyncVNodeWithSuccessor(EntriesAt(old(storage), order)))
    {
      var data: seq<VirtualNode> := [];
      order := [];
      var allItems := storage;
      var todo := allItems.Keys;
      while todo != {}
        invariant todo <= allItems.Keys && allItems == old(storage)
        invariant forall k :: k in order <==> k in allItems && k !in todo && Dist(did, k) > Dist(did, s)
        invariant NoRepeats(order)
        invariant data == EntriesAt(allItems, order)
        invariant storage == map k | k in allItems && (k in todo || Dist(did, k) <= Dist(did, s)) :: allItems[k]
        decreases todo
      {
        var vid :| vid in todo;
        todo := todo - {vid};
        if Dist(did, vid) > Dist(did, s) {
          storage := storage - {vid};
          data := data + [allItems[vid]];
          order := order + [vid];
        }
      }
      if data != [] {
        action := Remote(s, Chord.SyncVNodeWithSuccessor(data));
      } else {
        action := NoAction;
      }
    }

    method LocalCacheSet(vnode: VirtualNode)
      requires Valid()
      modifies this`cache
      ensures Valid() && (old(Indexed()) ==> Indexed())
      ensures cache == old(cache)[vnode.did := vnode]
    {
      cache := cache[vnode.did := vnode];
    }
  }

  // ---------- the store over runs ----------

  /** Every stored value sits under its own id and is a data value. */
  ghost predicate StoreInv(storage: map<Did, VirtualNode>) {
    forall k :: k in storage ==> storage[k].did == k && storage[k].kind == Data
  }

  /** Operating never breaks the store, and fails only by being asked for a value that is not data. */
  lemma OperateKeepsStore(p: Peer, op: VNodeOperation)
    requires StoreInv(p.storage)
    ensures StoreInv(OperateVNode(p, op).0.storage)
    ensures OperateVNode(p, op).1.Err? <==> FindSuccessorOf(p, op.vnode.did).Found? && op.vnode.kind != Data
    ensures OperateVNode(p, op).1.Err? ==> OperateVNode(p, op).0 == p
  {
    var vid := op.vnode.did;
    OperateSucceedsIff(if vid in p.storage then p.storage[vid] else DefaultVNode(op), op);
  }

  datatype StoreOp = OperateOp(op: VNodeOperation) | SyncOp(s: Did)

  function StoreStep(p: Peer, o: StoreOp): Peer {
    match o
    case OperateOp(op) => OperateVNode(p, op).0
    case SyncOp(s) => p.(storage := KeptBy(p.did, p.storage, s))
  }

  function StoreRun(p: Peer, ops: seq<StoreOp>): Peer {
    if ops == [] then p else StoreStep(StoreRun(p, ops[..|ops| - 1]), ops[|ops| - 1])
  }

  /** Over any mix of operations and hand-overs, every entry stays a data value under its own id. */
  lemma {:induction false} StoreRunKeepsStore(p: Peer, ops: seq<StoreOp>)
    requires StoreInv(p.storage)
    ensures StoreInv(StoreRun(p, ops).storage)
  {
    if ops != [] {
      var q := StoreRun(p, ops[..|ops| - 1]);
      StoreRunKeepsStore(p, ops[..|ops| - 1]);
      match ops[|ops| - 1]
      case OperateOp(op) => OperateKeepsStore(q, op);
      case SyncOp(s) =>
    }
  }

  /** What a receiver can rebuild from the values alone. */
  function ById(data: seq<VirtualNode>): map<Did, VirtualNode> {
    if data == [] then map[] else ById(data[..|data| - 1])[data[|data| - 1].did := data[|data| - 1]]
  }

  /** Kept entries and handed-over values together are the old store, and they do not overlap. */
  lemma HandOverIsLossless(n: Did, storage: map<Did, VirtualNode>, s: Did, order: seq<Did>)
    requires StoreInv(storage)
    requires forall k :: k in order <==> k in storage && Dist(n, k) > Dist(n, s)
    ensures KeptBy(n, storage, s) + ById(EntriesAt(storage, order)) == storage
    ensures KeptBy(n, storage, s).Keys !! ById(EntriesAt(storage, order)).Keys
    ensures forall k :: k in ById(EntriesAt(storage, order)) ==> Dist(n, k) > Dist(n, s)
  {
    ByIdOfEntries(storage, order);
  }

  lemma {:induction false} ByIdOfEntries(storage: map<Did, VirtualNode>, order: seq<Did>)
    requires StoreInv(storage) && forall k :: k in order ==> k in storage
    ensures ById(EntriesAt(storage, order)) == map k | k in order :: storage[k]
  {
    if order != [] {
      var last := |order| - 1;
      ByIdOfEntries(storage, order[..last]);
      assert EntriesAt(storage, order)[..last] == EntriesAt(storage, order[..last]);
      assert order == order[..last] + [order[last]];
    }
  }
}
