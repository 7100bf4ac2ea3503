/** What the message handlers do, and whole conversations over a ring: lookups, storing, fetching. */
module Messages {
  import opened Wrappers
  import opened Ring
  import opened VNodes
  import opened Fingers
  import opened Chord
  import opened PeerRings
  import opened Relays
  import opened Sequences
  import opened Lookup

  datatype Failure = RelayFailed(r: RelayError) | StoreFailed(v: VNodeError) | Undelivered

  // ---------- lookups ----------

  datatype FindReply = Forward(relay: Relay) | Answered(found: Did, report: Relay)

  /** Handling `FindSuccessorSend` (not strict). */
  function HandleFind(p: Peer, r: Relay, key: Did): Result<FindReply, RelayError>
    requires Usable(r)
  {
    match FindSuccessorOf(p, key)
    case Remote(next, _) =>
      (match Relayed(r, p.did, Some(next))
       case Err(e) => Err(e)
       case Ok(q) =>
         match ResetDestination(q, next)
         case Err(e) => Err(e)
         case Ok(q') => Ok(Forward(q')))
    case Found(s) =>
      match Relayed(r, p.did, None)
      case Err(e) => Err(e)
      case Ok(q) =>
        match Report(q)
        case Err(e) => Err(e)
        case Ok(report) => Ok(Answered(s, report))
  }

  /** The lookup message travels until a node answers it: the answer and the report it leaves with. */
  function RunFind(net: Net, at: Did, r: Relay, key: Did): Result<(Did, Relay), RelayError>
    requires Stable(net) && at in net && Usable(r)
    decreases Dist(at, key)
  {
    assert StableAt(net, at);
    Hop(net[at], net.Keys, key);
    match HandleFind(net[at], r, key)
    case Err(e) => Err(e)
    case Ok(Answered(found, report)) => Ok((found, report))
    case Ok(Forward(q)) =>
      var next := FindSuccessorOf(net[at], key).next;
      HopNearsKey(at, next, key);
      RunFind(net, next, q, key)
  }

  /** A SEND that is on its way to `at` and will not meet a node twice on the way to the key. */
  ghost predicate OnItsWay(net: Net, at: Did, r: Relay, key: Did)
    requires Stable(net) && at in net
  {
    r.kind == SEND && r.cursor == 0 && r.path != [] && r.nextHop == Some(at) && NoRepeats(r.path + Path(net, at, key))
  }

  /** Passing such a message on to the next node of the lookup. */
  lemma PassOn(net: Net, at: Did, r: Relay, key: Did, next: Did, destination: Did)
    requires Stable(net) && at in net && OnItsWay(net, at, r, key)
    requires next in net && Path(net, at, key) == [at] + Path(net, next, key)
    ensures Relayed(r, at, Some(next)) == Ok(r.(path := r.path + [at], nextHop := Some(next)))
    ensures var q := r.(path := r.path + [at], nextHop := Some(next), destination := destination);
      OnItsWay(net, next, q, key) && q.path + Path(net, next, key) == r.path + Path(net, at, key)
  {
    NoRepeatsPrefix(r.path, Path(net, at, key));
    assert (r.path + [at]) + Path(net, next, key) == r.path + Path(net, at, key);
  }

  /** Ending it at the last node: the report sets out to walk the whole path back. */
  lemma TurnBack(net: Net, at: Did, r: Relay, key: Did)
    requires Stable(net) && at in net && OnItsWay(net, at, r, key) && Path(net, at, key) == [at]
    ensures var path := r.path + Path(net, at, key);
      && |path| >= 2 && NeighboursDiffer(path) && FirstHome(path, |path| - 1)
      && Relayed(r, at, None) == Ok(r.(path := path, nextHop := None))
      && Report(r.(path := path, nextHop := None)) == Ok(Homeward(path, |path| - 1, 0))
  {
    var path := r.path + Path(net, at, key);
    NoRepeatsPrefix(r.path, Path(net, at, key));
    SimplePathHome(path);
    ReportWalksBack(r.(path := path, nextHop := None), |path| - 1, 0);
  }

  lemma {:induction false} RunFindAnswers(net: Net, at: Did, r: Relay, key: Did)
    requires Stable(net) && at in net && OnItsWay(net, at, r, key)
    ensures var path := r.path + Path(net, at, key);
      |path| >= 2 && RunFind(net, at, r, key) == Ok((Answer(net, at, key), Homeward(path, |path| - 1, 0)))
    decreases Dist(at, key)
  {
    assert StableAt(net, at);
    var next := Unfold(net, at, key);
    if next.Some? {
      PassOn(net, at, r, key, next.value, next.value);
      RunFindAnswers(net, next.value, r.(path := r.path + [at], nextHop := next, destination := next.value), key);
    } else {
      TurnBack(net, at, r, key);
    }
  }

  /**
   * A lookup sent out by `origin` to a node nearer to the key (or for its own id) passes every relay check,
   * is answered with the owner of the key, and its report walks back through exactly the nodes it came by.
   */
  lemma LookupConversation(net: Net, origin: Did, first: Did, key: Did, destination: Did)
    requires Stable(net) && first in net && first != key && (origin == key || Dist(first, key) < Dist(origin, key))
    ensures var path := [origin] + Path(net, first, key); var len := |path| - 1;
      && len >= 1 && NeighboursDiffer(path) && FirstHome(path, len)
      && RunFind(net, first, NewSend(origin, first, destination), key) ==
           Ok((Answer(net, first, key), Homeward(path, len, 0)))
      && Owns(net.Keys, Answer(net, first, key), key)
      && forall k: nat :: k <= len ==> ReportWalk(Homeward(path, len, 0), k) == Ok(Homeward(path, len, k))
  {
    OriginNotOnPath(net, origin, first, key);
    RunFindAnswers(net, first, NewSend(origin, first, destination), key);
    AnswerOwns(net, first, key);
    var path := [origin] + Path(net, first, key);
    SimplePathHome(path);
    var len := |path| - 1;
    forall k: nat | k <= len ensures ReportWalk(Homeward(path, len, 0), k) == Ok(Homeward(path, len, k)) {
      HomewardWalk(path, len, k);
    }
  }

  // ---------- the node that holds a value ----------

  /** The node at which a lookup for `key` that starts at `n` ends. */
  function Holder(net: Net, n: Did, key: Did): Did
    requires Stable(net) && n in net
  {
    var path := Path(net, n, key);
    path[|path| - 1]
  }

  lemma {:induction false} HolderIsBefore(net: Net, n: Did, key: Did)
    requires Stable(net) && n in net
    ensures Holder(net, n, key) in net
    ensures n == key ==> Holder(net, n, key) == n
    ensures n != key ==> IsBefore(net.Keys, Holder(net, n, key), key)
    decreases Dist(n, key)
  {
    assert StableAt(net, n);
    var next := Unfold(net, n, key);
    if next.Some? {
      HolderIsBefore(net, next.value, key);
    } else {
      Hop(net[n], net.Keys, key);
      if n != key {
        EndIsBefore(net.Keys, n, Answer(net, n, key), key);
      }
    }
  }

  lemma EndIsBefore(nodes: set<Did>, n: Did, s: Did, key: Did)
    requires n in nodes && n != key && (s == n ==> nodes == {n})
    requires forall m :: m in nodes && m != n && s != n ==> Dist(n, key) <= Dist(n, s) <= Dist(n, m)
    ensures IsBefore(nodes, n, key)
  {
    forall m | m in nodes && m != key ensures Dist(n, key) <= Dist(m, key) {
      if m != n {
        assert Dist(n, key) <= Dist(n, m);
      }
    }
  }

  /** Two nodes reach the same holder exactly if neither or both of them carry the key as their own id. */
  lemma HoldersAgreeIff(net: Net, a: Did, b: Did, key: Did)
    requires Stable(net) && a in net && b in net
    ensures Holder(net, a, key) == Holder(net, b, key) <==> (a == key <==> b == key)
  {
    HolderIsBefore(net, a, key);
    HolderIsBefore(net, b, key);
    DistSplit(key, Holder(net, a, key), Holder(net, b, key));
  }

  // ---------- storing ----------

  /** Handling `OperateVNode`: the new node state, and the relay to forward with if the node is not in charge. */
  function HandleOperate(p: Peer, r: Relay, op: VNodeOperation): Result<(Peer, Option<Relay>), Failure>
    requires Usable(r)
  {
    match OperateVNode(p, op)
    case (_, Err(e)) => Err(StoreFailed(e))
    case (q, Ok(Remote(next, _))) =>
      (match ResetDestination(r, next)
       case Err(e) => Err(RelayFailed(e))
       case Ok(r') =>
         match Relayed(r', p.did, Some(next))
         case Err(e) => Err(RelayFailed(e))
         case Ok(r'') => Ok((q, Some(r''))))
    case (q, Ok(_)) => Ok((q, None))
  }

  function RunOperate(net: Net, at: Did, r: Relay, op: VNodeOperation): Result<Net, Failure>
    requires Stable(net) && at in net && Usable(r)
    decreases Dist(at, op.vnode.did)
  {
    assert StableAt(net, at);
    Hop(net[at], net.Keys, op.vnode.did);
    match HandleOperate(net[at], r, op)
    case Err(e) => Err(e)
    case Ok((p, None)) => Ok(net[at := p])
    case Ok((p, Some(q))) =>
      var next := FindSuccessorOf(net[at], op.vnode.did).next;
      HopNearsKey(at, next, op.vnode.did);
      RunOperate(net, next, q, op)
  }

  /** `send_message` looks its destination up once more to find the first hop. */
  function FirstHop(p: Peer, destination: Did): Did {
    match FindSuccessorOf(p, destination)
    case Remote(next, _) => next
    case Found(s) => s
  }

  /** The first hop may be an earlier node than the one chosen, but it is one on the way to the key. */
  lemma FirstHopIsOnTheWay(p: Peer, nodes: set<Did>, key: Did)
    requires StablePeer(p, nodes) && p.did in nodes && FindSuccessorOf(p, key).Remote?
    ensures var h := FirstHop(p, FindSuccessorOf(p, key).next);
      h in nodes && h != key && Dist(h, key) < Dist(p.did, key)
  {
    Hop(p, nodes, key);
    var target := FindSuccessorOf(p, key).next;
    Hop(p, nodes, target);
    var h := FirstHop(p, target);
    DistSplit(p.did, p.did, target);
    if FindSuccessorOf(p, target).Found? {
      DistSplit(p.did, h, target);
    }
    HopNearsKey(p.did, h, key);
  }

  /** In any state the first hop is the answer if the node has it, else its highest finger before the destination. */
  lemma FirstHopInAnyState(p: Peer, destination: Did)
    ensures p.successors == [] ==> FirstHop(p, destination) == p.did
    ensures p.successors != [] && Dist(p.did, destination) <= Dist(p.did, p.successors[0]) ==>
      FirstHop(p, destination) == p.successors[0]
    ensures p.successors != [] && Dist(p.did, destination) > Dist(p.did, p.successors[0]) ==>
      HighestBefore(p.did, p.fingers, destination, FirstHop(p, destination))
  {
    FindSuccessorInAnyState(p, destination);
  }

  /**
   * In a stable ring, with exact fingers: the node named for a key is sent to straight away only if it is the
   * nearest successor. Otherwise the message goes to the farthest finger strictly before that node.
   */
  lemma FirstHopIsFingerBefore(p: Peer, nodes: set<Did>, key: Did)
    requires StablePeer(p, nodes) && p.did in nodes && IndexOf(p.did, p.fingers, Members(p.fingers))
    requires FindSuccessorOf(p, key).Remote?
    ensures var t := FindSuccessorOf(p, key).next; var h := FirstHop(p, t);
      if t == p.successors[0] then h == t
      else
        && h in Members(p.fingers) && Dist(p.did, h) < Dist(p.did, t)
        && forall m :: m in Members(p.fingers) && Dist(p.did, m) < Dist(p.did, t) ==> Dist(p.did, m) <= Dist(p.did, h)
  {
    var t := FindSuccessorOf(p, key).next;
    Hop(p, nodes, key);
    Hop(p, nodes, t);
    ClosestIsFarthestBefore(p.did, p.fingers, Members(p.fingers), t);
    DistSplit(p.did, p.successors[0], t);
    DistSplit(p.did, p.did, FirstHop(p, t));
  }

  /** `storage_store`, `storage_append_data` and `storage_touch_data` differ only in the operation. */
  function StorageOperate(net: Net, a: Did, op: VNodeOperation): Result<Net, Failure>
    requires Stable(net) && a in net
  {
    match OperateVNode(net[a], op)
    case (_, Err(e)) => Err(StoreFailed(e))
    case (p, Ok(Remote(target, _))) =>
      assert StableAt(net, a);
      FirstHopIsOnTheWay(net[a], net.Keys, op.vnode.did);
      var h := FirstHop(net[a], target);
      RunOperate(net, h, NewSend(a, h, target), op)
    case (p, Ok(_)) => Ok(net[a := p])
  }

  ghost predicate StoresInv(net: Net) {
    forall n :: n in net ==> StoreInv(net[n].storage)
  }

  /** The value an operation leaves at a node in charge of it. */
  function ValueAfter(p: Peer, op: VNodeOperation): Result<VirtualNode, VNodeError> {
    Operate(if op.vnode.did in p.storage then p.storage[op.vnode.did] else DefaultVNode(op), op)
  }

  /** The ring with the operation done at node `h`. */
  function WithValue(net: Net, h: Did, op: VNodeOperation): Net
    requires h in net && ValueAfter(net[h], op).Ok?
  {
    net[h := net[h].(storage := net[h].storage[op.vnode.did := ValueAfter(net[h], op).value])]
  }

  lemma OperatePassesOn(net: Net, at: Did, r: Relay, op: VNodeOperation, next: Did)
    requires Stable(net) && at in net && net[at].did == at && OnItsWay(net, at, r, op.vnode.did)
    requires next in net && Path(net, at, op.vnode.did) == [at] + Path(net, next, op.vnode.did)
    requires FindSuccessorOf(net[at], op.vnode.did) == Remote(next, FindSuccessor(op.vnode.did))
    ensures var q := r.(path := r.path + [at], nextHop := Some(next), destination := next);
      && HandleOperate(net[at], r, op) == Ok((net[at], Some(q)))
      && OnItsWay(net, next, q, op.vnode.did)
  {
    PassOn(net, at, r.(destination := next), op.vnode.did, next, next);
  }

  /** What comes of an operation at node `h`: the ring with the new value, or the refusal. */
  function DoneAt(net: Net, h: Did, op: VNodeOperation): Result<Net, Failure>
    requires h in net
  {
    match ValueAfter(net[h], op)
    case Ok(_) => Ok(WithValue(net, h, op))
    case Err(e) => Err(StoreFailed(e))
  }

  lemma {:induction false} RunOperateEnds(net: Net, at: Did, r: Relay, op: VNodeOperation)
    requires Stable(net) && at in net && OnItsWay(net, at, r, op.vnode.did)
    ensures var h := Holder(net, at, op.vnode.did);
      h in net && RunOperate(net, at, r, op) == DoneAt(net, h, op)
    decreases Dist(at, op.vnode.did)
  {
    assert StableAt(net, at);
    var next := Unfold(net, at, op.vnode.did);
    if next.Some? {
      OperatePassesOn(net, at, r, op, next.value);
      RunOperateEnds(net, next.value, r.(path := r.path + [at], nextHop := next, destination := next.value), op);
    }
  }

  /** From any node an operation of any kind is done, or refused, at the holder, and nothing else changes anywhere. */
  lemma OperationReachesHolder(net: Net, a: Did, op: VNodeOperation)
    requires Stable(net) && a in net
    ensures Holder(net, a, op.vnode.did) in net
    ensures StorageOperate(net, a, op) == DoneAt(net, Holder(net, a, op.vnode.did), op)
  {
    var key := op.vnode.did;
    assert StableAt(net, a);
    var next := Unfold(net, a, key);
    if next.Some? {
      FirstHopIsOnTheWay(net[a], net.Keys, key);
      var h := FirstHop(net[a], next.value);
      OriginNotOnPath(net, a, h, key);
      RunOperateEnds(net, h, NewSend(a, h, next.value), op);
      HoldersAgreeIff(net, a, h, key);
    }
  }

  /** It is done exactly for data. */
  lemma StoreSucceedsIff(net: Net, a: Did, op: VNodeOperation)
    requires Stable(net) && StoresInv(net) && a in net
    ensures StorageOperate(net, a, op).Ok? <==> op.vnode.kind == Data
  {
    OperationReachesHolder(net, a, op);
    var p := net[Holder(net, a, op.vnode.did)];
    assert StoreInv(p.storage);
    OperateSucceedsIff(if op.vnode.did in p.storage then p.storage[op.vnode.did] else DefaultVNode(op), op);
  }

  /** From any node data is stored at the holder, and nothing else changes anywhere. */
  lemma StoreReachesHolder(net: Net, a: Did, op: VNodeOperation)
    requires Stable(net) && StoresInv(net) && a in net && op.vnode.kind == Data
    ensures var h := Holder(net, a, op.vnode.did);
      h in net && ValueAfter(net[h], op).Ok? && StorageOperate(net, a, op) == Ok(WithValue(net, h, op))
  {
    OperationReachesHolder(net, a, op);
    StoreSucceedsIff(net, a, op);
  }

  // ---------- fetching ----------

  function WithCached(net: Net, n: Did, v: VirtualNode): Net
    requires n in net
  {
    net[n := net[n].(cache := net[n].cache[v.did := v])]
  }

  /** Handling `FoundVNode`: pass the report on, or cache the value where it ends. */
  function HandleFound(p: Peer, r: Relay, v: VirtualNode): Result<(Peer, Option<Relay>), RelayError>
    requires Usable(r)
  {
    match Relayed(r, p.did, None)
    case Err(e) => Err(e)
    case Ok(q) =>
      if q.nextHop.Some? then Ok((p, Some(q))) else Ok((p.(cache := p.cache[v.did := v]), None))
  }

  /** A `FoundVNode` report goes from node to node; the node it ends at caches the value. */
  function RunFound(net: Net, r: Relay, v: VirtualNode, hops: nat): Result<Net, Failure>
    requires Usable(r)
    decreases hops
  {
    if r.nextHop.None? || hops == 0 then Err(RelayFailed(NoNextHop))
    else
      var at := r.nextHop.value;
      if at !in net then Err(Undelivered)
      else
        match HandleFound(net[at], r, v)
        case Err(e) => Err(RelayFailed(e))
        case Ok((_, Some(q))) => RunFound(net, q, v, hops - 1)
        case Ok((p, None)) => Ok(net[at := p])
  }

  datatype SearchReply = NotFound | SearchOn(relay: Relay) | FoundHere(vnode: VirtualNode, report: Relay)

  /** Handling `SearchVNode`. */
  function HandleSearch(p: Peer, r: Relay, vid: Did): Result<SearchReply, RelayError>
    requires Usable(r)
  {
    match LookupVNode(p, vid)
    case SomeVNode(v) =>
      (match Relayed(r, p.did, None)
       case Err(e) => Err(e)
       case Ok(q) =>
         match Report(q)
         case Err(e) => Err(e)
         case Ok(report) => Ok(FoundHere(v, report)))
    case Remote(next, _) =>
      (match Relayed(r, p.did, Some(next))
       case Err(e) => Err(e)
       case Ok(q) => Ok(SearchOn(q)))
    case NoAction => Ok(NotFound)
  }

  function RunSearch(net: Net, at: Did, r: Relay, vid: Did): Result<Net, Failure>
    requires Stable(net) && at in net && Usable(r)
    decreases Dist(at, vid)
  {
    assert StableAt(net, at);
    Hop(net[at], net.Keys, vid);
    match HandleSearch(net[at], r, vid)
    case Err(e) => Err(RelayFailed(e))
    case Ok(NotFound) => Ok(net)
    case Ok(FoundHere(v, report)) => RunFound(net, report, v, |report.path|)
    case Ok(SearchOn(q)) =>
      var next := FindSuccessorOf(net[at], vid).next;
      HopNearsKey(at, next, vid);
      RunSearch(net, next, q, vid)
  }

  function StorageFetch(net: Net, b: Did, vid: Did): Result<Net, Failure>
    requires Stable(net) && b in net
  {
    match LookupVNode(net[b], vid)
    case SomeVNode(v) => Ok(WithCached(net, b, v))
    case Remote(target, _) =>
      assert StableAt(net, b);
      FirstHopIsOnTheWay(net[b], net.Keys, vid);
      var h := FirstHop(net[b], target);
      RunSearch(net, h, NewSend(b, h, target), vid)
    case NoAction => Ok(net)
  }

  lemma {:induction false} FoundComesHome(net: Net, path: seq<Did>, stop: nat, k: nat, v: VirtualNode, hops: nat)
    requires NeighboursDiffer(path) && FirstHome(path, stop) && k < stop && hops >= stop - k
    requires forall x :: x in path ==> x in net && net[x].did == x
    ensures path[0] in net && RunFound(net, Homeward(path, stop, k), v, hops) == Ok(WithCached(net, path[0], v))
    decreases hops
  {
    HomewardHop(path, stop, k);
    assert Back(path, k + 1) in path;
    if k + 1 < stop {
      FoundComesHome(net, path, stop, k + 1, v, hops - 1);
    }
  }

  lemma SearchPassesOn(net: Net, at: Did, r: Relay, vid: Did, next: Did)
    requires Stable(net) && at in net && net[at].did == at && OnItsWay(net, at, r, vid)
    requires next in net && Path(net, at, vid) == [at] + Path(net, next, vid)
    requires FindSuccessorOf(net[at], vid) == Remote(next, FindSuccessor(vid))
    ensures var q := r.(path := r.path + [at], nextHop := Some(next));
      OnItsWay(net, next, q, vid) && RunSearch(net, at, r, vid) == RunSearch(net, next, q, vid)
  {
    PassOn(net, at, r, vid, next, r.destination);
    assert HandleSearch(net[at], r, vid) == Ok(SearchOn(r.(path := r.path + [at], nextHop := Some(next))));
  }

  lemma SearchEnds(net: Net, at: Did, r: Relay, vid: Did)
    requires Stable(net) && at in net && net[at].did == at && OnItsWay(net, at, r, vid)
    requires Path(net, at, vid) == [at] && FindSuccessorOf(net[at], vid).Found?
    requires forall x :: x in r.path ==> x in net && net[x].did == x
    ensures r.path[0] in net
    ensures RunSearch(net, at, r, vid) ==
      Ok(if vid in net[at].storage then WithCached(net, r.path[0], net[at].storage[vid]) else net)
  {
    assert r.path[0] in r.path;
    if vid in net[at].storage {
      TurnBack(net, at, r, vid);
      var path := r.path + [at];
      FoundComesHome(net, path, |path| - 1, 0, net[at].storage[vid], |path|);
    }
  }

  lemma {:induction false} RunSearchFinds(net: Net, at: Did, r: Relay, vid: Did)
    requires Stable(net) && at in net && OnItsWay(net, at, r, vid)
    requires forall x :: x in r.path ==> x in net && net[x].did == x
    ensures r.path[0] in net && Holder(net, at, vid) in net
    ensures var h := Holder(net, at, vid);
      RunSearch(net, at, r, vid) ==
        Ok(if vid in net[h].storage then WithCached(net, r.path[0], net[h].storage[vid]) else net)
    decreases Dist(at, vid)
  {
    assert StableAt(net, at);
    var next := Unfold(net, at, vid);
    if next.Some? {
      SearchPassesOn(net, at, r, vid, next.value);
      RunSearchFinds(net, next.value, r.(path := r.path + [at], nextHop := next), vid);
    } else {
      SearchEnds(net, at, r, vid);
    }
  }

  /** From any node a fetch brings what the holder stores into that node's cache, and changes nothing else. */
  lemma FetchReachesHolder(net: Net, b: Did, vid: Did)
    requires Stable(net) && b in net
    ensures Holder(net, b, vid) in net
    ensures var h := Holder(net, b, vid);
      StorageFetch(net, b, vid) == Ok(if vid in net[h].storage then WithCached(net, b, net[h].storage[vid]) else net)
  {
    assert StableAt(net, b);
    var next := Unfold(net, b, vid);
    HolderIsBefore(net, b, vid);
    if next.Some? {
      FirstHopIsOnTheWay(net[b], net.Keys, vid);
      var h := FirstHop(net[b], next.value);
      OriginNotOnPath(net, b, h, vid);
      RunSearchFinds(net, h, NewSend(b, h, next.value), vid);
      HoldersAgreeIff(net, b, h, vid);
    }
  }

  lemma StoringKeepsRouting(net: Net, h: Did, op: VNodeOperation)
    requires Stable(net) && h in net && ValueAfter(net[h], op).Ok?
    ensures WithValue(net, h, op).Keys == net.Keys && Stable(WithValue(net, h, op))
  {
    var after := WithValue(net, h, op);
    assert after.Keys == net.Keys;
    forall n | n in after ensures StableAt(after, n) {
      assert StableAt(net, n);
    }
  }

  lemma SameHolder(a: Net, b: Net, n: Did, key: Did)
    requires Stable(a) && Stable(b) && a.Keys == b.Keys && n in a
    ensures Holder(a, n, key) == Holder(b, n, key)
  {
    HolderIsBefore(a, n, key);
    HolderIsBefore(b, n, key);
    DistSplit(key, Holder(a, n, key), Holder(b, n, key));
  }

  /** The fetch after a store finds what the fetching node's holder has by then. */
  lemma FetchAfterStore(net: Net, a: Did, b: Did, op: VNodeOperation)
    requires Stable(net) && StoresInv(net) && a in net && b in net && op.vnode.kind == Data
    ensures Holder(net, a, op.vnode.did) in net && Holder(net, b, op.vnode.did) in net
    ensures ValueAfter(net[Holder(net, a, op.vnode.did)], op).Ok?
    ensures var key := op.vnode.did; var after := WithValue(net, Holder(net, a, key), op);
      && StorageOperate(net, a, op) == Ok(after) && Stable(after) && after.Keys == net.Keys
      && var h := Holder(net, b, key);
         StorageFetch(after, b, key) ==
           Ok(if key in after[h].storage then WithCached(after, b, after[h].storage[key]) else after)
  {
    var key := op.vnode.did;
    StoreReachesHolder(net, a, op);
    StoringKeepsRouting(net, Holder(net, a, key), op);
    var after := WithValue(net, Holder(net, a, key), op);
    FetchReachesHolder(after, b, key);
    SameHolder(net, after, b, key);
  }

  lemma ValueHasItsId(net: Net, n: Did, op: VNodeOperation)
    requires StoresInv(net) && n in net && ValueAfter(net[n], op).Ok?
    ensures ValueAfter(net[n], op).value.did == op.vnode.did
    ensures op.Overwrite? ==> ValueAfter(net[n], op).value == op.vnode
  {
    var p := net[n];
    OperateSucceedsIff(if op.vnode.did in p.storage then p.storage[op.vnode.did] else DefaultVNode(op), op);
  }

  /**
   * What any node stores, extends or touches, any node fetches, unless exactly one of the two
   * has the id of the value as its own.
   */
  lemma StoreThenFetch(net: Net, a: Did, b: Did, op: VNodeOperation)
    requires Stable(net) && StoresInv(net) && a in net && b in net && op.vnode.kind == Data
    requires a == op.vnode.did <==> b == op.vnode.did
    ensures StorageOperate(net, a, op).Ok? && Stable(StorageOperate(net, a, op).value)
    ensures b in StorageOperate(net, a, op).value && Holder(net, a, op.vnode.did) in net
    ensures var fetched := StorageFetch(StorageOperate(net, a, op).value, b, op.vnode.did);
      && fetched.Ok? && b in fetched.value && op.vnode.did in fetched.value[b].cache
      && Ok(fetched.value[b].cache[op.vnode.did]) == ValueAfter(net[Holder(net, a, op.vnode.did)], op)
      && (op.Overwrite? ==> fetched.value[b].cache[op.vnode.did] == op.vnode)
  {
    FetchAfterStore(net, a, b, op);
    HoldersAgreeIff(net, a, b, op.vnode.did);
    ValueHasItsId(net, Holder(net, a, op.vnode.did), op);
  }

  /** Then they use different holders, and the fetch gets that value only if the other holder had it before. */
  lemma StoreThenFetchIff(net: Net, a: Did, b: Did, op: VNodeOperation)
    requires Stable(net) && StoresInv(net) && a in net && b in net && op.vnode.kind == Data
    requires op.vnode.did !in net[b].cache
    ensures StorageOperate(net, a, op).Ok? && Stable(StorageOperate(net, a, op).value)
    ensures b in StorageOperate(net, a, op).value
    ensures Holder(net, a, op.vnode.did) in net && Holder(net, b, op.vnode.did) in net
    ensures var key := op.vnode.did;
      var stored := ValueAfter(net[Holder(net, a, key)], op);
      var before := net[Holder(net, b, key)].storage;
      var fetched := StorageFetch(StorageOperate(net, a, op).value, b, key);
      && fetched.Ok? && b in fetched.value
      && (key in fetched.value[b].cache && Ok(fetched.value[b].cache[key]) == stored
          <==> (a == key <==> b == key) || (key in before && Ok(before[key]) == stored))
  {
    FetchAfterStore(net, a, b, op);
    HoldersAgreeIff(net, a, b, op.vnode.did);
    ValueHasItsId(net, Holder(net, a, op.vnode.did), op);
    assert StoreInv(net[Holder(net, b, op.vnode.did)].storage);
  }
}
