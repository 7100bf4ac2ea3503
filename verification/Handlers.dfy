/** The message handlers as they run on a node: each works on its own copy of the relay that came in. */
module Handlers {
  import opened Wrappers
  import opened Ring
  import opened VNodes
  import opened Fingers
  import opened Successors
  import opened Chord
  import opened FixFingers
  import opened Lookup
  import opened PeerRings
  import opened Relays
  import opened Messages
  import Stabilization

  // ---------- what a handler does to the relay of a SEND ----------

  /** Exactly the SEND messages a node takes in. */
  predicate Acceptable(r: Relay, n: Did) {
    && r.kind == SEND && NeighboursDiffer(r.path) && !InfiniteLoop(r.path)
    && (r.nextHop.Some? ==> r.nextHop.value == n)
  }

  /** `q` is `r` after node `n`, on the way to `next` and in the end to `destination`. */
  predicate GoesOn(r: Relay, n: Did, q: Relay, next: Did, destination: Did) {
    q == Relay(SEND, r.path + [n], r.cursor, Some(next), destination)
  }

  /** `q` is the report that leaves node `n` for the node that `r` came from, and in the end for its origin. */
  predicate GoesBack(r: Relay, n: Did, q: Relay) {
    var hop := if r.cursor < |r.path| then Some(Back(r.path, r.cursor)) else None;
    r.path != [] && q == Relay(REPORT, r.path + [n], 0, hop, r.path[0])
  }

  lemma SendGoesOn(r: Relay, n: Did, next: Did)
    requires Usable(r) && r.kind == SEND
    ensures Relayed(r, n, Some(next)).Ok? <==> Acceptable(r, n)
    ensures Acceptable(r, n) ==> GoesOn(r, n, Relayed(r, n, Some(next)).value, next, r.destination)
  {
    RelayedSucceedsIff(r, n, Some(next));
  }

  lemma SendGoesBack(r: Relay, n: Did)
    requires Usable(r) && r.kind == SEND
    ensures Relayed(r, n, None).Ok? <==> Acceptable(r, n)
    ensures Acceptable(r, n) ==>
      var back := Report(Relayed(r, n, None).value);
      (back.Ok? <==> r.path != []) && (back.Ok? ==> GoesBack(r, n, back.value))
  {
    RelayedSucceedsIff(r, n, None);
  }

  // ---------- joins and lookups ----------

  /** Joins the node; unless it is the one the message came from, asks it for the successor of this node's own id. */
  method HandleJoinDHT(dht: PeerRing, addr: Did, d: Did) returns (out: Option<Relay>)
    requires dht.Valid()
    modifies dht`live, dht.finger.finger, dht.successor
    ensures dht.Valid() && (old(dht.Indexed()) ==> dht.Indexed()) && dht.live == old(dht.live) + {d}
    ensures dht.State() == JoinPeer(old(dht.State()), d)
    ensures out == if d == dht.did || d == addr then None else Some(Relay(SEND, [dht.did], 0, Some(d), d))
  {
    var action := dht.Join(d);
    match action
    case NoAction => return None;
    case Remote(next, _) => return if next != addr then Some(NewSend(dht.did, next, next)) else None;
  }

  /** The node answers for the key itself. */
  predicate InCharge(p: Peer, key: Did) {
    p.successors == [] || Dist(p.did, key) <= Dist(p.did, p.successors[0])
  }

  /**
   * Node `p` sends what is about `key` on to `next`, which its highest slot strictly before the key holds: a node
   * strictly nearer to the key, or itself; and with exact fingers another node exactly if some finger lies
   * strictly before the key.
   */
  ghost predicate SendsOn(p: Peer, exact: bool, key: Did, next: Did) {
    && HighestBefore(p.did, p.fingers, key, next)
    && Dist(p.did, next) < Dist(p.did, key)
    && (next == p.did || Dist(next, key) < Dist(p.did, key))
    && (exact ==> (next != p.did <==> HasFingerBefore(p, key)))
  }

  lemma NotInChargeSendsOn(p: Peer, live: set<Did>, key: Did)
    ensures FindSuccessorOf(p, key).Found? <==> InCharge(p, key)
    ensures FindSuccessorOf(p, key).Remote? ==> SendsOn(p, PeerInv(p, live), key, FindSuccessorOf(p, key).next)
  {
    FindSuccessorInAnyState(p, key);
    if FindSuccessorOf(p, key).Remote? {
      ForwardIsNearer(p, key);
      if PeerInv(p, live) {
        ForwardLeavesIff(p, live, key);
      }
    }
  }

  /** How handling a lookup fails: as the hop does, or because only a SEND can be answered or sent elsewhere. */
  lemma HandleFindFails(p: Peer, ctx: Relay, key: Did)
    requires Usable(ctx)
    ensures var hop := if InCharge(p, key) then None else Some(FindSuccessorOf(p, key).next);
      match Relayed(ctx, p.did, hop)
      case Err(e) => HandleFind(p, ctx, key) == Err(e)
      case Ok(_) => HandleFind(p, ctx, key).Err? ==>
        HandleFind(p, ctx, key).error ==
          if !InCharge(p, key) then ResetDestinationNeedSend
          else if ctx.kind == REPORT then ReportNeedSend else CannotInferNextHop
  {
    NotInChargeSendsOn(p, {}, key);
  }

  /**
   * The message is taken in exactly if it is an acceptable SEND, with an origin if it has to be answered. A node
   * in charge answers its nearest successor, by a report to where the message came from; any other node sends it
   * on, and to the node it names as destination. That may be the node itself.
   */
  method HandleFindSuccessorSend(dht: PeerRing, ctx: Relay, key: Did) returns (r: Result<FindReply, RelayError>)
    requires dht.Valid() && Usable(ctx)
    ensures r == HandleFind(dht.State(), ctx, key)
    ensures r.Ok? <==> Acceptable(ctx, dht.did) && (InCharge(dht.State(), key) ==> ctx.path != [])
    ensures r.Ok? ==> (r.value.Answered? <==> InCharge(dht.State(), key))
    ensures r.Ok? && r.value.Answered? ==>
      r.value.found == MinOf(dht.did, dht.successor.successors) && GoesBack(ctx, dht.did, r.value.report)
    ensures r.Ok? && r.value.Forward? ==>
      var q := r.value.relay;
      GoesOn(ctx, dht.did, q, q.destination, q.destination) && SendsOn(dht.State(), dht.Indexed(), key, q.destination)
  {
    NotInChargeSendsOn(dht.State(), dht.live, key);
    var relay := new MessageRelay(ctx);
    var action := dht.FindSuccessor(key);
    match action
    case Found(s) =>
      if ctx.kind == SEND {
        SendGoesBack(ctx, dht.did);
      }
      var relayed := relay.RelayMessage(dht.did, None);
      if relayed.Err? {
        return Err(relayed.error);
      }
      match Report(relay.State()) {
        case Err(e) => return Err(e);
        case Ok(report) => return Ok(Answered(s, report));
      }
    case Remote(next, _) =>
      if ctx.kind == SEND {
        SendGoesOn(ctx, dht.did, next);
      }
      var relayed := relay.RelayMessage(dht.did, Some(next));
      if relayed.Err? {
        return Err(relayed.error);
      }
      var reset := relay.SetDestination(next);
      if reset.Err? {
        return Err(reset.error);
      }
      return Ok(Forward(relay.State()));
  }

  // ---------- storage ----------

  /** How handling an operation fails: by the refusal of the value, or because only a SEND can be sent elsewhere. */
  lemma HandleOperateFails(p: Peer, ctx: Relay, op: VNodeOperation)
    requires Usable(ctx) && HandleOperate(p, ctx, op).Err?
    ensures InCharge(p, op.vnode.did) ==>
      ValueAfter(p, op).Err? && HandleOperate(p, ctx, op).error == StoreFailed(ValueAfter(p, op).error)
    ensures !InCharge(p, op.vnode.did) ==> HandleOperate(p, ctx, op).error == RelayFailed(
      if ctx.kind == REPORT then ResetDestinationNeedSend
      else Relayed(ctx, p.did, Some(FindSuccessorOf(p, op.vnode.did).next)).error)
  {
    NotInChargeSendsOn(p, {}, op.vnode.did);
    if ctx.kind == SEND && !InCharge(p, op.vnode.did) {
      var next := FindSuccessorOf(p, op.vnode.did).next;
      RelayedSucceedsIff(ctx, p.did, Some(next));
      RelayedSucceedsIff(ctx.(destination := next), p.did, Some(next));
    }
  }

  lemma OperateHandled(p: Peer, live: set<Did>, ctx: Relay, op: VNodeOperation)
    requires Usable(ctx) && StoreInv(p.storage)
    ensures var r, key := HandleOperate(p, ctx, op), op.vnode.did;
      && (r.Ok? <==> if InCharge(p, key) then op.vnode.kind == Data else Acceptable(ctx, p.did))
      && (r.Ok? && r.value.1.None? ==>
           ValueAfter(p, op).Ok? && r.value.0 == p.(storage := p.storage[key := ValueAfter(p, op).value]))
      && (r.Ok? && r.value.1.Some? ==>
           var q := r.value.1.value;
           && r.value.0 == p && GoesOn(ctx, p.did, q, q.destination, q.destination)
           && SendsOn(p, PeerInv(p, live), key, q.destination))
  {
    NotInChargeSendsOn(p, live, op.vnode.did);
    match FindSuccessorOf(p, op.vnode.did)
    case Found(_) => OperateKeepsStore(p, op);
    case Remote(next, _) =>
      if ctx.kind == SEND {
        SendGoesOn(ctx.(destination := next), p.did, next);
      }
  }

  /**
   * Answers the relay to forward with, if the node is not in charge of the value. A node in charge succeeds
   * exactly for data and then holds the new value; any other exactly for an acceptable SEND, which it passes on
   * towards the value, changing nothing. The store stays in order either way.
   */
  method HandleVNodeOperation(dht: PeerRing, ctx: Relay, op: VNodeOperation) returns (r: Result<Option<Relay>, Failure>)
    requires dht.Valid() && Usable(ctx)
    modifies dht`storage
    ensures dht.Valid() && (old(dht.Indexed()) ==> dht.Indexed())
    ensures match HandleOperate(old(dht.State()), ctx, op)
      case Ok((p, forward)) => r == Ok(forward) && dht.State() == p
      case Err(e) => r == Err(e) && dht.State() == old(dht.State())
    ensures r.Ok? <==>
      if InCharge(dht.State(), op.vnode.did) then op.vnode.kind == Data else Acceptable(ctx, dht.did)
    ensures r == Ok(None) ==>
      var v := ValueAfter(old(dht.State()), op);
      v.Ok? && dht.storage == old(dht.storage)[op.vnode.did := v.value]
    ensures r.Ok? && r.value.Some? ==>
      var q := r.value.value;
      && GoesOn(ctx, dht.did, q, q.destination, q.destination) && dht.storage == old(dht.storage)
      && SendsOn(dht.State(), dht.Indexed(), op.vnode.did, q.destination)
  {
    OperateHandled(dht.State(), dht.live, ctx, op);
    var done := dht.VNodeOperate(op);
    match done
    case Err(e) => return Err(StoreFailed(e));
    case Ok(NoAction) => return Ok(None);
    case Ok(Remote(next, _)) =>
      var relay := new MessageRelay(ctx);
      var reset := relay.SetDestination(next);
      if reset.Err? {
        return Err(RelayFailed(reset.error));
      }
      var relayed := relay.RelayMessage(dht.did, Some(next));
      if relayed.Err? {
        return Err(RelayFailed(relayed.error));
      }
      return Ok(Some(relay.State()));
  }

  /** Handling a search by any relay: a node not in charge passes it on as it is, also a REPORT. */
  lemma HandleSearchInAnyState(p: Peer, ctx: Relay, vid: Did)
    requires Usable(ctx)
    ensures !InCharge(p, vid) ==>
      HandleSearch(p, ctx, vid) ==
        match Relayed(ctx, p.did, Some(FindSuccessorOf(p, vid).next))
        case Ok(q) => Ok(SearchOn(q))
        case Err(e) => Err(e)
    ensures InCharge(p, vid) && HandleSearch(p, ctx, vid).Err? ==>
      && vid in p.storage
      && HandleSearch(p, ctx, vid).error ==
           match Relayed(ctx, p.did, None)
           case Err(e) => e
           case Ok(_) => if ctx.kind == REPORT then ReportNeedSend else CannotInferNextHop
  {
    NotInChargeSendsOn(p, {}, vid);
  }

  /**
   * A node in charge stays silent exactly if it does not have the value, and otherwise reports what it stores,
   * a data value under the id asked for, to where the message came from; any other node sends the message on.
   */
  method HandleSearchVNode(dht: PeerRing, ctx: Relay, vid: Did) returns (r: Result<SearchReply, RelayError>)
    requires dht.Valid() && Usable(ctx)
    ensures r == HandleSearch(dht.State(), ctx, vid)
    ensures r == Ok(NotFound) <==> InCharge(dht.State(), vid) && vid !in dht.storage
    ensures r.Ok? && r.value.FoundHere? <==>
      InCharge(dht.State(), vid) && vid in dht.storage && Acceptable(ctx, dht.did) && ctx.path != []
    ensures r.Ok? && r.value.FoundHere? ==>
      && r.value.vnode == dht.storage[vid] && r.value.vnode.did == vid && r.value.vnode.kind == Data
      && GoesBack(ctx, dht.did, r.value.report)
    ensures ctx.kind == SEND ==>
      (r.Ok? && r.value.SearchOn? <==> !InCharge(dht.State(), vid) && Acceptable(ctx, dht.did))
    ensures ctx.kind == SEND && r.Ok? && r.value.SearchOn? ==>
      var q := r.value.relay;
      q.nextHop.Some? && GoesOn(ctx, dht.did, q, q.nextHop.value, ctx.destination)
      && SendsOn(dht.State(), dht.Indexed(), vid, q.nextHop.value)
  {
    NotInChargeSendsOn(dht.State(), dht.live, vid);
    var relay := new MessageRelay(ctx);
    var action := dht.VNodeLookup(vid);
    match action
    case NoAction => return Ok(NotFound);
    case SomeVNode(v) =>
      if ctx.kind == SEND {
        SendGoesBack(ctx, dht.did);
      }
      var relayed := relay.RelayMessage(dht.did, None);
      if relayed.Err? {
        return Err(relayed.error);
      }
      match Report(relay.State()) {
        case Err(e) => return Err(e);
        case Ok(report) => return Ok(FoundHere(v, report));
      }
    case Remote(next, _) =>
      if ctx.kind == SEND {
        SendGoesOn(ctx, dht.did, next);
      }
      var relayed := relay.RelayMessage(dht.did, Some(next));
      if relayed.Err? {
        return Err(relayed.error);
      }
      return Ok(SearchOn(relay.State()));
  }

  /** Answers the relay to forward with, if the report is not at its end; else the values are cached in order. */
  method HandleFoundVNode(dht: PeerRing, ctx: Relay, data: seq<VirtualNode>)
    returns (r: Result<Option<Relay>, RelayError>)
    requires dht.Valid() && Usable(ctx)
    modifies dht`cache
    ensures dht.Valid() && (old(dht.Indexed()) ==> dht.Indexed())
    ensures match Relayed(ctx, dht.did, None)
      case Err(e) => r == Err(e) && dht.State() == old(dht.State())
      case Ok(q) =>
        if q.nextHop.Some? then r == Ok(Some(q)) && dht.State() == old(dht.State())
        else r == Ok(None) && dht.State() == old(dht.State()).(cache := CacheAll(old(dht.cache), data))
    ensures |data| == 1 ==>
      match HandleFound(old(dht.State()), ctx, data[0])
      case Err(e) => r == Err(e)
      case Ok((p, forward)) => r == Ok(forward) && dht.State() == p
  {
    if |data| == 1 {
      CacheOne(dht.cache, data[0]);
      assert data == [data[0]];
    }
    var relay := new MessageRelay(ctx);
    var relayed := relay.RelayMessage(dht.did, None);
    if relayed.Err? {
      return Err(relayed.error);
    }
    if relay.nextHop.Some? {
      return Ok(Some(relay.State()));
    }
    for i := 0 to |data|
      invariant dht.Valid() && (old(dht.Indexed()) ==> dht.Indexed())
      invariant dht.cache == CacheAll(old(dht.cache), data[..i])
    {
      assert data[..i + 1][..i] == data[..i];
      dht.LocalCacheSet(data[i]);
    }
    assert data[..|data|] == data;
    return Ok(None);
  }

  function CacheAll(cache: map<Did, VirtualNode>, data: seq<VirtualNode>): map<Did, VirtualNode> {
    if data == [] then cache else CacheAll(cache, data[..|data| - 1])[data[|data| - 1].did := data[|data| - 1]]
  }

  /** Under each id the last value of that id is cached; nothing else changes. */
  lemma {:induction false} CacheAllHolds(cache: map<Did, VirtualNode>, data: seq<VirtualNode>, i: nat, id: Did)
    requires i <= |data| && (i < |data| ==> data[i].did == id)
    requires forall j :: (if i < |data| then i + 1 else 0) <= j < |data| ==> data[j].did != id
    ensures i < |data| ==> id in CacheAll(cache, data) && CacheAll(cache, data)[id] == data[i]
    ensures i == |data| ==> (id in CacheAll(cache, data) <==> id in cache)
    ensures i == |data| && id in cache ==> CacheAll(cache, data)[id] == cache[id]
  {
    if data != [] && i != |data| - 1 {
      CacheAllHolds(cache, data[..|data| - 1], if i < |data| then i else i - 1, id);
    }
  }

  /** For the single value a search sends, this is what the run of a report does at each node. */
  lemma CacheOne(cache: map<Did, VirtualNode>, v: VirtualNode)
    ensures CacheAll(cache, [v]) == cache[v.did := v]
  {
    assert [v][..0] == [];
    assert CacheAll(cache, []) == cache;
  }

  // ---------- stabilization ----------

  /** The messages a node sends out in one stabilization round, one to every successor in its list. */
  method NotifyPredecessor(dht: PeerRing) returns (out: seq<Relay>)
    requires dht.Valid()
    ensures |out| == |dht.successor.successors|
    ensures forall i :: 0 <= i < |out| ==>
      out[i] == Relay(SEND, [dht.did], 0, Some(dht.successor.successors[i]), dht.did)
  {
    var successorMin, list := dht.successor.Min(), dht.successor.successors;
    out := [];
    if dht.did != successorMin {
      for i := 0 to |list|
        invariant |out| == i && forall j :: 0 <= j < i ==> out[j] == NewSend(dht.did, list[j], dht.did)
      {
        out := out + [NewSend(dht.did, list[i], dht.did)];
      }
    }
  }

  /** Handling `NotifyPredecessorSend`: the new state, and the predecessor reported back if it is another one. */
  function HandleNotify(p: Peer, r: Relay, d: Did): (Peer, Result<Option<(Did, Relay)>, RelayError>)
    requires Usable(r)
  {
    match Relayed(r, p.did, None)
    case Err(e) => (p, Err(e))
    case Ok(q) =>
      var notified := p.(predecessor := Notified(p.did, p.predecessor, d));
      if p.predecessor.Some? && q.path != [] && p.predecessor.value != q.path[0] then
        match Report(q)
        case Err(e) => (notified, Err(e))
        case Ok(report) => (notified, Ok(Some((p.predecessor.value, report))))
      else (notified, Ok(None))
  }

  /** The node a message started from, as the node `n` that takes it in sees it. */
  function OriginOf(r: Relay, n: Did): Did {
    if r.path == [] then n else r.path[0]
  }

  /**
   * The predecessor is notified exactly if the relay of the message, a SEND or a REPORT, can be passed on here.
   * It is then at least as near behind this node as the old one and as the notifying node, and one of the two.
   * The old one, if there was one and it is not the origin, is reported back to where the message came from;
   * where that has to be done only a SEND with an origin succeeds, but the predecessor is notified even so.
   */
  method HandleNotifyPredecessorSend(dht: PeerRing, ctx: Relay, d: Did)
    returns (r: Result<Option<(Did, Relay)>, RelayError>)
    requires dht.Valid() && Usable(ctx)
    modifies dht`predecessor
    ensures dht.Valid() && (old(dht.Indexed()) ==> dht.Indexed())
    ensures (dht.State(), r) == HandleNotify(old(dht.State()), ctx, d)
    ensures ctx.kind == SEND ==> (Relayed(ctx, dht.did, None).Ok? <==> Acceptable(ctx, dht.did))
    ensures Relayed(ctx, dht.did, None).Err? ==>
      r == Err(Relayed(ctx, dht.did, None).error) && dht.predecessor == old(dht.predecessor)
    ensures Relayed(ctx, dht.did, None).Ok? && r.Err? ==>
      r.error == if ctx.kind == REPORT then ReportNeedSend else CannotInferNextHop
    ensures Relayed(ctx, dht.did, None).Ok? ==>
      && (dht.predecessor == old(dht.predecessor) || dht.predecessor == Some(d))
      && dht.predecessor.Some? && Dist(dht.did, d) <= Dist(dht.did, dht.predecessor.value)
      && (old(dht.predecessor).Some? ==>
           Dist(dht.did, old(dht.predecessor).value) <= Dist(dht.did, dht.predecessor.value))
    ensures var answers := old(dht.predecessor).Some? && old(dht.predecessor).value != OriginOf(ctx, dht.did);
      && (r.Ok? <==> Relayed(ctx, dht.did, None).Ok? && (answers ==> ctx.kind == SEND && ctx.path != []))
      && (r.Ok? ==> (r.value.Some? <==> answers))
    ensures r.Ok? && r.value.Some? ==>
      Some(r.value.value.0) == old(dht.predecessor) && GoesBack(ctx, dht.did, r.value.value.1)
  {
    if ctx.kind == SEND {
      SendGoesBack(ctx, dht.did);
    }
    Stabilization.NotifiedIsNearer(dht.did, dht.predecessor, d);
    var relay := new MessageRelay(ctx);
    var predecessor := dht.predecessor;
    var relayed := relay.RelayMessage(dht.did, None);
    if relayed.Err? {
      return Err(relayed.error);
    }
    var accepted := dht.Notify(d);
    if predecessor.Some? && relay.path != [] && predecessor.value != relay.path[0] {
      match Report(relay.State())
      case Err(e) => return Err(e);
      case Ok(report) => return Ok(Some((predecessor.value, report)));
    }
    return Ok(None);
  }

  /** On the message a node sends, the handler takes the protocol's step, and its report goes back to the sender. */
  lemma NotifyHandlerIsStep(st: Stabilization.Proto, n: Did, s: Did)
    requires n in st.net && s in st.net && n != s && st.net[s].did == s
    requires Stabilization.NotifySend(n, s) in st.sent
    ensures var e := Stabilization.Deliver(Stabilization.NotifySend(n, s));
      var (p, reply) := HandleNotify(st.net[s], NewSend(n, s, n), n);
      && Stabilization.Enabled(st, e)
      && Stabilization.Step(st, e).net == st.net[s := p]
      && reply.Ok?
      && (reply.value.None? ==> Stabilization.Step(st, e).sent == st.sent)
      && (reply.value.Some? ==>
           var (d, report) := reply.value.value;
           && Stabilization.Step(st, e).sent == st.sent + {Stabilization.NotifyReport(d, n)}
           && report == Relay(REPORT, [n, s], 0, Some(n), n))
  {
    SendAlongSucceeds(NewSend(n, s, n), [s]);
    assert [n] + [s] == [n, s];
    NoRepeatsPrefix([n], [s]);
  }

  /** Stabilizing sends in the protocol what the node sends: its own id to every successor. */
  lemma StabilizeIsStep(st: Stabilization.Proto, n: Did)
    requires n in st.net && Stabilization.GoodAt(st.net, n)
    ensures Stabilization.Step(st, Stabilization.Stabilize(n)).net == st.net
    ensures forall m :: m in Stabilization.Step(st, Stabilization.Stabilize(n)).sent <==>
      m in st.sent || (m.NotifySend? && m.origin == n && m.to in st.net[n].successors)
  {
    if st.net[n].successors != [] {
      assert st.net[n].successors[0] in st.net[n].successors;
    }
  }

  /** A report has in the protocol the effect that its handler has on the successor list. */
  lemma ReportHandlerIsStep(st: Stabilization.Proto, d: Did, n: Did)
    requires n in st.net && st.net[n].did == n && Stabilization.NotifyReport(d, n) in st.sent
    ensures Stabilization.Step(st, Stabilization.Deliver(Stabilization.NotifyReport(d, n))) ==
      st.(net := st.net[n := ReportPeer(st.net[n], d)])
  {
  }

  /**
   * Handling `NotifyPredecessorReport` from a node that is connected, or is this node: the id goes into the
   * successor list, and stored values beyond it are handed over. An unconnected node is connected to first.
   */
  method HandleNotifyPredecessorReport(dht: PeerRing, d: Did, connected: bool)
    returns (connect: bool, handOver: Action, ghost order: seq<Did>)
    requires dht.Valid()
    modifies dht`storage, dht`live, dht.successor
    ensures dht.Valid() && (old(dht.Indexed()) ==> dht.Indexed())
    ensures connect <==> !connected && d != dht.did
    ensures connect ==> dht.State() == old(dht.State()) && handOver == NoAction
    ensures !connect ==>
      dht.State() == ReportPeer(old(dht.State()), d).(storage := KeptBy(dht.did, old(dht.storage), d))
    ensures !connect ==>
      dht.successor.successors == Updated(dht.did, dht.successor.max, old(dht.successor.successors), d)
    ensures !connect ==> forall k ::
      && (k in dht.storage <==> k in old(dht.storage) && Dist(dht.did, k) <= Dist(dht.did, d))
      && (k in dht.storage ==> dht.storage[k] == old(dht.storage)[k])
    ensures !connect ==>
      && (forall k :: k in order <==> k in old(dht.storage) && Dist(dht.did, k) > Dist(dht.did, d))
      && handOver == if order == [] then NoAction
                     else Remote(d, Chord.SyncVNodeWithSuccessor(EntriesAt(old(dht.storage), order)))
  {
    if !connected && d != dht.did {
      return true, NoAction, [];
    }
    connect := false;
    ReportKeepsSound(dht.State(), dht.live, d);
    dht.successor.Update(d);
    dht.live := dht.live + {d};
    handOver, order := dht.SyncVNodeWithSuccessor(d);
  }
}
