/** From empty nodes to a working ring: joins in any order, then any run that delivers a round of notifications. */
module Bootstrap {
  import opened Wrappers
  import opened Ring
  import opened VNodes
  import opened Chord
  import opened Lookup
  import opened Messages
  import opened Stabilization
  import opened Rounds

  type Joins = map<Did, seq<Did>>

  /** Node `n` started empty and joined exactly the other nodes, in some order, perhaps repeatedly. */
  ghost predicate JoinedAt(net: Net, joins: Joins, n: Did)
    requires n in net && n in joins
  {
    && 0 < net[n].max < 256
    && net[n] == JoinAll(n, net[n].max, joins[n])
    && IdSet(joins[n]) + {n} == net.Keys
  }

  ghost predicate AllJoined(net: Net, joins: Joins) {
    && |net| > 1 && joins.Keys == net.Keys
    && forall n {:trigger JoinedAt(net, joins, n)} :: n in net ==> JoinedAt(net, joins, n)
  }

  /** Any two nodes that joined each other are such a network. */
  lemma TwoNodesJoined(a: Did, b: Did, max: nat, joins: Joins, net: Net)
    requires a != b && 0 < max < 256 && joins == map[a := [b], b := [a]]
    requires net == map[a := JoinAll(a, max, joins[a]), b := JoinAll(b, max, joins[b])]
    ensures AllJoined(net, joins)
  {
    assert net.Keys == {a, b} && joins.Keys == {a, b};
    assert |net| == |net.Keys|;
    JoinAllKnows(a, max, joins[a]);
    JoinAllKnows(b, max, joins[b]);
    forall n {:trigger JoinedAt(net, joins, n)} | n in net ensures JoinedAt(net, joins, n) {
      assert IdSet(joins[n]) + {n} == {a, b};
    }
  }

  lemma JoinedNode(net: Net, joins: Joins, n: Did)
    requires AllJoined(net, joins) && n in net
    ensures FullAt(net, n) && GoodAt(net, n) && ListComplete(net, n) && KnowsNext(net, n)
    ensures net[n].storage == map[]
  {
    assert JoinedAt(net, joins, n);
    JoinedAllKnows(n, net[n].max, joins[n], net.Keys);
    JoinAllKnows(n, net[n].max, joins[n]);
    JoinAllFrame(n, net[n].max, joins[n]);
    KnowingIsStable(net[n], net.Keys);
    assert net.Keys != {n} by { assert |net.Keys| == |net|; }
  }

  lemma JoinedIsFull(net: Net, joins: Joins)
    requires AllJoined(net, joins)
    ensures Full(net)
  {
    forall n | n in net ensures FullAt(net, n) {
      JoinedNode(net, joins, n);
    }
  }

  lemma JoinedIsGood(net: Net, joins: Joins)
    requires AllJoined(net, joins)
    ensures Good(net) && StoresInv(net)
  {
    forall n | n in net ensures GoodAt(net, n) && net[n].storage == map[] {
      JoinedNode(net, joins, n);
    }
  }

  lemma JoinedKnowsNext(net: Net, joins: Joins)
    requires AllJoined(net, joins)
    ensures AllKnowNext(net)
  {
    forall n {:trigger KnowsNext(net, n)} | n in net ensures KnowsNext(net, n) {
      JoinedNode(net, joins, n);
    }
  }

  lemma JoinedIsComplete(net: Net, joins: Joins)
    requires AllJoined(net, joins)
    ensures AllComplete(net)
  {
    forall n {:trigger ListComplete(net, n)} | n in net ensures ListComplete(net, n) {
      JoinedNode(net, joins, n);
    }
  }

  lemma OtherPredecessorsKeepFull(net: Net, ring: Net)
    requires Full(net) && SameButPredecessors(net, ring)
    ensures Full(ring)
  {
    forall n | n in ring ensures FullAt(ring, n) {
      assert FullAt(net, n);
    }
  }

  /** The nodes after the joins, no message sent yet. */
  function Start(net: Net): Proto {
    Proto(net, {})
  }

  /**
   * After the joins, every run of the protocol that delivers a round ends in a ring that is ideal, fully known
   * and stable, with its stores in order.
   */
  lemma RingWorks(net: Net, joins: Joins, events: seq<Event>)
    requires AllJoined(net, joins) && Possible(Start(net), events) && IsRound(net, events)
    ensures var ring := After(Start(net), events).net;
      ring.Keys == net.Keys && Ideal(ring) && Full(ring) && Stable(ring) && StoresInv(ring)
  {
    JoinedIsFull(net, joins);
    JoinedIsGood(net, joins);
    JoinedIsComplete(net, joins);
    RoundMakesIdeal(Start(net), events);
    RunKeepsComplete(Start(net), events);
    OtherPredecessorsKeepFull(net, After(Start(net), events).net);
    FullIsStable(After(Start(net), events).net);
  }

  /** There is such a run. */
  lemma RingCanWork(net: Net, joins: Joins) returns (events: seq<Event>)
    requires AllJoined(net, joins)
    ensures Possible(Start(net), events) && IsRound(net, events)
  {
    JoinedIsGood(net, joins);
    JoinedKnowsNext(net, joins);
    events := RoundExists(Start(net), net.Keys);
    forall n {:trigger NotifiesNext(net, events, n)} | n in net ensures NotifiesNext(net, events, n) {
      assert KnowsNext(net, n);
    }
  }

  /** In such a ring a lookup of any key that does not start at the key ends at its owner after at most 160 forwards. */
  lemma RingAnswers(net: Net, joins: Joins, events: seq<Event>, a: Did, key: Did)
    requires AllJoined(net, joins) && Possible(Start(net), events) && IsRound(net, events)
    requires a in net && a != key
    ensures var ring := After(Start(net), events).net;
      && Stable(ring) && a in ring && |Path(ring, a, key)| - 1 <= 160
      && Owns(net.Keys, Answer(ring, a, key), key)
  {
    RingWorks(net, joins, events);
    AtMost160Hops(After(Start(net), events).net, a, key);
  }

  /**
   * And what any node stores, extends or touches any node fetches, unless exactly one of the two has the id
   * of the value as its own.
   */
  lemma RingServes(net: Net, joins: Joins, events: seq<Event>, a: Did, b: Did, op: VNodeOperation)
    requires AllJoined(net, joins) && Possible(Start(net), events) && IsRound(net, events) && a in net && b in net
    requires op.vnode.kind == Data && (a == op.vnode.did <==> b == op.vnode.did)
    ensures var ring := After(Start(net), events).net; var key := op.vnode.did;
      && Stable(ring) && a in ring && Holder(ring, a, key) in ring
      && var stored := StorageOperate(ring, a, op);
         stored.Ok? && Stable(stored.value) && b in stored.value
         && var fetched := StorageFetch(stored.value, b, key);
            && fetched.Ok? && b in fetched.value && key in fetched.value[b].cache
            && Ok(fetched.value[b].cache[key]) == ValueAfter(ring[Holder(ring, a, key)], op)
            && (op.Overwrite? ==> fetched.value[b].cache[key] == op.vnode)
  {
    RingWorks(net, joins, events);
    StoreThenFetch(After(Start(net), events).net, a, b, op);
  }
}
