/** Lookups over a whole ring of nodes: termination, the node found, the number of hops. */
module Lookup {
  import opened Wrappers
  import opened Ring
  import opened Fingers
  import opened Chord
  import opened Sequences

  type Net = map<Did, Peer>

  // ---------- what a good ring is ----------

  /** `s` is the first other node of the ring clockwise from `n`. */
  ghost predicate IsNext(nodes: set<Did>, n: Did, s: Did) {
    s in nodes && s != n && forall m :: m in nodes && m != n ==> Dist(n, s) <= Dist(n, m)
  }

  /** Nearest successor true and also a finger; fingers are other nodes of the ring. */
  ghost predicate StablePeer(p: Peer, nodes: set<Did>) {
    && Members(p.fingers) <= nodes - {p.did}
    && (p.successors == [] <==> nodes == {p.did})
    && (p.successors != [] ==> IsNext(nodes, p.did, p.successors[0]) && p.successors[0] in Members(p.fingers))
  }

  ghost predicate StableAt(net: Net, n: Did)
    requires n in net
  {
    net[n].did == n && StablePeer(net[n], net.Keys)
  }

  ghost predicate Stable(net: Net) {
    forall n {:trigger StableAt(net, n)} :: n in net ==> StableAt(net, n)
  }

  ghost predicate FullAt(net: Net, n: Did)
    requires n in net
  {
    net[n].did == n && net[n].max > 0 && Knows(net[n], net.Keys)
  }

  /** Every node knows every other node as well as fingers and successor list allow. */
  ghost predicate Full(net: Net) {
    forall n {:trigger FullAt(net, n)} :: n in net ==> FullAt(net, n)
  }

  /** A node that joined all the others, in any order, knows them. */
  lemma JoinedAllKnows(n: Did, max: nat, ds: seq<Did>, nodes: set<Did>)
    requires max < 256 && IdSet(ds) + {n} == nodes
    ensures Knows(JoinAll(n, max, ds), nodes)
  {
    JoinAllKnows(n, max, ds);
    JoinKeepsKnows(JoinAll(n, max, ds), IdSet(ds), n);
  }

  lemma FullIsStable(net: Net)
    requires Full(net)
    ensures Stable(net)
  {
    forall n | n in net ensures StableAt(net, n) {
      assert FullAt(net, n);
      KnowingIsStable(net[n], net.Keys);
    }
  }

  lemma KnowingIsStable(p: Peer, nodes: set<Did>)
    requires Knows(p, nodes) && p.did in nodes && p.max > 0
    ensures StablePeer(p, nodes)
  {
    IndexOfMembers(p.did, p.fingers, nodes);
    IndexShape(p.did, p.fingers, nodes);
    MemberSlot(p.fingers, p.did);
    if p.successors == [] {
      forall m | m in nodes ensures m == p.did {
        if m != p.did {
          MinIsNearest(p, nodes, m);
        }
      }
    } else {
      var s := p.successors[0];
      assert s in p.successors;
      forall m | m in nodes && m != p.did ensures Dist(p.did, s) <= Dist(p.did, m) {
        MinIsNearest(p, nodes, m);
      }
      FirstFingerIsMin(p, nodes);
      FirstMember(p.fingers);
      MemberSlot(p.fingers, s);
    }
  }

  // ---------- one hop ----------

  /** In any state at all a node passes a lookup on to itself, or to a node strictly nearer to the key. */
  lemma ForwardIsNearer(p: Peer, key: Did)
    requires FindSuccessorOf(p, key).Remote?
    ensures var next := FindSuccessorOf(p, key).next;
      Dist(p.did, next) < Dist(p.did, key) && (next == p.did || Dist(next, key) < Dist(p.did, key))
  {
    var next := FindSuccessorOf(p, key).next;
    ClosestHighest(p.did, p.fingers, key);
    DistSplit(p.did, next, key);
    DistSplit(p.did, p.did, next);
  }

  /** What a node does with a lookup, in a stable ring. */
  lemma Hop(p: Peer, nodes: set<Did>, key: Did)
    requires StablePeer(p, nodes) && p.did in nodes
    ensures match FindSuccessorOf(p, key)
      case Found(s) =>
        && s in nodes && (p.successors == [] <==> s == p.did)
        && forall m :: m in nodes && m != p.did && s != p.did ==> Dist(p.did, key) <= Dist(p.did, s) <= Dist(p.did, m)
      case Remote(next, _) => next in nodes && 0 < Dist(p.did, next) < Dist(p.did, key)
  {
    var a := FindSuccessorOf(p, key);
    if a.Remote? {
      var s := p.successors[0];
      ClosestHighest(p.did, p.fingers, key);
      MemberSlot(p.fingers, s);
      MemberSlot(p.fingers, a.next);
      DistSplit(p.did, p.did, a.next);
    }
  }

  lemma HopNearsKey(n: Did, next: Did, key: Did)
    requires 0 < Dist(n, next) < Dist(n, key)
    ensures Dist(next, key) < Dist(n, key) && next != key
  {
    DistSplit(n, next, key);
  }

  /** The nodes that handle a lookup, one after the other. */
  function Path(net: Net, n: Did, key: Did): (path: seq<Did>)
    requires Stable(net) && n in net
    ensures path != [] && path[0] == n && forall x :: x in path ==> x in net
    decreases Dist(n, key)
  {
    assert StableAt(net, n);
    Hop(net[n], net.Keys, key);
    var a := FindSuccessorOf(net[n], key);
    if a.Remote? then
      HopNearsKey(n, a.next, key);
      [n] + Path(net, a.next, key)
    else [n]
  }

  /** The node the last of them answers with. */
  function Answer(net: Net, n: Did, key: Did): Did
    requires Stable(net) && n in net
    decreases Dist(n, key)
  {
    assert StableAt(net, n);
    Hop(net[n], net.Keys, key);
    var a := FindSuccessorOf(net[n], key);
    if a.Remote? then
      HopNearsKey(n, a.next, key);
      Answer(net, a.next, key)
    else a.d
  }

  /** One unfolding of `Path` and `Answer`: the lookup ends here, or goes on nearer to the key. */
  lemma Unfold(net: Net, n: Did, key: Did) returns (next: Option<Did>)
    requires Stable(net) && n in net
    ensures next.None? ==>
      && FindSuccessorOf(net[n], key) == Found(Answer(net, n, key))
      && Path(net, n, key) == [n]
    ensures next.Some? ==>
      && next.value in net && next.value != key && Dist(next.value, key) < Dist(n, key)
      && FindSuccessorOf(net[n], key) == Remote(next.value, FindSuccessor(key))
      && Path(net, n, key) == [n] + Path(net, next.value, key)
      && Answer(net, n, key) == Answer(net, next.value, key)
  {
    assert StableAt(net, n);
    Hop(net[n], net.Keys, key);
    var a := FindSuccessorOf(net[n], key);
    if a.Remote? {
      HopNearsKey(n, a.next, key);
      next := Some(a.next);
    } else {
      next := None;
    }
  }

  // ---------- the answer ----------

  /** The first node at or clockwise after the key. */
  ghost predicate Owns(nodes: set<Did>, s: Did, key: Did) {
    s in nodes && forall m :: m in nodes ==> Dist(key, s) <= Dist(key, m)
  }

  lemma OwnerUnique(nodes: set<Did>, s: Did, t: Did, key: Did)
    requires Owns(nodes, s, key) && Owns(nodes, t, key)
    ensures s == t
  {
    DistSplit(key, s, t);
  }

  lemma FoundOwns(p: Peer, nodes: set<Did>, key: Did)
    requires StablePeer(p, nodes) && p.did in nodes && p.did != key && FindSuccessorOf(p, key).Found?
    ensures Owns(nodes, FindSuccessorOf(p, key).d, key)
  {
    Hop(p, nodes, key);
    var s := FindSuccessorOf(p, key).d;
    if s != p.did {
      forall m | m in nodes ensures Dist(key, s) <= Dist(key, m) {
        SuccessorOfKey(p.did, s, key, m);
      }
    }
  }

  lemma SuccessorOfKey(n: Did, s: Did, key: Did, m: Did)
    requires n != key && Dist(n, key) <= Dist(n, s) && (m != n ==> Dist(n, s) <= Dist(n, m))
    ensures Dist(key, s) <= Dist(key, m)
  {
  }

  lemma {:induction false} AnswerOwns(net: Net, n: Did, key: Did)
    requires Stable(net) && n in net && n != key
    ensures Owns(net.Keys, Answer(net, n, key), key)
    decreases Dist(n, key)
  {
    var next := Unfold(net, n, key);
    if next.Some? {
      AnswerOwns(net, next.value, key);
    } else {
      assert StableAt(net, n);
      FoundOwns(net[n], net.Keys, key);
    }
  }

  /** A lookup answers with the owner of the key exactly if it does not start at the key, or there is one node. */
  lemma AnswerOwnsIff(net: Net, n: Did, key: Did)
    requires Stable(net) && n in net
    ensures Owns(net.Keys, Answer(net, n, key), key) <==> n != key || net.Keys == {n}
  {
    if n != key {
      AnswerOwns(net, n, key);
    } else {
      assert StableAt(net, n);
      Hop(net[n], net.Keys, key);
      var s := Answer(net, n, key);
      DistSplit(key, key, s);
      assert net[n].successors == [] <==> net.Keys == {n};
    }
  }

  /** All nodes get the same answer. */
  lemma AllStartsAgree(net: Net, a: Did, b: Did, key: Did)
    requires Stable(net) && a in net && b in net && a != key && b != key
    ensures Answer(net, a, key) == Answer(net, b, key)
  {
    AnswerOwns(net, a, key);
    AnswerOwns(net, b, key);
    OwnerUnique(net.Keys, Answer(net, a, key), Answer(net, b, key), key);
  }

  // ---------- the path ----------

  /** Along the path the distance to the key only falls, and no node handles the lookup twice. */
  lemma {:induction false} PathDescends(net: Net, n: Did, key: Did)
    requires Stable(net) && n in net
    ensures forall i :: 0 < i < |Path(net, n, key)| ==> Dist(Path(net, n, key)[i], key) < Dist(n, key)
    ensures NoRepeats(Path(net, n, key))
    ensures key in Path(net, n, key) ==> n == key
    decreases Dist(n, key)
  {
    var next := Unfold(net, n, key);
    if next.Some? {
      PathDescends(net, next.value, key);
      Prepend(n, Path(net, next.value, key), key);
    }
  }

  lemma Prepend(n: Did, rest: seq<Did>, key: Did)
    requires rest != [] && NoRepeats(rest) && Dist(rest[0], key) < Dist(n, key)
    requires forall i :: 0 < i < |rest| ==> Dist(rest[i], key) < Dist(rest[0], key)
    ensures NoRepeats([n] + rest)
    ensures forall i :: 0 < i < |[n] + rest| ==> Dist(([n] + rest)[i], key) < Dist(n, key)
  {
  }

  /**
   * The same wherever a lookup leads while tables change between its hops: of nodes that each, when the lookup
   * is there, name the next one, another node, every later one is strictly nearer to the key.
   */
  lemma {:induction false} HandlersDescend(handlers: seq<Peer>, key: Did, i: nat, j: nat)
    requires i < j < |handlers|
    requires forall k {:trigger handlers[k]} :: 0 <= k < |handlers| - 1 ==>
      var a := FindSuccessorOf(handlers[k], key);
      a.Remote? && a.next == handlers[k + 1].did && a.next != handlers[k].did
    ensures Dist(handlers[j].did, key) < Dist(handlers[i].did, key) && handlers[j].did != handlers[i].did
    decreases j
  {
    ForwardIsNearer(handlers[j - 1], key);
    if i < j - 1 {
      HandlersDescend(handlers, key, i, j - 1);
    }
  }

  /** Nor does a node farther from the key, or the node the key stands for. */
  lemma OriginNotOnPath(net: Net, origin: Did, n: Did, key: Did)
    requires Stable(net) && n in net && n != key && (origin == key || Dist(n, key) < Dist(origin, key))
    ensures origin !in Path(net, n, key) && NoRepeats([origin] + Path(net, n, key))
  {
    PathDescends(net, n, key);
    var path := Path(net, n, key);
    forall i | 0 <= i < |path| ensures path[i] != origin {
      assert path[i] in path;
    }
  }

  // ---------- the number of hops ----------

  /** The last node strictly before the key. */
  ghost predicate IsBefore(nodes: set<Did>, p: Did, key: Did) {
    p in nodes && p != key && forall m :: m in nodes && m != key ==> Dist(p, key) <= Dist(m, key)
  }

  lemma {:induction false} BeforeExists(nodes: set<Did>, n: Did, key: Did) returns (p: Did)
    requires n in nodes && n != key
    ensures IsBefore(nodes, p, key)
    decreases Dist(n, key)
  {
    if m :| m in nodes && m != key && Dist(m, key) < Dist(n, key) {
      p := BeforeExists(nodes, m, key);
    } else {
      p := n;
    }
  }

  lemma BeforeIsAhead(nodes: set<Did>, p: Did, n: Did, m: Did, key: Did)
    requires IsBefore(nodes, p, key) && n in nodes && n != key && m in nodes
    ensures Dist(n, p) < Dist(n, key)
    ensures Dist(n, m) < Dist(n, key) ==> Dist(n, m) <= Dist(n, p) && Dist(m, p) == Dist(n, p) - Dist(n, m)
  {
    DistSplit(n, m, p);
    if Dist(n, m) < Dist(n, key) {
      assert m != key;
    }
  }

  /** The fingers of a node that knows the ring reach more than half of the way. */
  lemma HopHalves(q: Peer, nodes: set<Did>, p: Did, key: Did)
    requires Knows(q, nodes) && q.did in nodes && q.did != key && q.max > 0 && IsBefore(nodes, p, key)
    requires FindSuccessorOf(q, key).Remote?
    ensures 2 * Dist(FindSuccessorOf(q, key).next, p) < Dist(q.did, p)
  {
    var n, next := q.did, FindSuccessorOf(q, key).next;
    KnowingIsStable(q, nodes);
    Hop(q, nodes, key);
    BeforeIsAhead(nodes, p, n, next, key);
    Pow2OfRing();
    var j := Log2(Dist(n, p), 160);
    assert IsNearest(n, nodes, j, q.fingers[j]);
    MemberSlot(q.fingers, q.fingers[j].value);
    ClosestIsFarthestBefore(n, q.fingers, nodes, key);
  }

  lemma HopBudget(q: Peer, nodes: set<Did>, p: Did, key: Did, k: nat)
    requires Knows(q, nodes) && q.did in nodes && q.did != key && q.max > 0 && IsBefore(nodes, p, key)
    requires FindSuccessorOf(q, key).Remote? && Dist(q.did, p) < Pow2(k)
    ensures k > 0 && Dist(FindSuccessorOf(q, key).next, p) < Pow2(k - 1)
  {
    HopHalves(q, nodes, p, key);
    assert k == 0 ==> Pow2(k) == 1;
  }

  lemma {:induction false} HopsBound(net: Net, n: Did, p: Did, key: Did, k: nat)
    requires Full(net) && Stable(net) && n in net && n != key && IsBefore(net.Keys, p, key) && Dist(n, p) < Pow2(k)
    ensures |Path(net, n, key)| - 1 <= k
    decreases Dist(n, key)
  {
    var next := Unfold(net, n, key);
    if next.Some? {
      assert FullAt(net, n);
      HopBudget(net[n], net.Keys, p, key, k);
      HopsBound(net, next.value, p, key, k - 1);
    }
  }

  /** In a ring where everybody knows everybody, a lookup is passed on at most 160 times. */
  lemma AtMost160Hops(net: Net, n: Did, key: Did)
    requires Full(net) && n in net && n != key
    ensures Stable(net) && |Path(net, n, key)| - 1 <= 160
    ensures Owns(net.Keys, Answer(net, n, key), key)
  {
    FullIsStable(net);
    AnswerOwns(net, n, key);
    var p := BeforeExists(net.Keys, n, key);
    Pow2OfRing();
    HopsBound(net, n, p, key, 160);
  }
}
