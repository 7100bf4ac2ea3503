/** Stabilization: nodes notify their successors and learn of nodes in between from the reports. */
module Stabilization {
  import opened Wrappers
  import opened Ring
  import opened Successors
  import opened Chord
  import opened Lookup

  // ---------- the two effects ----------

  /** Node `s` is notified by `n`. */
  function NotifyAt(net: Net, s: Did, n: Did): Net
    requires s in net
  {
    net[s := net[s].(predecessor := Notified(s, net[s].predecessor, n))]
  }

  /** Node `n` is told of `d`. */
  function ReportAt(net: Net, n: Did, d: Did): Net
    requires n in net
  {
    net[n := net[n].(successors := Updated(n, net[n].max, net[n].successors, d))]
  }

  ghost predicate GoodPeer(p: Peer, nodes: set<Did>) {
    && WellFormed(p.did, p.max, p.successors)
    && (forall s :: s in p.successors ==> s in nodes)
    && (p.predecessor.Some? ==> p.predecessor.value in nodes && p.predecessor.value != p.did)
  }

  ghost predicate GoodAt(net: Net, n: Did)
    requires n in net
  {
    net[n].did == n && GoodPeer(net[n], net.Keys)
  }

  ghost predicate Good(net: Net) {
    forall n {:trigger GoodAt(net, n)} :: n in net ==> GoodAt(net, n)
  }

  lemma NotifyKeepsGood(net: Net, s: Did, n: Did)
    requires Good(net) && s in net && n in net && s != n
    ensures NotifyAt(net, s, n).Keys == net.Keys && Good(NotifyAt(net, s, n))
  {
    var after := NotifyAt(net, s, n);
    assert after.Keys == net.Keys;
    forall m | m in after ensures GoodAt(after, m) {
      assert GoodAt(net, m);
    }
  }

  lemma ReportKeepsGood(net: Net, n: Did, d: Did)
    requires Good(net) && n in net && d in net
    ensures ReportAt(net, n, d).Keys == net.Keys && Good(ReportAt(net, n, d))
  {
    var after := ReportAt(net, n, d);
    assert after.Keys == net.Keys;
    forall m | m in after ensures GoodAt(after, m) {
      assert GoodAt(net, m);
      UpdateKeepsWellFormed(m, net[m].max, net[m].successors, d);
      UpdatedElements(m, net[m].max, net[m].successors, d);
    }
  }

  // ---------- the measure ----------

  function SumDist(n: Did, list: seq<Did>): nat {
    if list == [] then 0 else Dist(n, list[0]) + SumDist(n, list[1..])
  }

  lemma {:induction false} SumDistConcat(n: Did, a: seq<Did>, b: seq<Did>)
    ensures SumDist(n, a + b) == SumDist(n, a) + SumDist(n, b)
  {
    if a == [] {
      assert a + b == b;
    } else {
      SumDistConcat(n, a[1..], b);
      assert (a + b)[0] == a[0] && (a + b)[1..] == a[1..] + b;
    }
  }

  /** Free slots weigh a whole round each, so that filling one always pays. */
  function ListWeight(n: Did, max: nat, list: seq<Did>): nat
    requires |list| <= max
  {
    (max - |list|) * RING + SumDist(n, list)
  }

  function GapWeight(n: Did, pre: Option<Did>): nat {
    match pre
    case None => RING
    case Some(p) => RING - Dist(n, p)
  }

  lemma UpdateLightens(n: Did, max: nat, list: seq<Did>, s: Did)
    requires WellFormed(n, max, list)
    ensures |Updated(n, max, list, s)| <= max
    ensures Updated(n, max, list, s) != list ==> ListWeight(n, max, Updated(n, max, list, s)) < ListWeight(n, max, list)
  {
    UpdateKeepsWellFormed(n, max, list, s);
    if s != n && s !in list {
      var i := UpdatedShape(n, max, list, s);
      if |list| < max {
        assert list == list[..i] + list[i..];
        SumDistOfInsert(n, list[..i], s, list[i..]);
      } else if i < |list| {
        PushOutLightens(n, list, i, s);
      }
    }
  }

  lemma PushOutLightens(n: Did, list: seq<Did>, i: nat, s: Did)
    requires Ascending(n, list) && i < |list| && Dist(n, s) < Dist(n, list[i])
    ensures SumDist(n, list[..i] + [s] + list[i..|list| - 1]) < SumDist(n, list)
  {
    var a, b, last := list[..i], list[i..|list| - 1], list[|list| - 1];
    SumDistOfInsert(n, a, s, b);
    SumDistOfInsert(n, a + b, last, []);
    assert list == a + b + [last] + [];
    assert a + b + [] == a + b;
    assert i < |list| - 1 ==> Dist(n, list[i]) < Dist(n, last);
  }

  lemma SumDistOfInsert(n: Did, a: seq<Did>, s: Did, b: seq<Did>)
    ensures SumDist(n, a + [s] + b) == SumDist(n, a + b) + Dist(n, s)
    ensures SumDist(n, [s]) == Dist(n, s)
  {
    SumDistConcat(n, a, b);
    SumDistConcat(n, a + [s], b);
    SumDistConcat(n, a, [s]);
    assert [s][1..] == [];
  }

  function PeerWeight(p: Peer): nat
    requires |p.successors| <= p.max
  {
    ListWeight(p.did, p.max, p.successors) + GapWeight(p.did, p.predecessor)
  }

  ghost function Pick(nodes: set<Did>): Did
    requires nodes != {}
  {
    var n :| n in nodes;
    n
  }

  ghost function WeightOf(net: Net, nodes: set<Did>): nat
    requires Good(net) && nodes <= net.Keys
  {
    if nodes == {} then 0
    else
      var n := Pick(nodes);
      assert GoodAt(net, n);
      PeerWeight(net[n]) + WeightOf(net, nodes - {n})
  }

  ghost function Weight(net: Net): nat
    requires Good(net)
  {
    WeightOf(net, net.Keys)
  }

  lemma {:induction false} WeightSplit(net: Net, nodes: set<Did>, n: Did)
    requires Good(net) && nodes <= net.Keys && n in nodes
    ensures |net[n].successors| <= net[n].max
    ensures WeightOf(net, nodes) == PeerWeight(net[n]) + WeightOf(net, nodes - {n})
    decreases nodes
  {
    assert GoodAt(net, n);
    var m := Pick(nodes);
    if m != n {
      WeightSplit(net, nodes - {m}, n);
      WeightSplit(net, nodes - {n}, m);
      assert nodes - {m} - {n} == nodes - {n} - {m};
    }
  }

  lemma {:induction false} WeightElsewhere(a: Net, b: Net, nodes: set<Did>)
    requires Good(a) && Good(b) && nodes <= a.Keys && nodes <= b.Keys && forall n :: n in nodes ==> a[n] == b[n]
    ensures WeightOf(a, nodes) == WeightOf(b, nodes)
    decreases nodes
  {
    if nodes != {} {
      var n :| n in nodes;
      WeightSplit(a, nodes, n);
      WeightSplit(b, nodes, n);
      WeightElsewhere(a, b, nodes - {n});
    }
  }

  lemma OneNodeLighter(a: Net, b: Net, n: Did)
    requires Good(a) && Good(b) && n in a && a.Keys == b.Keys && forall m :: m in a && m != n ==> a[m] == b[m]
    requires |a[n].successors| <= a[n].max && |b[n].successors| <= b[n].max && PeerWeight(b[n]) < PeerWeight(a[n])
    ensures Weight(b) < Weight(a)
  {
    WeightSplit(a, a.Keys, n);
    WeightSplit(b, a.Keys, n);
    WeightElsewhere(a, b, a.Keys - {n});
  }

  /** Every notification that changes a predecessor makes the ring lighter. */
  lemma NotifyLightens(net: Net, s: Did, n: Did)
    requires Good(net) && s in net && n in net && s != n
    ensures Good(NotifyAt(net, s, n))
    ensures NotifyAt(net, s, n) != net ==> Weight(NotifyAt(net, s, n)) < Weight(net)
  {
    var after := NotifyAt(net, s, n);
    NotifyKeepsGood(net, s, n);
    assert GoodAt(net, s);
    if net[s].predecessor != after[s].predecessor {
      DistSplit(s, s, n);
      OneNodeLighter(net, after, s);
    } else {
      assert after == net;
    }
  }

  /** Every report that changes a successor list makes the ring lighter. */
  lemma ReportLightens(net: Net, n: Did, d: Did)
    requires Good(net) && n in net && d in net
    ensures Good(ReportAt(net, n, d))
    ensures ReportAt(net, n, d) != net ==> Weight(ReportAt(net, n, d)) < Weight(net)
  {
    var after := ReportAt(net, n, d);
    ReportKeepsGood(net, n, d);
    assert GoodAt(net, n);
    UpdateLightens(n, net[n].max, net[n].successors, d);
    if net[n].successors != after[n].successors {
      OneNodeLighter(net, after, n);
    } else {
      assert after == net;
    }
  }

  // ---------- the protocol with messages under way ----------

  datatype Mail = NotifySend(origin: Did, to: Did) | NotifyReport(did: Did, to: Did)

  /** All messages ever sent: any of them may arrive at any time, late, again, or never. */
  datatype Proto = Proto(net: Net, sent: set<Mail>)

  datatype Event = Stabilize(n: Did) | Deliver(m: Mail)

  predicate Enabled(st: Proto, e: Event) {
    match e
    case Stabilize(n) => n in st.net
    case Deliver(m) => m in st.sent && m.to in st.net
  }

  function Step(st: Proto, e: Event): Proto
    requires Enabled(st, e)
  {
    match e
    case Stabilize(n) =>
      var list := st.net[n].successors;
      if MinOf(n, list) == n then st
      else st.(sent := st.sent + set s | s in list :: NotifySend(n, s))
    case Deliver(NotifySend(n, s)) =>
      var pre := st.net[s].predecessor;
      Proto(NotifyAt(st.net, s, n),
        if pre.Some? && pre.value != n then st.sent + {NotifyReport(pre.value, n)} else st.sent)
    case Deliver(NotifyReport(d, n)) =>
      st.(net := ReportAt(st.net, n, d))
  }

  ghost predicate ProtoInv(st: Proto) {
    && Good(st.net)
    && (forall n, s :: NotifySend(n, s) in st.sent ==> n in st.net && s in st.net && n != s)
    && (forall d, n :: NotifyReport(d, n) in st.sent ==> d in st.net && n in st.net)
  }

  /** Each step keeps the invariant and the set of nodes, and any change of a node makes the ring lighter. */
  lemma StepLightens(st: Proto, e: Event)
    requires ProtoInv(st) && Enabled(st, e)
    ensures ProtoInv(Step(st, e)) && Step(st, e).net.Keys == st.net.Keys
    ensures Step(st, e).net != st.net ==> Weight(Step(st, e).net) < Weight(st.net)
  {
    match e
    case Stabilize(n) =>
      assert GoodAt(st.net, n);
    case Deliver(NotifySend(n, s)) =>
      assert GoodAt(st.net, s);
      NotifyKeepsGood(st.net, s, n);
      NotifyLightens(st.net, s, n);
    case Deliver(NotifyReport(d, n)) =>
      ReportKeepsGood(st.net, n, d);
      ReportLightens(st.net, n, d);
  }

  /** The run of `events` from `st`, if each of them is possible. */
  ghost predicate Possible(st: Proto, events: seq<Event>)
    decreases |events|
  {
    events == [] || (Enabled(st, events[0]) && Possible(Step(st, events[0]), events[1..]))
  }

  ghost function After(st: Proto, events: seq<Event>): Proto
    requires Possible(st, events)
    decreases |events|
  {
    if events == [] then st else After(Step(st, events[0]), events[1..])
  }

  /** The number of events of the run that change some node. */
  ghost function Changes(st: Proto, events: seq<Event>): nat
    requires Possible(st, events)
    decreases |events|
  {
    if events == [] then 0
    else
      var next := Step(st, events[0]);
      (if next.net != st.net then 1 else 0) + Changes(next, events[1..])
  }

  /** However long a run is, no more of its events change anything than the ring was heavy at the start. */
  lemma {:induction false} FinitelyManyChanges(st: Proto, events: seq<Event>)
    requires ProtoInv(st) && Possible(st, events)
    ensures ProtoInv(After(st, events)) && After(st, events).net.Keys == st.net.Keys
    ensures Changes(st, events) + Weight(After(st, events).net) <= Weight(st.net)
    decreases |events|
  {
    if events != [] {
      StepLightens(st, events[0]);
      FinitelyManyChanges(Step(st, events[0]), events[1..]);
    }
  }

  // ---------- fixpoints ----------

  /** One full exchange: `n` notifies its successor `s`, and takes in what `s` reports. */
  function Exchange(net: Net, n: Did, s: Did): Net
    requires n in net && s in net
  {
    var pre := net[s].predecessor;
    var notified := NotifyAt(net, s, n);
    if pre.Some? && pre.value != n then ReportAt(notified, n, pre.value) else notified
  }

  /** An exchange is a piece of a run of the protocol. */
  lemma ExchangeIsRun(st: Proto, n: Did, s: Did)
    requires ProtoInv(st) && n in st.net && s in st.net && s in st.net[n].successors
    ensures var pre := st.net[s].predecessor;
      var events := [Stabilize(n), Deliver(NotifySend(n, s))] +
        (if pre.Some? && pre.value != n then [Deliver(NotifyReport(pre.value, n))] else []);
      Possible(st, events) && After(st, events).net == Exchange(st.net, n, s)
  {
    assert GoodAt(st.net, n);
    var pre := st.net[s].predecessor;
    var list := st.net[n].successors;
    assert list[0] in list;
    var notify := Deliver(NotifySend(n, s));
    var st1 := Step(st, Stabilize(n));
    assert NotifySend(n, s) in st1.sent;
    var st2 := Step(st1, notify);
    var tail: seq<Event> := [];
    if pre.Some? && pre.value != n {
      var report := Deliver(NotifyReport(pre.value, n));
      PrependEvent(st2, report, []);
      tail := [report];
      assert [report] + [] == tail;
    }
    PrependEvent(st1, notify, tail);
    PrependEvent(st, Stabilize(n), [notify] + tail);
    assert [Stabilize(n)] + ([notify] + tail) == [Stabilize(n), notify] + tail;
  }

  lemma PrependEvent(st: Proto, e: Event, rest: seq<Event>)
    requires Enabled(st, e) && Possible(Step(st, e), rest)
    ensures Possible(st, [e] + rest) && After(st, [e] + rest) == After(Step(st, e), rest)
  {
    assert ([e] + rest)[1..] == rest;
  }

  ghost predicate Quiescent(net: Net)
    requires Good(net)
  {
    forall n, s :: n in net && s in net[n].successors && s in net ==> Exchange(net, n, s) == net
  }

  /** Where no exchange changes anything, the nearest successor of every node has that node as predecessor. */
  lemma QuiescentIsMutual(net: Net, n: Did)
    requires Good(net) && Quiescent(net) && n in net && net[n].successors != []
    ensures net[n].successors[0] in net && net[net[n].successors[0]].predecessor == Some(n)
  {
    assert GoodAt(net, n);
    var list := net[n].successors;
    var s := list[0];
    assert s in list;
    assert GoodAt(net, s);
    assert Exchange(net, n, s) == net;
    NotifiedIsNearer(s, net[s].predecessor, n);
    NotifyAlone(net, n, s);
    var p := net[s].predecessor.value;
    if p != n {
      BetweenIsNearer(s, n, p);
      NearerChangesList(n, net[n].max, list, p);
    }
  }

  /** Hence "nearest successor" is one-to-one, and each node is pointed back at by the node it points to. */
  lemma QuiescentIsOneToOne(net: Net, n: Did, m: Did)
    requires Good(net) && Quiescent(net) && n in net && m in net && net[n].successors != [] && net[m].successors != []
    ensures net[n].successors[0] == net[m].successors[0] ==> n == m
  {
    QuiescentIsMutual(net, n);
    QuiescentIsMutual(net, m);
  }

  lemma NotifiedIsNearer(s: Did, pre: Option<Did>, n: Did)
    ensures Notified(s, pre, n).Some? && Dist(s, Notified(s, pre, n).value) >= Dist(s, n)
    ensures pre.Some? ==> Dist(s, Notified(s, pre, n).value) >= Dist(s, pre.value)
    ensures Notified(s, pre, n) == pre || Notified(s, pre, n) == Some(n)
  {
  }

  /** If an exchange changes nothing then neither half of it does: they touch different fields. */
  lemma NotifyAlone(net: Net, n: Did, s: Did)
    requires n in net && s in net && Exchange(net, n, s) == net
    ensures Notified(s, net[s].predecessor, n) == net[s].predecessor
    ensures net[s].predecessor.Some? && net[s].predecessor.value != n ==>
      Updated(n, net[n].max, net[n].successors, net[s].predecessor.value) == net[n].successors
  {
    var after := Exchange(net, n, s);
    assert after[s].predecessor == Notified(s, net[s].predecessor, n);
  }

  lemma BetweenIsNearer(s: Did, n: Did, p: Did)
    requires s != n && p != n && Dist(s, p) >= Dist(s, n)
    ensures Dist(n, p) < Dist(n, s) && p != s
  {
  }

  lemma NearerChangesList(n: Did, max: nat, list: seq<Did>, p: Did)
    requires WellFormed(n, max, list) && list != [] && p != n && Dist(n, p) < Dist(n, list[0])
    ensures Updated(n, max, list, p) != list
  {
    assert p !in list;
    var i := UpdatedShape(n, max, list, p);
    assert i == 0;
    assert Updated(n, max, list, p)[0] == p;
  }

  /** Each pair is a node and one of its successors at that time. */
  ghost predicate Along(net: Net, pairs: seq<(Did, Did)>)
    decreases |pairs|
  {
    pairs == [] ||
    (var (n, s) := pairs[0];
     n in net && s in net && s in net[n].successors && Along(Exchange(net, n, s), pairs[1..]))
  }

  ghost function Exchanges(net: Net, pairs: seq<(Did, Did)>): Net
    requires Along(net, pairs)
    decreases |pairs|
  {
    if pairs == [] then net
    else Exchanges(Exchange(net, pairs[0].0, pairs[0].1), pairs[1..])
  }

  lemma ExchangeLightens(net: Net, n: Did, s: Did)
    requires Good(net) && n in net && s in net && n != s
    ensures Good(Exchange(net, n, s)) && Exchange(net, n, s).Keys == net.Keys
    ensures Exchange(net, n, s) != net ==> Weight(Exchange(net, n, s)) < Weight(net)
  {
    assert GoodAt(net, s);
    var notified := NotifyAt(net, s, n);
    NotifyKeepsGood(net, s, n);
    NotifyLightens(net, s, n);
    var pre := net[s].predecessor;
    if pre.Some? && pre.value != n {
      ReportKeepsGood(notified, n, pre.value);
      ReportLightens(notified, n, pre.value);
    }
  }

  /** From every ring, no more exchanges between nodes and successors than it is heavy lead to a quiescent one. */
  lemma {:induction false} QuiescenceIsReached(net: Net) returns (pairs: seq<(Did, Did)>)
    requires Good(net)
    ensures Along(net, pairs) && |pairs| <= Weight(net)
    ensures Good(Exchanges(net, pairs)) && Quiescent(Exchanges(net, pairs))
    ensures Exchanges(net, pairs).Keys == net.Keys
    decreases Weight(net)
  {
    if n, s :| n in net && s in net[n].successors && s in net && Exchange(net, n, s) != net {
      assert GoodAt(net, n);
      ExchangeLightens(net, n, s);
      var rest := QuiescenceIsReached(Exchange(net, n, s));
      pairs := [(n, s)] + rest;
      assert pairs[1..] == rest;
    } else {
      pairs := [];
    }
  }

  /** A node with one successor and one predecessor. */
  function Linked(n: Did, next: Did, pre: Did): Peer {
    NewPeer(n, 1).(successors := [next], predecessor := Some(pre))
  }

  // ---------- the ideal ring ----------

  /** `pre` is the last other node clockwise from `n`. */
  ghost predicate IsTruePredecessor(nodes: set<Did>, n: Did, pre: Option<Did>) {
    if nodes == {n} then pre.None?
    else
      && pre.Some? && pre.value in nodes && pre.value != n
      && forall m :: m in nodes ==> Dist(n, m) <= Dist(n, pre.value)
  }

  ghost predicate IdealAt(net: Net, n: Did)
    requires n in net
  {
    && net[n].did == n
    && NearestOf(n, net[n].max, net[n].successors, net.Keys)
    && IsTruePredecessor(net.Keys, n, net[n].predecessor)
  }

  ghost predicate Ideal(net: Net) {
    forall n {:trigger IdealAt(net, n)} :: n in net ==> IdealAt(net, n)
  }

  /** No step of the protocol changes an ideal ring, whatever messages are still under way. */
  lemma IdealIsKept(st: Proto, e: Event)
    requires ProtoInv(st) && Ideal(st.net) && Enabled(st, e)
    ensures Step(st, e).net == st.net
  {
    match e
    case Stabilize(n) =>
    case Deliver(NotifySend(n, s)) =>
      assert IdealAt(st.net, s);
      IdealIgnoresNotify(st.net, s, n);
    case Deliver(NotifyReport(d, n)) =>
      assert IdealAt(st.net, n);
      NearestIgnoresMember(n, st.net[n].max, st.net[n].successors, st.net.Keys, d);
      assert ReportAt(st.net, n, d) == st.net;
  }

  lemma IdealIgnoresNotify(net: Net, s: Did, n: Did)
    requires s in net && n in net && n != s && IsTruePredecessor(net.Keys, s, net[s].predecessor)
    ensures NotifyAt(net, s, n) == net
  {
    assert net.Keys != {s};
    assert net[s].predecessor.Some? && Dist(s, n) <= Dist(s, net[s].predecessor.value);
  }

  lemma NearestIgnoresMember(n: Did, max: nat, list: seq<Did>, ids: set<Did>, d: Did)
    requires NearestOf(n, max, list, ids) && d in ids
    ensures Updated(n, max, list, d) == list
  {
    UpdateKeepsNearest(n, max, list, ids, d);
    assert ids + {d} == ids;
    NearestUnique(n, max, list, Updated(n, max, list, d), ids);
  }

  /** Two pairs of nodes that only know each other are quiescent too: exchanges alone do not merge rings. */
  lemma QuiescentMayBeSplit(net: Net)
    requires net == map[0 := Linked(0, 1, 1), 1 := Linked(1, 0, 0), 2 := Linked(2, 3, 3), 3 := Linked(3, 2, 2)]
    ensures Good(net) && Quiescent(net) && !Ideal(net)
  {
    assert net.Keys == {0, 1, 2, 3};
    forall n | n in net ensures GoodAt(net, n) {
      LinkedIsGood(net, n, net[n].successors[0]);
    }
    forall n, s | n in net && s in net[n].successors && s in net ensures Exchange(net, n, s) == net {
      MutualIsStill(net, n, s);
    }
    NotNearestOf(net.Keys, net[1].successors);
    assert !IdealAt(net, 1);
  }

  lemma LinkedIsGood(net: Net, n: Did, m: Did)
    requires n in net && m in net && n != m && net[n] == Linked(n, m, m)
    ensures GoodAt(net, n)
  {
  }

  lemma MutualIsStill(net: Net, n: Did, s: Did)
    requires n in net && s in net && net[s].predecessor == Some(n)
    ensures Exchange(net, n, s) == net
  {
  }

  lemma NotNearestOf(ids: set<Did>, list: seq<Did>)
    requires list == [0] && 2 in ids
    ensures !NearestOf(1, 1, list, ids)
  {
    assert 0 in list && 2 !in list && Dist(1, 0) > Dist(1, 2);
  }

  // ---------- one round of notifications ----------

  /** The predecessor of `n` after notifications by `ds` in that order. */
  function NotifiedByAll(n: Did, pre: Option<Did>, ds: seq<Did>): Option<Did> {
    if ds == [] then pre else Notified(n, NotifiedByAll(n, pre, ds[..|ds| - 1]), ds[|ds| - 1])
  }

  /** `r` is one of `pre` and `ds`, and none of these is farther clockwise from `n`. */
  ghost predicate IsFarthest(n: Did, pre: Option<Did>, ds: seq<Did>, r: Option<Did>) {
    match r
    case None => pre.None? && ds == []
    case Some(x) =>
      && (pre == r || x in ds)
      && (forall d :: d in ds ==> Dist(n, d) <= Dist(n, x))
      && (pre.Some? ==> Dist(n, pre.value) <= Dist(n, x))
  }

  /** What is kept is the id of greatest distance among the old one and all that notified. */
  lemma {:induction false} NotifiedByAllIsFarthest(n: Did, pre: Option<Did>, ds: seq<Did>)
    ensures IsFarthest(n, pre, ds, NotifiedByAll(n, pre, ds))
  {
    if ds != [] {
      var front, last := ds[..|ds| - 1], ds[|ds| - 1];
      NotifiedByAllIsFarthest(n, pre, front);
      OneMoreFarthest(n, pre, front, NotifiedByAll(n, pre, front), last);
      assert ds == front + [last];
    }
  }

  lemma OneMoreFarthest(n: Did, pre: Option<Did>, front: seq<Did>, r: Option<Did>, last: Did)
    requires IsFarthest(n, pre, front, r)
    ensures IsFarthest(n, pre, front + [last], Notified(n, r, last))
  {
    NotifiedIsNearer(n, r, last);
  }

  /** So the order in which notifications arrive, and their repetition, do not matter. */
  lemma NotifyOrderIrrelevant(n: Did, pre: Option<Did>, ds: seq<Did>, es: seq<Did>)
    requires IdSet(ds) == IdSet(es)
    ensures NotifiedByAll(n, pre, ds) == NotifiedByAll(n, pre, es)
  {
    NotifiedByAllIsFarthest(n, pre, ds);
    NotifiedByAllIsFarthest(n, pre, es);
    EmptyIds(ds);
    EmptyIds(es);
    FarthestUnique(n, pre, ds, es, NotifiedByAll(n, pre, ds), NotifiedByAll(n, pre, es));
  }

  lemma EmptyIds(ds: seq<Did>)
    ensures IdSet(ds) == {} <==> ds == []
  {
    if ds != [] {
      assert ds[0] in IdSet(ds);
    }
  }

  lemma FarthestUnique(n: Did, pre: Option<Did>, ds: seq<Did>, es: seq<Did>, a: Option<Did>, b: Option<Did>)
    requires IdSet(ds) == IdSet(es) && (ds == [] <==> es == [])
    requires IsFarthest(n, pre, ds, a) && IsFarthest(n, pre, es, b)
    ensures a == b
  {
    if a.Some? && b.Some? {
      assert a.value in ds ==> a.value in IdSet(es);
      assert b.value in es ==> b.value in IdSet(ds);
      DistSplit(n, a.value, b.value);
    }
  }
}
