/** How the protocol reaches the ideal ring: rounds of notifications, and when a state at rest is ideal. */
module Rounds {
  import opened Wrappers
  import opened Ring
  import opened Successors
  import opened Chord
  import opened Lookup
  import opened Stabilization

  // ---------- the last node before a node ----------

  lemma {:induction false} LastOther(nodes: set<Did>, s: Did, t: Did) returns (last: Did)
    requires t in nodes && t != s
    ensures last in nodes && last != s && forall m :: m in nodes ==> Dist(s, m) <= Dist(s, last)
    decreases RING - Dist(s, t)
  {
    if m :| m in nodes && Dist(s, m) > Dist(s, t) {
      last := LastOther(nodes, s, m);
    } else {
      last := t;
    }
  }

  lemma LastOtherIsBefore(nodes: set<Did>, s: Did, last: Did, next: Did)
    requires s in nodes && last in nodes && last != s && forall m :: m in nodes ==> Dist(s, m) <= Dist(s, last)
    requires IsNext(nodes, last, next)
    ensures next == s
  {
    assert Dist(last, next) <= Dist(last, s);
    assert Dist(s, next) <= Dist(s, last);
  }

  lemma LastOtherIsTrue(nodes: set<Did>, s: Did, last: Did, pre: Option<Did>)
    requires last in nodes && last != s && forall m :: m in nodes ==> Dist(s, m) <= Dist(s, last)
    requires pre.Some? && pre.value in nodes && pre.value != s && Dist(s, last) <= Dist(s, pre.value)
    ensures IsTruePredecessor(nodes, s, pre)
  {
  }

  // ---------- what every run keeps ----------

  /** Node `n` has its true next node first in its list. */
  ghost predicate KnowsNext(net: Net, n: Did)
    requires n in net
  {
    net[n].successors != [] && IsNext(net.Keys, n, net[n].successors[0])
  }

  ghost predicate AllKnowNext(net: Net) {
    forall n {:trigger KnowsNext(net, n)} :: n in net ==> KnowsNext(net, n)
  }

  /** The predecessor of `s` is as near behind it as `n`, or nearer. */
  ghost predicate NearerThan(net: Net, s: Did, n: Did) {
    s in net && net[s].predecessor.Some? && Dist(s, n) <= Dist(s, net[s].predecessor.value)
  }

  /** Node `n` still has the same nearest successor, and a predecessor that is no farther. */
  ghost predicate OnwardAt(a: Net, b: Net, n: Did)
    requires n in a && n in b && a[n].successors != []
  {
    && b[n].successors != [] && b[n].successors[0] == a[n].successors[0]
    && (a[n].predecessor.Some? ==> NearerThan(b, n, a[n].predecessor.value))
  }

  lemma StepGoesOnward(st: Proto, e: Event, n: Did)
    requires ProtoInv(st) && Enabled(st, e) && n in st.net && KnowsNext(st.net, n)
    ensures n in Step(st, e).net && OnwardAt(st.net, Step(st, e).net, n)
  {
    match e
    case Stabilize(_) =>
    case Deliver(NotifySend(m, s)) =>
      NotifiedIsNearer(s, st.net[s].predecessor, m);
    case Deliver(NotifyReport(d, m)) =>
      if m == n {
        assert GoodAt(st.net, n);
        MemberKeepsNext(n, st.net[n].max, st.net[n].successors, st.net.Keys, d);
      }
  }

  /** A true nearest successor is not displaced by any node of the ring. */
  lemma MemberKeepsNext(n: Did, max: nat, list: seq<Did>, nodes: set<Did>, d: Did)
    requires WellFormed(n, max, list) && list != [] && IsNext(nodes, n, list[0]) && d in nodes
    ensures Updated(n, max, list, d) != [] && Updated(n, max, list, d)[0] == list[0]
  {
    if d != n && d !in list {
      var i := UpdatedShape(n, max, list, d);
      assert i > 0;
    }
  }

  lemma StepKeepsNexts(st: Proto, e: Event)
    requires ProtoInv(st) && Enabled(st, e) && AllKnowNext(st.net)
    ensures ProtoInv(Step(st, e)) && Step(st, e).net.Keys == st.net.Keys && AllKnowNext(Step(st, e).net)
  {
    StepLightens(st, e);
    forall n | n in Step(st, e).net ensures KnowsNext(Step(st, e).net, n) {
      assert KnowsNext(st.net, n);
      StepGoesOnward(st, e, n);
    }
  }

  /** Nothing a run does takes a true nearest successor away or moves a predecessor back. */
  lemma {:induction false} RunGoesOnward(st: Proto, events: seq<Event>, n: Did)
    requires ProtoInv(st) && Possible(st, events) && AllKnowNext(st.net) && n in st.net
    ensures ProtoInv(After(st, events)) && After(st, events).net.Keys == st.net.Keys
    ensures AllKnowNext(After(st, events).net)
    ensures st.net[n].successors != [] && OnwardAt(st.net, After(st, events).net, n)
    decreases |events|
  {
    assert KnowsNext(st.net, n);
    if events != [] {
      StepKeepsNexts(st, events[0]);
      StepGoesOnward(st, events[0], n);
      RunGoesOnward(Step(st, events[0]), events[1..], n);
    }
  }

  /** A notification delivered during a run has its effect at the end of it. */
  lemma {:induction false} DeliveredCounts(st: Proto, events: seq<Event>, n: Did, s: Did)
    requires ProtoInv(st) && Possible(st, events) && AllKnowNext(st.net) && s in st.net
    requires Deliver(NotifySend(n, s)) in events
    ensures NearerThan(After(st, events).net, s, n)
    decreases |events|
  {
    var next := Step(st, events[0]);
    StepKeepsNexts(st, events[0]);
    if events[0] == Deliver(NotifySend(n, s)) {
      NotifiedIsNearer(s, st.net[s].predecessor, n);
      RunGoesOnward(next, events[1..], s);
      assert KnowsNext(next.net, s);
    } else {
      assert events == [events[0]] + events[1..];
      DeliveredCounts(next, events[1..], n, s);
    }
  }

  // ---------- one round of notifications ----------

  /** Node `n` has its true next node first in its list, and its notification of that node arrives. */
  ghost predicate NotifiesNext(net: Net, events: seq<Event>, n: Did)
    requires n in net
  {
    KnowsNext(net, n) && Deliver(NotifySend(n, net[n].successors[0])) in events
  }

  /** A round: the notification of its true next node by every node arrives, among any other events, in any order. */
  ghost predicate IsRound(net: Net, events: seq<Event>) {
    forall n {:trigger NotifiesNext(net, events, n)} :: n in net ==> NotifiesNext(net, events, n)
  }

  lemma RoundKnowsNext(net: Net, events: seq<Event>)
    requires IsRound(net, events)
    ensures AllKnowNext(net)
  {
    forall n | n in net ensures KnowsNext(net, n) {
      assert NotifiesNext(net, events, n);
    }
  }

  /**
   * From true nearest successors, any run of the protocol that delivers a round, with all reports, delays and
   * repetitions it may also contain, leaves every node with its true predecessor.
   */
  lemma RoundSetsPredecessors(st: Proto, events: seq<Event>, s: Did)
    requires ProtoInv(st) && Possible(st, events) && IsRound(st.net, events) && s in st.net
    ensures s in After(st, events).net
    ensures IsTruePredecessor(st.net.Keys, s, After(st, events).net[s].predecessor)
  {
    var net, after := st.net, After(st, events).net;
    RoundKnowsNext(net, events);
    RunGoesOnward(st, events, s);
    assert KnowsNext(net, s);
    var last := LastOther(net.Keys, s, net[s].successors[0]);
    assert NotifiesNext(net, events, last);
    LastOtherIsBefore(net.Keys, s, last, net[last].successors[0]);
    DeliveredCounts(st, events, last, s);
    assert GoodAt(after, s);
    LastOtherIsTrue(net.Keys, s, last, after[s].predecessor);
  }

  ghost predicate ListComplete(net: Net, n: Did)
    requires n in net
  {
    NearestOf(n, net[n].max, net[n].successors, net.Keys)
  }

  ghost predicate AllComplete(net: Net) {
    forall n {:trigger ListComplete(net, n)} :: n in net ==> ListComplete(net, n)
  }

  /** `b` is `a` with other predecessors. */
  ghost predicate SameButPredecessors(a: Net, b: Net) {
    a.Keys == b.Keys && forall n :: n in a ==> b[n] == a[n].(predecessor := b[n].predecessor)
  }

  lemma NotifyKeepsComplete(net: Net, s: Did, n: Did)
    requires AllComplete(net) && s in net && n in net
    ensures SameButPredecessors(net, NotifyAt(net, s, n)) && AllComplete(NotifyAt(net, s, n))
  {
    var after := NotifyAt(net, s, n);
    assert after.Keys == net.Keys;
    forall m | m in after ensures ListComplete(after, m) {
      assert ListComplete(net, m);
    }
  }

  lemma StepKeepsComplete(st: Proto, e: Event)
    requires ProtoInv(st) && Enabled(st, e) && AllComplete(st.net)
    ensures SameButPredecessors(st.net, Step(st, e).net) && AllComplete(Step(st, e).net)
  {
    match e
    case Stabilize(_) =>
    case Deliver(NotifySend(n, s)) =>
      NotifyKeepsComplete(st.net, s, n);
    case Deliver(NotifyReport(d, n)) =>
      assert ListComplete(st.net, n) && GoodAt(st.net, n);
      NearestIgnoresMember(n, st.net[n].max, st.net[n].successors, st.net.Keys, d);
      assert ReportAt(st.net, n, d) == st.net;
  }

  /** Where lists are complete a run changes nothing but predecessors. */
  lemma {:induction false} RunKeepsComplete(st: Proto, events: seq<Event>)
    requires ProtoInv(st) && Possible(st, events) && AllComplete(st.net)
    ensures SameButPredecessors(st.net, After(st, events).net) && AllComplete(After(st, events).net)
    decreases |events|
  {
    if events != [] {
      StepLightens(st, events[0]);
      StepKeepsComplete(st, events[0]);
      RunKeepsComplete(Step(st, events[0]), events[1..]);
    }
  }

  /** From complete successor lists any run that delivers a round ends in the ideal ring. */
  lemma RoundMakesIdeal(st: Proto, events: seq<Event>)
    requires ProtoInv(st) && Possible(st, events) && IsRound(st.net, events) && AllComplete(st.net)
    ensures Ideal(After(st, events).net)
  {
    var after := After(st, events).net;
    RunKeepsComplete(st, events);
    FinitelyManyChanges(st, events);
    forall s | s in after ensures IdealAt(after, s) {
      assert GoodAt(after, s) && ListComplete(after, s);
      RoundSetsPredecessors(st, events, s);
    }
  }

  /** Such runs exist: every node stabilizes and its message to its next node arrives. */
  lemma {:induction false} RoundExists(st: Proto, todo: set<Did>) returns (events: seq<Event>)
    requires ProtoInv(st) && AllKnowNext(st.net) && todo <= st.net.Keys
    ensures Possible(st, events)
    ensures forall n :: n in todo ==>
      st.net[n].successors != [] && Deliver(NotifySend(n, st.net[n].successors[0])) in events
    decreases todo
  {
    if todo == {} {
      events := [];
    } else {
      var n :| n in todo;
      assert KnowsNext(st.net, n);
      var s := st.net[n].successors[0];
      var st1 := Step(st, Stabilize(n));
      var deliver := Deliver(NotifySend(n, s));
      assert s in st.net[n].successors;
      assert GoodAt(st.net, n);
      StepKeepsNexts(st, Stabilize(n));
      StepKeepsNexts(st1, deliver);
      var rest := RoundExists(Step(st1, deliver), todo - {n});
      PrependEvent(st1, deliver, rest);
      PrependEvent(st, Stabilize(n), [deliver] + rest);
      events := [Stabilize(n)] + ([deliver] + rest);
      forall m | m in todo
        ensures st.net[m].successors != [] && Deliver(NotifySend(m, st.net[m].successors[0])) in events
      {
        assert KnowsNext(st.net, m);
        assert Step(st1, deliver).net[m].successors == st.net[m].successors;
      }
    }
  }

  // ---------- a node joins ----------

  /** Node `n` has its next node apart from `x` first in its list. */
  ghost predicate KnewNext(net: Net, n: Did, x: Did)
    requires n in net
  {
    net[n].successors != [] && IsNext(net.Keys - {x}, n, net[n].successors[0])
  }

  /** Node `n` knows its next node, or did before `x` came. */
  ghost predicate SettledAt(net: Net, n: Did, x: Did)
    requires n in net
  {
    KnowsNext(net, n) || (n != x && KnewNext(net, n, x))
  }

  /** Node `x` knows its next node; the others know theirs, or did before `x` came. */
  ghost predicate JoinsIn(net: Net, x: Did) {
    x in net && forall n {:trigger SettledAt(net, n, x)} :: n in net ==> SettledAt(net, n, x)
  }

  lemma ReportSettles(n: Did, max: nat, list: seq<Did>, nodes: set<Did>, x: Did, d: Did)
    requires WellFormed(n, max, list) && list != [] && IsNext(nodes - {x}, n, list[0]) && d in nodes && n != x
    ensures var r := Updated(n, max, list, d);
      r != [] && IsNext(if d == x then nodes else nodes - {x}, n, r[0])
  {
    if d != n {
      UpdatedHead(n, max, list, d);
    }
  }

  lemma StepSettles(st: Proto, e: Event, n: Did, x: Did)
    requires ProtoInv(st) && Enabled(st, e) && n in st.net && SettledAt(st.net, n, x)
    ensures ProtoInv(Step(st, e)) && Step(st, e).net.Keys == st.net.Keys && SettledAt(Step(st, e).net, n, x)
    ensures KnowsNext(st.net, n) || (n != x && e == Deliver(NotifyReport(x, n))) ==> KnowsNext(Step(st, e).net, n)
  {
    StepLightens(st, e);
    if KnowsNext(st.net, n) {
      StepGoesOnward(st, e, n);
    } else if e.Deliver? && e.m.NotifyReport? && e.m.to == n {
      assert GoodAt(st.net, n);
      ReportSettles(n, st.net[n].max, st.net[n].successors, st.net.Keys, x, e.m.did);
    }
  }

  /** The report of `x` makes a node that knew its next node know it again, for the rest of any run. */
  lemma {:induction false} RunSettles(st: Proto, events: seq<Event>, n: Did, x: Did)
    requires ProtoInv(st) && Possible(st, events) && n in st.net && SettledAt(st.net, n, x)
    ensures After(st, events).net.Keys == st.net.Keys
    ensures KnowsNext(st.net, n) || (n != x && Deliver(NotifyReport(x, n)) in events) ==>
      KnowsNext(After(st, events).net, n)
    decreases |events|
  {
    if events != [] {
      StepSettles(st, events[0], n, x);
      RunSettles(Step(st, events[0]), events[1..], n, x);
      assert events == [events[0]] + events[1..];
    }
  }

  /** Only the node before `x` can be mistaken because of `x`. */
  lemma OthersKnowNext(net: Net, p: Did, x: Did, n: Did)
    requires JoinsIn(net, x) && p in net && p != x && IsNext(net.Keys, p, x) && n in net && n != p
    ensures KnowsNext(net, n)
  {
    assert SettledAt(net, n, x);
    if n != x {
      PassesBefore(n, p, x);
      assert KnewNext(net, n, x) ==> Dist(n, net[n].successors[0]) <= Dist(n, p);
    }
  }

  lemma PassesBefore(n: Did, p: Did, x: Did)
    requires p != x && n != p && n != x && Dist(p, x) <= Dist(p, n)
    ensures Dist(n, p) < Dist(n, x)
  {
  }

  /**
   * A node `x` joins a ring whose nearest successors are true: it knows its own next node, and nobody need know
   * it. Any run in which the node before it is told of it, among any other events, ends with true nearest
   * successors everywhere.
   */
  lemma JoinerIsTakenIn(st: Proto, events: seq<Event>, p: Did, x: Did)
    requires ProtoInv(st) && Possible(st, events) && JoinsIn(st.net, x)
    requires p in st.net && p != x && IsNext(st.net.Keys, p, x) && Deliver(NotifyReport(x, p)) in events
    ensures AllKnowNext(After(st, events).net)
  {
    assert SettledAt(st.net, p, x);
    RunSettles(st, events, p, x);
    forall n {:trigger KnowsNext(After(st, events).net, n)} | n in st.net
      ensures n in After(st, events).net && KnowsNext(After(st, events).net, n)
    {
      if n != p {
        OthersKnowNext(st.net, p, x, n);
        RunSettles(st, events, n, x);
      }
    }
  }

  /** Node `n` stabilizes, and its message to `s` arrives. */
  function NotifySteps(n: Did, s: Did): seq<Event> {
    [Stabilize(n), Deliver(NotifySend(n, s))]
  }

  lemma NotifyStepsRun(st: Proto, n: Did, s: Did, rest: seq<Event>) returns (next: Proto)
    requires ProtoInv(st) && n in st.net && s in st.net[n].successors
    ensures s in st.net && ProtoInv(next) && next.net == NotifyAt(st.net, s, n)
    ensures st.net[s].predecessor.Some? && st.net[s].predecessor.value != n ==>
      NotifyReport(st.net[s].predecessor.value, n) in next.sent
    ensures Possible(next, rest) ==> Possible(st, NotifySteps(n, s) + rest)
  {
    assert GoodAt(st.net, n);
    assert st.net[n].successors[0] in st.net[n].successors;
    var st1 := Step(st, Stabilize(n));
    StepLightens(st, Stabilize(n));
    var deliver := Deliver(NotifySend(n, s));
    assert NotifySend(n, s) in st1.sent;
    next := Step(st1, deliver);
    StepLightens(st1, deliver);
    if Possible(next, rest) {
      PrependEvent(st1, deliver, rest);
      PrependEvent(st, Stabilize(n), [deliver] + rest);
      assert [Stabilize(n)] + ([deliver] + rest) == NotifySteps(n, s) + rest;
    }
  }

  /** The node before `s` displaces every other predecessor. */
  lemma TrueNotifierStays(net: Net, x: Did, s: Did)
    requires Good(net) && x in net && IsNext(net.Keys, x, s)
    ensures NotifyAt(net, s, x)[s].predecessor == Some(x)
  {
    assert GoodAt(net, s);
    if net[s].predecessor.Some? {
      var pre := net[s].predecessor.value;
      assert pre == x || Dist(x, s) <= Dist(x, pre);
      DistSplit(s, x, pre);
    }
  }

  lemma SameNextNode(nodes: set<Did>, p: Did, x: Did, s: Did, t: Did)
    requires p in nodes && p != x && IsNext(nodes, p, x) && IsNext(nodes, x, s) && IsNext(nodes - {x}, p, t)
    ensures s == t
  {
    assert t in nodes && Dist(x, s) <= Dist(x, t) && Dist(p, x) <= Dist(p, t);
    PassesBefore(t, p, x);
    DistSplit(p, x, t);
    if s != p {
      assert Dist(p, t) <= Dist(p, s) && Dist(p, x) <= Dist(p, s);
      DistSplit(p, x, s);
    }
  }

  /** There is such a run, if the node before `x` does not know it yet and is not alone. */
  lemma JoinerRunExists(st: Proto, p: Did, x: Did) returns (events: seq<Event>)
    requires ProtoInv(st) && JoinsIn(st.net, x) && p in st.net && p != x && IsNext(st.net.Keys, p, x)
    requires KnewNext(st.net, p, x)
    ensures Possible(st, events) && Deliver(NotifyReport(x, p)) in events
  {
    assert SettledAt(st.net, x, x);
    var s := st.net[x].successors[0];
    SameNextNode(st.net.Keys, p, x, s, st.net[p].successors[0]);
    assert s in st.net[x].successors && s in st.net[p].successors;
    var report := Deliver(NotifyReport(x, p));
    TrueNotifierStays(st.net, x, s);
    var st2 := NotifyStepsRun(st, x, s, NotifySteps(p, s) + [report]);
    var st4 := NotifyStepsRun(st2, p, s, [report]);
    PrependEvent(st4, report, []);
    assert [report] + [] == [report];
    events := NotifySteps(x, s) + (NotifySteps(p, s) + [report]);
    assert events[4] == report;
  }

  // ---------- which states at rest are ideal ----------

  /** At rest, true nearest successors mean true predecessors. */
  lemma RestHasTruePredecessors(net: Net, s: Did)
    requires Good(net) && Quiescent(net) && AllKnowNext(net) && s in net
    ensures IsTruePredecessor(net.Keys, s, net[s].predecessor)
  {
    assert KnowsNext(net, s);
    var last := LastOther(net.Keys, s, net[s].successors[0]);
    assert KnowsNext(net, last);
    LastOtherIsBefore(net.Keys, s, last, net[last].successors[0]);
    QuiescentIsMutual(net, last);
    LastOtherIsTrue(net.Keys, s, last, net[s].predecessor);
  }

  /** The true predecessor of a listed node is the owner of the list or listed before that node. */
  lemma PredecessorIsListed(net: Net, n: Did, i: nat) returns (j: nat)
    requires Good(net) && Quiescent(net) && AllKnowNext(net) && n in net && 0 < i < |net[n].successors|
    ensures j < i && net[n].successors[i] in net
    ensures net[net[n].successors[i]].predecessor == Some(net[n].successors[j])
  {
    assert GoodAt(net, n);
    var list := net[n].successors;
    var s := list[i];
    assert s in list && list[0] in list;
    RestHasTruePredecessors(net, s);
    var p := net[s].predecessor.value;
    assert Exchange(net, n, s) == net;
    NotifyAlone(net, n, s);
    assert Dist(n, list[0]) < Dist(n, list[i]);
    OwnerIsFarther(n, list[0], s);
    assert p != n;
    BetweenIsNearer(s, n, p);
    NearerIsListed(n, net[n].max, list, i, p);
    j :| 0 <= j < |list| && list[j] == p;
  }

  lemma OwnerIsFarther(n: Did, x: Did, s: Did)
    requires 0 < Dist(n, x) < Dist(n, s)
    ensures Dist(s, x) > Dist(s, n)
  {
  }

  /** An update with something nearer than a listed node is without effect only if it is listed. */
  lemma NearerIsListed(n: Did, max: nat, list: seq<Did>, i: nat, p: Did)
    requires WellFormed(n, max, list) && i < |list| && p != n && Dist(n, p) < Dist(n, list[i])
    requires Updated(n, max, list, p) == list
    ensures p in list
  {
    UpdatedElements(n, max, list, p);
    assert list[i] in list;
  }

  /** At rest, true nearest successors make every list a contiguous stretch of the ring that starts at its owner. */
  lemma {:induction false} RestListsAreContiguous(net: Net, n: Did, i: nat, x: Did)
    requires Good(net) && Quiescent(net) && AllKnowNext(net) && n in net && i < |net[n].successors|
    requires x in net && x != n && x !in net[n].successors
    ensures Dist(n, net[n].successors[i]) < Dist(n, x)
  {
    var list := net[n].successors;
    assert KnowsNext(net, n);
    assert list[i] in list;
    DistSplit(n, list[i], x);
    if i > 0 {
      var j := PredecessorIsListed(net, n, i);
      RestListsAreContiguous(net, n, j, x);
      RestHasTruePredecessors(net, list[i]);
      assert GoodAt(net, n);
      NothingBetween(n, list[j], list[i], x);
    }
  }

  lemma NothingBetween(n: Did, p: Did, s: Did, x: Did)
    requires Dist(n, p) < Dist(n, s) && Dist(n, p) < Dist(n, x) && Dist(s, x) <= Dist(s, p) && x != s
    ensures Dist(n, s) < Dist(n, x)
  {
  }

  /** The list of `n` is full, or holds every other node. */
  ghost predicate ListFilled(net: Net, n: Did)
    requires n in net
  {
    |net[n].successors| == net[n].max || forall x :: x in net && x != n ==> x in net[n].successors
  }

  ghost predicate AllFilled(net: Net) {
    forall n {:trigger ListFilled(net, n)} :: n in net ==> ListFilled(net, n)
  }

  /**
   * A ring at rest without empty lists is ideal exactly if every nearest successor is the true one and every
   * list is full or holds all other nodes.
   */
  lemma RestIsIdealIff(net: Net)
    requires Good(net) && Quiescent(net) && forall n :: n in net ==> net[n].successors != []
    ensures Ideal(net) <==> AllKnowNext(net) && AllFilled(net)
  {
    if AllKnowNext(net) && AllFilled(net) {
      forall n | n in net ensures IdealAt(net, n) {
        assert GoodAt(net, n) && ListFilled(net, n);
        RestHasTruePredecessors(net, n);
        forall x, y | x in net && x != n && x !in net[n].successors && y in net[n].successors
          ensures Dist(n, y) < Dist(n, x)
        {
          var i :| 0 <= i < |net[n].successors| && net[n].successors[i] == y;
          RestListsAreContiguous(net, n, i, x);
        }
      }
    }
    if Ideal(net) {
      forall n | n in net ensures KnowsNext(net, n) && ListFilled(net, n) {
        assert IdealAt(net, n);
        CompleteListKnowsNext(net, n);
      }
    }
  }

  lemma CompleteListKnowsNext(net: Net, n: Did)
    requires n in net && net[n].successors != [] && net[n].did == n && ListComplete(net, n)
    ensures KnowsNext(net, n) && ListFilled(net, n)
  {
    var list := net[n].successors;
    assert list[0] in list;
    forall m | m in net && m != n ensures Dist(n, list[0]) <= Dist(n, m) {
      MinIsNearest(net[n], net.Keys, m);
    }
  }
  // ---------- what each node can see of it ----------

  ghost predicate IsTop(net: Net, top: Did) {
    top in net && forall n :: n in net ==> n <= top
  }

  /** The nearest successor of `n` has a higher id. */
  ghost predicate HeadsUp(net: Net, n: Did)
    requires n in net
  {
    net[n].successors != [] && n < net[n].successors[0]
  }

  ghost predicate AllButTopHeadUp(net: Net, top: Did) {
    forall n {:trigger HeadsUp(net, n)} :: n in net && n != top ==> HeadsUp(net, n)
  }

  /** At rest some nodes never have fewer nearest successors than they are. */
  lemma {:induction false} HeadsAreAsMany(net: Net, nodes: set<Did>, heads: set<Did>)
    requires Good(net) && Quiescent(net) && nodes <= net.Keys
    requires forall n :: n in nodes ==> net[n].successors != [] && net[n].successors[0] in heads
    ensures |nodes| <= |heads|
    decreases nodes
  {
    if nodes != {} {
      var n :| n in nodes;
      forall m | m in nodes - {n} ensures net[m].successors[0] != net[n].successors[0] {
        QuiescentIsOneToOne(net, n, m);
      }
      HeadsAreAsMany(net, nodes - {n}, heads - {net[n].successors[0]});
    }
  }

  /** The nodes from `k` up, without the highest, but with `n`. */
  function Movers(above: set<Did>, k: Did, top: Did, n: Did): set<Did> {
    above + {k} - {top} + {n}
  }

  lemma OneMoverTooMany(above: set<Did>, k: Did, top: Did, n: Did)
    requires k !in above && top in above && n != k && (n == top || n !in above)
    ensures |Movers(above, k, top, n)| == |above| + 1
  {
    assert above + {k} - {top} == above - {top} + {k};
    assert Movers(above, k, top, n) == above - {top} + {k} + {n};
  }

  lemma MoverGoesUp(net: Net, top: Did, n: Did, k: Did, m: Did)
    requires Good(net) && AllButTopHeadUp(net, top) && n in net && net[n].successors != [] && k in net && k != top
    requires net[n].successors[0] > k && (m == n || (m in net && m >= k && m != top))
    ensures net[m].successors != [] && net[m].successors[0] in net && net[m].successors[0] > k
  {
    assert GoodAt(net, m);
    assert m != n ==> HeadsUp(net, m);
    assert net[m].successors[0] in net[m].successors;
  }

  function Above(net: Net, k: Did): set<Did> {
    set m | m in net && m > k
  }

  lemma MoversGoUp(net: Net, top: Did, n: Did, k: Did)
    requires Good(net) && AllButTopHeadUp(net, top) && n in net && net[n].successors != [] && k in net && k != top
    requires net[n].successors[0] > k
    ensures Movers(Above(net, k), k, top, n) <= net.Keys
    ensures forall m :: m in Movers(Above(net, k), k, top, n) ==>
      net[m].successors != [] && net[m].successors[0] in Above(net, k)
  {
    forall m | m in Movers(Above(net, k), k, top, n)
      ensures m in net && net[m].successors != [] && net[m].successors[0] in Above(net, k)
    {
      MoverGoesUp(net, top, n, k, m);
    }
  }

  /** No nearest successor skips a node: else the movers would have too few nodes above `k` to go to. */
  lemma NoneIsSkipped(net: Net, top: Did, n: Did, k: Did)
    requires Good(net) && Quiescent(net) && IsTop(net, top) && AllButTopHeadUp(net, top)
    requires n in net && net[n].successors != [] && k in net && k != top && (n < k || n == top)
    ensures net[n].successors[0] <= k
  {
    var above := Above(net, k);
    OneMoverTooMany(above, k, top, n);
    if net[n].successors[0] > k {
      MoversGoUp(net, top, n, k);
      HeadsAreAsMany(net, Movers(above, k, top, n), above);
    }
  }

  /**
   * At rest and without empty lists, all nearest successors are true exactly if every node but the one of the
   * highest id has a nearest successor of higher id than its own.
   */
  lemma RestKnowsNextIff(net: Net, top: Did)
    requires Good(net) && Quiescent(net) && IsTop(net, top) && forall n :: n in net ==> net[n].successors != []
    ensures AllKnowNext(net) <==> AllButTopHeadUp(net, top)
  {
    if AllKnowNext(net) {
      forall n {:trigger HeadsUp(net, n)} | n in net && n != top ensures HeadsUp(net, n) {
        assert KnowsNext(net, n);
        assert Dist(n, net[n].successors[0]) <= Dist(n, top);
      }
    }
    if AllButTopHeadUp(net, top) {
      forall n {:trigger KnowsNext(net, n)} | n in net ensures KnowsNext(net, n) {
        HeadIsNext(net, top, n);
      }
    }
  }

  lemma HeadIsNext(net: Net, top: Did, n: Did)
    requires Good(net) && Quiescent(net) && IsTop(net, top) && AllButTopHeadUp(net, top)
    requires n in net && net[n].successors != []
    ensures KnowsNext(net, n)
  {
    var s := net[n].successors[0];
    assert GoodAt(net, n);
    assert s in net[n].successors;
    assert n != top ==> HeadsUp(net, n);
    forall m | m in net && m != n ensures Dist(n, s) <= Dist(n, m) {
      if m != top && (n < m || n == top) {
        NoneIsSkipped(net, top, n, m);
      }
    }
  }
}
