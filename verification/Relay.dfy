/** Message relay: a SEND pushes its hops on a path, a REPORT walks the same path back. */
module Relays {
  import opened Wrappers
  import opened Ring
  import opened Sequences

  datatype RelayMethod = SEND | REPORT

  datatype RelayError =
    | InvalidNextHop
    | CannotInferNextHop
    | ReportNeedSend
    | ResetDestinationNeedSend
    | InvalidRelayPath
    | InvalidRelayDestination
    | InfiniteRelayPath
    | NoNextHop

  datatype Relay = Relay(
    kind: RelayMethod,
    path: seq<Did>,
    cursor: nat,
    nextHop: Option<Did>,
    destination: Did)

  // ---------- loop detection ----------

  function Min(a: nat, b: nat): nat {
    if a <= b then a else b
  }

  /** The element `i` places before the last one. */
  function Back<T>(path: seq<T>, i: nat): T
    requires i < |path|
  {
    path[|path| - 1 - i]
  }

  predicate AgreeAt<T(==)>(path: seq<T>, second: nat, third: nat, i: nat)
    requires second <= third && third + i < |path|
  {
    Back(path, i) == Back(path, second + i) && Back(path, second + i) == Back(path, third + i)
  }

  /** The blocks of length `len` that end at the last place, at `second` and at `third` are equal. */
  predicate BlocksAgree<T(==)>(path: seq<T>, second: nat, third: nat, len: nat)
    requires second <= third && third + len <= |path|
  {
    forall i :: 0 <= i < len ==> AgreeAt(path, second, third, i)
  }

  /** The last element occurs at these places, and nowhere else up to the last of them. */
  predicate OccursAt<T(==)>(path: seq<T>, second: nat, third: nat) {
    && 0 < second < third < |path|
    && forall i :: 0 <= i <= third ==> (Back(path, i) == Back(path, 0) <==> i == 0 || i == second || i == third)
  }

  /**
   * The last three occurrences of the last element are `gap` apart, and the blocks that end there
   * agree as far back as a whole gap, or as the path before the third one reaches.
   */
  predicate LoopsBy<T(==)>(path: seq<T>, gap: nat) {
    OccursAt(path, gap, 2 * gap) && BlocksAgree(path, gap, 2 * gap, Min(gap, |path| - 2 * gap))
  }

  predicate InfiniteLoop<T(==)>(path: seq<T>) {
    exists gap: nat | gap < |path| :: LoopsBy(path, gap)
  }

  /** The first `limit` places of `x`, counted from the end of the path and starting at `from`. */
  function BackIndexes<T(==)>(path: seq<T>, x: T, from: nat, limit: nat): seq<nat>
    decreases |path| - from
  {
    if limit == 0 || from >= |path| then []
    else if Back(path, from) == x then [from] + BackIndexes(path, x, from + 1, limit - 1)
    else BackIndexes(path, x, from + 1, limit)
  }

  lemma {:induction false} BackIndexesNext<T>(path: seq<T>, x: T, from: nat, limit: nat)
    requires limit > 0
    ensures var r := BackIndexes(path, x, from, limit);
      && (r == [] ==> forall i :: from <= i < |path| ==> Back(path, i) != x)
      && (r != [] ==>
           && from <= r[0] < |path| && Back(path, r[0]) == x
           && (forall i :: from <= i < r[0] ==> Back(path, i) != x)
           && r[1..] == BackIndexes(path, x, r[0] + 1, limit - 1))
    decreases |path| - from
  {
    if from < |path| {
      if Back(path, from) == x {
        assert ([from] + BackIndexes(path, x, from + 1, limit - 1))[1..] == BackIndexes(path, x, from + 1, limit - 1);
      } else {
        BackIndexesNext(path, x, from + 1, limit);
      }
    }
  }

  /** The three last places of the last element, or a proof that there are fewer. */
  lemma LastThree<T>(path: seq<T>)
    requires path != []
    ensures var r := BackIndexes(path, Back(path, 0), 0, 3);
      && 1 <= |r| <= 3 && r[0] == 0
      && (|r| < 3 ==> !InfiniteLoop(path))
      && (|r| == 3 ==> OccursAt(path, r[1], r[2]))
  {
    var x := Back(path, 0);
    var r := BackIndexes(path, x, 0, 3);
    var r1 := BackIndexes(path, x, 1, 2);
    assert r == [0] + r1;
    BackIndexesNext(path, x, 1, 2);
    if r1 == [] {
      TooFew(path, 0);
    } else {
      var r2 := BackIndexes(path, x, r1[0] + 1, 1);
      assert r1 == [r1[0]] + r2;
      BackIndexesNext(path, x, r1[0] + 1, 1);
      if r2 == [] {
        TooFew(path, r1[0]);
      } else {
        assert r2 == [r2[0]] + BackIndexes(path, x, r2[0] + 1, 0);
      }
    }
  }

  lemma LoopRecurs<T>(path: seq<T>, gap: nat)
    requires LoopsBy(path, gap)
    ensures 0 < gap && 2 * gap < |path| && Back(path, gap) == Back(path, 0) && Back(path, 2 * gap) == Back(path, 0)
  {
  }

  lemma TooFew<T>(path: seq<T>, second: nat)
    requires path != []
    requires forall i :: 0 < i < |path| && i != second ==> Back(path, i) != Back(path, 0)
    ensures !InfiniteLoop(path)
  {
    forall gap: nat ensures !LoopsBy(path, gap) {
      if LoopsBy(path, gap) {
        LoopRecurs(path, gap);
      }
    }
  }

  lemma OnlyGap<T>(path: seq<T>, second: nat, third: nat, gap: nat)
    requires OccursAt(path, second, third) && LoopsBy(path, gap)
    ensures gap == second && third == 2 * second
  {
    LoopRecurs(path, gap);
    assert Back(path, second) == Back(path, 0) && Back(path, third) == Back(path, 0);
  }

  lemma LoopIffBlocksAgree<T>(path: seq<T>, second: nat, third: nat)
    requires OccursAt(path, second, third)
    ensures InfiniteLoop(path) <==>
      third == 2 * second && BlocksAgree(path, second, third, Min(second, Min(third - second, |path| - third)))
  {
    if InfiniteLoop(path) {
      var gap: nat :| gap < |path| && LoopsBy(path, gap);
      OnlyGap(path, second, third, gap);
    }
    if third == 2 * second && BlocksAgree(path, second, third, Min(second, Min(third - second, |path| - third))) {
      assert LoopsBy(path, second);
    }
  }

  method HasInfiniteLoop<T(==)>(path: seq<T>) returns (found: bool)
    ensures found == InfiniteLoop(path)
  {
    if path == [] {
      return false;
    }
    var indexes := BackIndexes(path, Back(path, 0), 0, 3);
    LastThree(path);
    if |indexes| < 3 {
      return false;
    }
    var second, third := indexes[1], indexes[2];
    LoopIffBlocksAgree(path, second, third);
    var len0, len1, len2 := second - indexes[0], third - second, |path| - third;
    var minLen := Min(len0, Min(len1, len2));
    for i := 0 to minLen
      invariant BlocksAgree(path, second, third, i)
    {
      if !(Back(path, i) == Back(path, second + i) && Back(path, second + i) == Back(path, third + i)) {
        assert !AgreeAt(path, second, third, i);
        return false;
      }
    }
    return len0 == len1;
  }

  lemma NoRepeatsNoLoop<T>(path: seq<T>)
    requires NoRepeats(path)
    ensures !InfiniteLoop(path)
  {
    forall gap: nat ensures !LoopsBy(path, gap) {
      if LoopsBy(path, gap) {
        LoopRecurs(path, gap);
      }
    }
  }

  /** From `lead` on the path repeats a lap of `gap` nodes. */
  ghost predicate Laps<T>(path: seq<T>, lead: nat, gap: nat) {
    0 < gap && lead + gap <= |path| && forall i :: lead + gap <= i < |path| ==> path[i] == path[i - gap]
  }

  /** The path repeats a lap in which the node at `lead + once` occurs only once. */
  ghost predicate Circles<T>(path: seq<T>, lead: nat, gap: nat, once: nat) {
    && Laps(path, lead, gap) && once < gap
    && (forall i :: lead <= i < lead + gap && i != lead + once ==> path[i] != path[lead + once])
  }

  /** The circle is noticed at the latest when that node is reached in the fourth lap. */
  lemma CircleIsNoticed<T>(path: seq<T>, lead: nat, gap: nat, once: nat)
    requires Circles(path, lead, gap, once) && |path| == lead + once + 3 * gap + 1
    ensures LoopsBy(path, gap)
  {
    var n := |path| - 1;
    forall i | 0 <= i <= 2 * gap ensures Back(path, i) == Back(path, 0) <==> i == 0 || i == gap || i == 2 * gap {
      SameLap(path, lead, gap, once, n - i);
      SameLap(path, lead, gap, once, n);
    }
    forall i | 0 <= i < gap ensures AgreeAt(path, gap, 2 * gap, i) {
      assert path[n - i] == path[n - i - gap] && path[n - gap - i] == path[n - gap - i - gap];
    }
  }

  /** Any place in the laps two to four is equal to the place it corresponds to in the first lap. */
  lemma SameLap<T>(path: seq<T>, lead: nat, gap: nat, once: nat, at: nat)
    requires Circles(path, lead, gap, once) && lead + gap <= at < |path| && at < lead + 4 * gap
    ensures path[at] == path[lead + once] <==>
      at == lead + once + gap || at == lead + once + 2 * gap || at == lead + once + 3 * gap
  {
    assert path[at] == path[at - gap];
    if at - gap >= lead + gap {
      assert path[at - gap] == path[at - 2 * gap];
      if at - 2 * gap >= lead + gap {
        assert path[at - 2 * gap] == path[at - 3 * gap];
      }
    }
  }

  /** If an element recurs `lap` places earlier, no loop can have a gap larger than that. */
  lemma GapWithinLap<T>(path: seq<T>, lap: nat, gap: nat)
    requires LoopsBy(path, gap) && 0 < lap < |path| && Back(path, lap) == Back(path, 0)
    ensures gap <= lap
  {
  }

  /** The node `i` places before the last one of the lap, going round. */
  function Before<T>(lap: seq<T>, i: nat): T
    requires lap != []
    decreases i
  {
    if i < |lap| then Back(lap, i) else Before(lap, i - |lap|)
  }

  predicate RecursAt<T(==)>(lap: seq<T>, block: nat, i: nat)
    requires lap != []
  {
    Before(lap, i) == Before(lap, i + block)
  }

  /** Going round, the lap ends with the same block three times, whose last node occurs in it only once. */
  ghost predicate EndsThrice<T>(lap: seq<T>, block: nat)
    requires lap != []
  {
    && 0 < block <= |lap|
    && (forall i: nat {:trigger RecursAt(lap, block, i)} :: i < 2 * block ==> RecursAt(lap, block, i))
    && (forall i: nat {:trigger Before(lap, i)} :: 0 < i < block ==> Before(lap, i) != Before(lap, 0))
  }

  /** The end of a circling path is its last lap, read round. */
  lemma {:induction false} BackIsBefore<T>(path: seq<T>, lead: nat, gap: nat, m: nat, i: nat)
    requires Laps(path, lead, gap) && lead + gap <= m <= |path| && lead + i < m
    ensures path[m - 1 - i] == Before(path[m - gap..m], i)
  {
    if i >= gap {
      BackIsBefore(path, lead, gap, m, i - gap);
      assert path[m - 1 - i + gap] == path[m - 1 - i];
    }
  }

  /** It ends so with blocks of some length. */
  ghost predicate EndsAlike<T>(lap: seq<T>)
    requires lap != []
  {
    exists block: nat :: EndsThrice(lap, block)
  }

  lemma LoopEndsThrice<T>(path: seq<T>, lap: seq<T>, block: nat)
    requires lap != [] && block <= |lap| && 3 * |lap| <= |path|
    requires forall i {:trigger Back(path, i)} :: 0 <= i < 3 * |lap| ==> Back(path, i) == Before(lap, i)
    requires LoopsBy(path, block)
    ensures EndsThrice(lap, block)
  {
    LoopRecurs(path, block);
    forall i: nat | i < 2 * block ensures RecursAt(lap, block, i) {
      assert AgreeAt(path, block, 2 * block, if i < block then i else i - block);
      assert Back(path, i) == Before(lap, i) && Back(path, i + block) == Before(lap, i + block);
    }
    forall i: nat | 0 < i < block ensures Before(lap, i) != Before(lap, 0) {
      assert Back(path, i) == Before(lap, i) && Back(path, 0) == Before(lap, 0);
    }
  }

  lemma ThriceIsLoop<T>(path: seq<T>, lap: seq<T>, block: nat)
    requires lap != [] && 3 * |lap| <= |path|
    requires forall i {:trigger Back(path, i)} :: 0 <= i < 3 * |lap| ==> Back(path, i) == Before(lap, i)
    requires EndsThrice(lap, block)
    ensures LoopsBy(path, block)
  {
    forall i: nat | i < 2 * block ensures Back(path, i) == Back(path, i + block) {
      assert RecursAt(lap, block, i);
    }
    forall i | 0 <= i <= 2 * block
      ensures Back(path, i) == Back(path, 0) <==> i == 0 || i == block || i == 2 * block
    {
      assert Back(path, block) == Back(path, 0) && Back(path, 2 * block) == Back(path, block);
      assert block < i < 2 * block ==> Back(path, i) == Back(path, i - block);
    }
    forall i | 0 <= i < block ensures AgreeAt(path, block, 2 * block, i) {
      assert Back(path, block + i) == Back(path, 2 * block + i);
    }
  }

  /** From the end of the third lap on, a circling path is taken for a loop exactly if its last lap ends so. */
  lemma LoopIffEndsThrice<T>(path: seq<T>, lead: nat, gap: nat, m: nat)
    requires Laps(path, lead, gap) && lead + 3 * gap <= m <= |path|
    ensures InfiniteLoop(path[..m]) <==> EndsAlike(path[m - gap..m])
  {
    var part, lap := path[..m], path[m - gap..m];
    forall i | 0 <= i < 3 * gap ensures Back(part, i) == Before(lap, i) {
      BackIsBefore(path, lead, gap, m, i);
    }
    if InfiniteLoop(part) {
      var block: nat :| block < |part| && LoopsBy(part, block);
      assert Back(part, gap) == Before(lap, gap) == Before(lap, 0) == Back(part, 0);
      GapWithinLap(part, gap, block);
      LoopEndsThrice(part, lap, block);
    }
    if block: nat :| EndsThrice(lap, block) {
      ThriceIsLoop(part, lap, block);
    }
  }

  /** The same lap, begun `k` nodes later. */
  function Turned<T>(lap: seq<T>, k: nat): seq<T>
    requires k < |lap|
  {
    lap[k..] + lap[..k]
  }

  /** Read as a circle, the lap has a block three times in a row whose last node occurs once in that block. */
  ghost predicate HasThrice<T>(lap: seq<T>) {
    exists k: nat :: k < |lap| && EndsAlike(Turned(lap, k))
  }

  lemma LapFrom<T>(path: seq<T>, lead: nat, gap: nat, k: nat)
    requires Laps(path, lead, gap) && k < gap && lead + gap + k <= |path|
    ensures path[lead + k..lead + k + gap] == Turned(path[lead..lead + gap], k)
  {
    var lap, later := path[lead..lead + gap], path[lead + k..lead + k + gap];
    forall i | 0 <= i < gap ensures later[i] == Turned(lap, k)[i] {
      assert i >= gap - k ==> path[lead + k + i] == path[lead + k + i - gap];
    }
  }

  lemma SameLapLater<T>(path: seq<T>, lead: nat, gap: nat, m: nat)
    requires Laps(path, lead, gap) && lead + 2 * gap <= m <= |path|
    ensures path[m - gap..m] == path[m - 2 * gap..m - gap]
  {
    var lap, earlier := path[m - gap..m], path[m - 2 * gap..m - gap];
    forall i | 0 <= i < gap ensures lap[i] == earlier[i] {
      assert path[m - gap + i] == path[m - gap + i - gap];
    }
  }

  lemma {:induction false} LastLapIsTurned<T>(path: seq<T>, lead: nat, gap: nat, m: nat) returns (k: nat)
    requires Laps(path, lead, gap) && lead + gap <= m <= |path|
    ensures k < gap && path[m - gap..m] == Turned(path[lead..lead + gap], k)
    decreases m
  {
    if m < lead + 2 * gap {
      k := m - lead - gap;
      LapFrom(path, lead, gap, k);
    } else {
      SameLapLater(path, lead, gap, m);
      k := LastLapIsTurned(path, lead, gap, m - gap);
    }
  }

  /**
   * From the end of the third lap on, whether circling is noticed depends on the lap alone: exactly laps with
   * such a block are noticed, and before the fourth is complete.
   */
  lemma LapIsNoticedIff<T>(path: seq<T>, lead: nat, gap: nat)
    requires Laps(path, lead, gap) && lead + 4 * gap <= |path|
    ensures (exists m :: lead + 3 * gap <= m < lead + 4 * gap && InfiniteLoop(path[..m]))
            <==> HasThrice(path[lead..lead + gap])
    ensures (exists m :: lead + 3 * gap <= m <= |path| && InfiniteLoop(path[..m]))
            <==> HasThrice(path[lead..lead + gap])
  {
    var lap := path[lead..lead + gap];
    if m :| lead + 3 * gap <= m <= |path| && InfiniteLoop(path[..m]) {
      LoopIffEndsThrice(path, lead, gap, m);
      var k := LastLapIsTurned(path, lead, gap, m);
    }
    if HasThrice(lap) {
      var k: nat :| k < |lap| && EndsAlike(Turned(lap, k));
      var m := lead + 3 * gap + k;
      LapFrom(path, lead, gap, k);
      SameLapLater(path, lead, gap, m);
      SameLapLater(path, lead, gap, m - gap);
      LoopIffEndsThrice(path, lead, gap, m);
    }
  }

  /** So any circling is noticed within four laps or never. */
  lemma {:induction false} FourthLapDecides<T>(path: seq<T>, lead: nat, gap: nat, m: nat) returns (fourth: nat)
    requires Laps(path, lead, gap) && lead + 3 * gap <= m <= |path|
    ensures lead + 3 * gap <= fourth < lead + 4 * gap && fourth <= m
    ensures InfiniteLoop(path[..m]) <==> InfiniteLoop(path[..fourth])
    decreases m
  {
    if m < lead + 4 * gap {
      fourth := m;
    } else {
      SameLapLater(path, lead, gap, m);
      LoopIffEndsThrice(path, lead, gap, m);
      LoopIffEndsThrice(path, lead, gap, m - gap);
      fourth := FourthLapDecides(path, lead, gap, m - gap);
    }
  }

  /** A node that occurs once per lap is such a block's last node: the block is the whole lap. */
  lemma OncePerLapIsThrice<T>(lap: seq<T>, once: nat)
    requires once < |lap| && forall i :: 0 <= i < |lap| && i != once ==> lap[i] != lap[once]
    ensures HasThrice(lap)
  {
    var k := if once + 1 < |lap| then once + 1 else 0;
    var turned := Turned(lap, k);
    forall i: nat | 0 < i < |lap| ensures Before(turned, i) != Before(turned, 0) {
      assert Back(turned, i) == lap[if i <= once then once - i else once - i + |lap|];
    }
    forall i: nat | i < 2 * |lap| ensures RecursAt(turned, |lap|, i) {
    }
    assert EndsThrice(turned, |lap|);
  }

  /** The nodes of a path that goes round the lap 1, 2, 1, 3, 2, 3. */
  function EvadingNode(i: nat): Did {
    [1, 2, 1, 3, 2, 3][i % 6]
  }

  /** Without a node that occurs once per lap a circle may never be noticed, at any length. */
  lemma EvadingLapIsNeverNoticed(path: seq<Did>)
    requires forall i :: 0 <= i < |path| ==> path[i] == EvadingNode(i)
    ensures NeighboursDiffer(path) && !InfiniteLoop(path)
  {
    forall gap: nat ensures !LoopsBy(path, gap) {
      if 0 < gap && 2 * gap < |path| {
        EvadesGap(path, gap);
      }
    }
  }

  lemma EvadesGap(path: seq<Did>, gap: nat)
    requires forall i :: 0 <= i < |path| ==> path[i] == EvadingNode(i)
    requires 0 < gap && 2 * gap < |path|
    ensures !LoopsBy(path, gap)
  {
    var n := |path| - 1;
    EvadingRecurrence(n);
    assert forall i :: 0 <= i <= n ==> Back(path, i) == EvadingNode(n - i);
    if gap >= 2 {
      if n % 3 == 2 {
        assert Back(path, 2) == Back(path, 0) && Back(path, 4) != Back(path, 0);
      } else if n % 3 == 0 {
        assert Back(path, 4) == Back(path, 0) && Back(path, 2) != Back(path, 0);
        assert gap == 4 ==> Back(path, 6) == Back(path, 0);
      } else {
        assert Back(path, 3) == Back(path, 0);
        assert gap == 3 ==> !AgreeAt(path, 3, 6, 1);
      }
    } else {
      assert Back(path, 1) != Back(path, 0);
    }
  }

  /** Where the node at place `n` of the lap was met before. */
  lemma EvadingRecurrence(n: nat)
    ensures n >= 1 ==> EvadingNode(n - 1) != EvadingNode(n)
    ensures n >= 6 ==> EvadingNode(n - 6) == EvadingNode(n)
    ensures n >= 4 && n % 3 == 2 ==> EvadingNode(n - 2) == EvadingNode(n) && EvadingNode(n - 4) != EvadingNode(n)
    ensures n >= 4 && n % 3 == 0 ==> EvadingNode(n - 4) == EvadingNode(n) && EvadingNode(n - 2) != EvadingNode(n)
    ensures n >= 4 && n % 3 == 1 ==> EvadingNode(n - 3) == EvadingNode(n) && EvadingNode(n - 1) != EvadingNode(n - 4)
  {
    var k := n / 6;
    assert n == 6 * k + n % 6;
    if n >= 6 {
      assert n - 6 == 6 * (k - 1) + n % 6;
    }
  }

  // ---------- the operations on values ----------

  predicate NeighboursDiffer(path: seq<Did>) {
    forall i :: 0 <= i < |path| - 1 ==> path[i] != path[i + 1]
  }

  /** A REPORT without a path makes the source panic: `Usable` is what its callers must see to. */
  predicate Usable(r: Relay) {
    r.kind == REPORT ==> r.path != []
  }

  function Validate(r: Relay): Result<(), RelayError>
    requires Usable(r)
  {
    if !NeighboursDiffer(r.path) then Err(InvalidRelayPath)
    else if r.kind == REPORT && r.path[0] != r.destination then Err(InvalidRelayDestination)
    else if r.kind == SEND && InfiniteLoop(r.path) then Err(InfiniteRelayPath)
    else Ok(())
  }

  /** The element before the one the cursor points at. */
  function PathPrev(r: Relay): Option<Did> {
    if |r.path| < r.cursor + 2 then None else Some(r.path[|r.path| - 2 - r.cursor])
  }

  function Relayed(r: Relay, current: Did, next: Option<Did>): Result<Relay, RelayError>
    requires Usable(r)
  {
    match Validate(r)
    case Err(e) => Err(e)
    case Ok(_) =>
      if r.nextHop.Some? && r.nextHop.value != current then Err(InvalidNextHop)
      else if r.kind == SEND then Ok(r.(path := r.path + [current], nextHop := next))
      else if r.nextHop == Some(r.destination) then Ok(r.(cursor := |r.path| - 1, nextHop := None))
      else
        var pos := BackIndexes(r.path, current, r.cursor, 1);
        if pos == [] && next.None? then Err(CannotInferNextHop)
        else
          var q := if pos == [] then r else r.(cursor := pos[0]);
          Ok(q.(nextHop := if next.Some? then next else PathPrev(q)))
  }

  /**
   * A hop is accepted exactly if no two neighbours of the path are equal, the message was meant for this node,
   * a SEND does not circle, and a report goes to the path's origin and either ends here, is told where to go
   * next, or finds this node on the rest of the way.
   */
  lemma RelayedSucceedsIff(r: Relay, current: Did, next: Option<Did>)
    requires Usable(r)
    ensures Relayed(r, current, next).Ok? <==>
      && NeighboursDiffer(r.path)
      && (r.nextHop.Some? ==> r.nextHop.value == current)
      && (r.kind == SEND ==> !InfiniteLoop(r.path))
      && (r.kind == REPORT ==>
           && r.path[0] == r.destination
           && (r.nextHop == Some(r.destination) || next.Some? ||
               exists i :: r.cursor <= i < |r.path| && Back(r.path, i) == current))
  {
    BackIndexesNext(r.path, current, r.cursor, 1);
  }

  /** Which error a hop ends with: the first of these that applies. */
  lemma RelayedError(r: Relay, current: Did, next: Option<Did>)
    requires Usable(r) && Relayed(r, current, next).Err?
    ensures Relayed(r, current, next).error ==
      if !NeighboursDiffer(r.path) then InvalidRelayPath
      else if r.kind == REPORT && r.path[0] != r.destination then InvalidRelayDestination
      else if r.kind == SEND && InfiniteLoop(r.path) then InfiniteRelayPath
      else if r.nextHop.Some? && r.nextHop.value != current then InvalidNextHop
      else CannotInferNextHop
  {
  }

  function Report(r: Relay): Result<Relay, RelayError> {
    if r.kind != SEND then Err(ReportNeedSend)
    else if |r.path| < 2 then Err(CannotInferNextHop)
    else Ok(Relay(REPORT, r.path, 0, PathPrev(r), r.path[0]))
  }

  function ResetDestination(r: Relay, d: Did): Result<Relay, RelayError> {
    if r.kind == SEND then Ok(r.(destination := d)) else Err(ResetDestinationNeedSend)
  }

  /** The relay of a message as its origin sends it out. */
  function NewSend(origin: Did, next: Did, destination: Did): Relay {
    Relay(SEND, [origin], 0, Some(next), destination)
  }

  // ---------- SEND runs ----------

  /** The nodes of `steps` handle the message one after the other, each naming the next hop it chose. */
  function SendRun(r: Relay, steps: seq<(Did, Option<Did>)>): Result<Relay, RelayError>
    requires Usable(r)
    decreases |steps|
  {
    if steps == [] then Ok(r)
    else
      match Relayed(r, steps[0].0, steps[0].1)
      case Err(e) => Err(e)
      case Ok(q) => SendRun(q, steps[1..])
  }

  function Nodes(steps: seq<(Did, Option<Did>)>): seq<Did> {
    seq(|steps|, i requires 0 <= i < |steps| => steps[i].0)
  }

  /** A run that gets through has pushed all its nodes, and never was at a circling path on the way. */
  lemma {:induction false} SendRunPath(r: Relay, steps: seq<(Did, Option<Did>)>, k: nat)
    requires r.kind == SEND && SendRun(r, steps).Ok? && k < |steps|
    ensures SendRun(r, steps).value.path == r.path + Nodes(steps)
    ensures !InfiniteLoop(r.path + Nodes(steps)[..k])
    decreases |steps|
  {
    var q := Relayed(r, steps[0].0, steps[0].1).value;
    assert Nodes(steps) == [steps[0].0] + Nodes(steps[1..]);
    if k == 0 {
      assert r.path + Nodes(steps)[..0] == r.path;
      if |steps| == 1 {
        assert r.path + Nodes(steps) == q.path;
      } else {
        SendRunPath(q, steps[1..], 0);
        assert q.path + Nodes(steps[1..]) == r.path + Nodes(steps);
      }
    } else {
      SendRunPath(q, steps[1..], k - 1);
      assert q.path + Nodes(steps[1..])[..k - 1] == r.path + Nodes(steps)[..k];
      assert q.path + Nodes(steps[1..]) == r.path + Nodes(steps);
    }
  }

  /** A run that has to go on from a path taken for a loop is refused. */
  lemma NoticedSendIsRefused(r: Relay, steps: seq<(Did, Option<Did>)>, m: nat)
    requires r.kind == SEND && |r.path| <= m < |r.path| + |steps| && InfiniteLoop((r.path + Nodes(steps))[..m])
    ensures SendRun(r, steps).Err?
  {
    assert r.path + Nodes(steps)[..m - |r.path|] == (r.path + Nodes(steps))[..m];
    if SendRun(r, steps).Ok? {
      SendRunPath(r, steps, m - |r.path|);
    }
  }

  /** A message that goes round a lap with such a block is refused before its path is longer than four laps. */
  lemma CirclingSendIsRefused(r: Relay, steps: seq<(Did, Option<Did>)>, lead: nat, gap: nat)
    requires r.kind == SEND && Laps(r.path + Nodes(steps), lead, gap)
    requires HasThrice((r.path + Nodes(steps))[lead..lead + gap])
    requires |r.path| <= lead + 3 * gap && lead + 4 * gap <= |r.path| + |steps|
    ensures SendRun(r, steps).Err?
  {
    var path := r.path + Nodes(steps);
    LapIsNoticedIff(path, lead, gap);
    var m :| lead + 3 * gap <= m < lead + 4 * gap && InfiniteLoop(path[..m]);
    NoticedSendIsRefused(r, steps, m);
  }

  /** Each node of `hops` hands on to the next one; the last one stops the message. */
  function StepsAlong(hops: seq<Did>): seq<(Did, Option<Did>)> {
    seq(|hops|, i requires 0 <= i < |hops| => (hops[i], if i + 1 < |hops| then Some(hops[i + 1]) else None))
  }

  /** Every path on which a message with these hops is checked is sound and not taken for a loop. */
  ghost predicate AllSound(path: seq<Did>, from: nat) {
    forall k {:trigger path[..k]} :: from <= k < |path| ==> NeighboursDiffer(path[..k]) && !InfiniteLoop(path[..k])
  }

  /** A SEND gets through exactly if no path on its way has equal neighbours or is taken for a loop. */
  lemma {:induction false} SendAlongSucceedsIff(r: Relay, hops: seq<Did>)
    requires r.kind == SEND && hops != [] && r.nextHop == Some(hops[0])
    ensures SendRun(r, StepsAlong(hops)).Ok? <==> AllSound(r.path + hops, |r.path|)
    decreases |hops|
  {
    var path, steps := r.path + hops, StepsAlong(hops);
    var q := r.(path := r.path + [hops[0]], nextHop := steps[0].1);
    assert path[..|r.path|] == r.path;
    assert Validate(r).Ok? <==> NeighboursDiffer(r.path) && !InfiniteLoop(r.path);
    assert Validate(r).Ok? ==> Relayed(r, steps[0].0, steps[0].1) == Ok(q);
    if |hops| > 1 {
      assert steps[1..] == StepsAlong(hops[1..]);
      assert q.path + hops[1..] == path;
      SendAlongSucceedsIff(q, hops[1..]);
    } else {
      assert steps[1..] == [];
    }
  }

  lemma {:induction false} LapNeighboursDiffer(path: seq<Did>, lead: nat, gap: nat, i: nat)
    requires Laps(path, lead, gap) && lead + gap < |path| && NeighboursDiffer(path[..lead + gap + 1])
    requires i + 1 < |path|
    ensures path[i] != path[i + 1]
  {
    if i < lead + gap {
      assert path[..lead + gap + 1][i] == path[i] && path[..lead + gap + 1][i + 1] == path[i + 1];
    } else {
      LapNeighboursDiffer(path, lead, gap, i - gap);
      assert path[i] == path[i - gap] && path[i + 1] == path[i + 1 - gap];
    }
  }

  /**
   * A SEND that goes round a lap for at least four laps, and was sound up to the end of the third, gets through
   * exactly if the lap has no such block, however far it goes.
   */
  lemma CirclingSendSucceedsIff(r: Relay, hops: seq<Did>, lead: nat, gap: nat)
    requires r.kind == SEND && hops != [] && r.nextHop == Some(hops[0])
    requires Laps(r.path + hops, lead, gap) && |r.path| < lead + 3 * gap && lead + 4 * gap <= |r.path + hops|
    requires AllSound((r.path + hops)[..lead + 3 * gap], |r.path|)
    ensures SendRun(r, StepsAlong(hops)).Ok? <==> !HasThrice((r.path + hops)[lead..lead + gap])
  {
    var path, third := r.path + hops, lead + 3 * gap;
    SendAlongSucceedsIff(r, hops);
    LapIsNoticedIff(path, lead, gap);
    assert path[..third][..third - 1] == path[..third - 1];
    assert path[..third - 1][..lead + gap + 1] == path[..lead + gap + 1];
    forall k | |r.path| <= k < |path| ensures NeighboursDiffer(path[..k]) {
      forall i | 0 <= i < k - 1 ensures path[..k][i] != path[..k][i + 1] {
        LapNeighboursDiffer(path, lead, gap, i);
      }
    }
    forall k | |r.path| <= k < third ensures !InfiniteLoop(path[..k]) {
      assert path[..third][..k] == path[..k];
    }
  }

  lemma NoRepeatsPrefix(a: seq<Did>, b: seq<Did>)
    requires NoRepeats(a + b)
    ensures NoRepeats(a) && NeighboursDiffer(a) && !InfiniteLoop(a)
  {
    forall i, j | 0 <= i < j < |a| ensures a[i] != a[j] {
      assert (a + b)[i] != (a + b)[j];
    }
    NoRepeatsNoLoop(a);
  }

  /** A SEND along nodes that never repeat passes every check and records exactly these nodes. */
  lemma {:induction false} SendAlongSucceeds(r: Relay, hops: seq<Did>)
    requires r.kind == SEND && NoRepeats(r.path + hops) && hops != [] && r.nextHop == Some(hops[0])
    ensures SendRun(r, StepsAlong(hops)) == Ok(r.(path := r.path + hops, nextHop := None))
    decreases |hops|
  {
    NoRepeatsPrefix(r.path, hops);
    var steps := StepsAlong(hops);
    var q := r.(path := r.path + [hops[0]], nextHop := steps[0].1);
    assert Relayed(r, steps[0].0, steps[0].1) == Ok(q);
    assert steps[1..] == StepsAlong(hops[1..]);
    assert q.path + hops[1..] == r.path + hops;
    if |hops| > 1 {
      SendAlongSucceeds(q, hops[1..]);
    } else {
      assert hops == [hops[0]] && steps[1..] == [];
    }
  }

  // ---------- REPORT runs ----------

  /** `k` hops back, each node named by the relay itself and passing no next hop. */
  function ReportWalk(r: Relay, k: nat): Result<Relay, RelayError>
    requires Usable(r)
    ensures ReportWalk(r, k).Ok? ==> Usable(ReportWalk(r, k).value)
  {
    if k == 0 then Ok(r)
    else
      match ReportWalk(r, k - 1)
      case Err(e) => Err(e)
      case Ok(q) => if q.nextHop.None? then Err(NoNextHop) else Relayed(q, q.nextHop.value, None)
  }

  /** The number of hops after which the origin is met first on the way back. */
  ghost predicate FirstHome(path: seq<Did>, stop: nat) {
    && 1 <= stop < |path| && Back(path, stop) == path[0]
    && forall k :: 1 <= k < stop ==> Back(path, k) != path[0]
  }

  lemma {:induction false} HomeExists(path: seq<Did>, from: nat) returns (stop: nat)
    requires 1 <= from < |path| && forall k :: 1 <= k < from ==> Back(path, k) != path[0]
    ensures FirstHome(path, stop)
    decreases |path| - from
  {
    if Back(path, from) == path[0] {
      stop := from;
    } else {
      stop := HomeExists(path, from + 1);
    }
  }

  /** The report of `path` after `k` hops: one place back per hop, and finished at the `stop`-th. */
  function Homeward(path: seq<Did>, stop: nat, k: nat): Relay
    requires 1 <= stop < |path| && k <= stop
  {
    if k < stop then Relay(REPORT, path, k, Some(Back(path, k + 1)), path[0])
    else Relay(REPORT, path, |path| - 1, None, path[0])
  }

  lemma HomewardHop(path: seq<Did>, stop: nat, k: nat)
    requires NeighboursDiffer(path) && FirstHome(path, stop) && k < stop
    ensures Relayed(Homeward(path, stop, k), Back(path, k + 1), None) == Ok(Homeward(path, stop, k + 1))
  {
    if k + 1 < stop {
      assert path[|path| - 2 - k] != path[|path| - 2 - k + 1];
      BackIndexesNext(path, Back(path, k + 1), k, 1);
    }
  }

  lemma {:induction false} HomewardWalk(path: seq<Did>, stop: nat, k: nat)
    requires NeighboursDiffer(path) && FirstHome(path, stop) && k <= stop
    ensures ReportWalk(Homeward(path, stop, 0), k) == Ok(Homeward(path, stop, k))
  {
    if k > 0 {
      HomewardWalk(path, stop, k - 1);
      HomewardHop(path, stop, k - 1);
    }
  }

  /**
   * A report goes back one place per hop, and ends exactly when the origin is met first.
   * Until then the next hop is the place before, so it is never missing; the cursor stays inside the path.
   */
  lemma ReportWalksBack(s: Relay, stop: nat, k: nat)
    requires s.kind == SEND && s.cursor == 0 && |s.path| >= 2 && NeighboursDiffer(s.path)
    requires FirstHome(s.path, stop) && k <= stop
    ensures Report(s) == Ok(Homeward(s.path, stop, 0))
    ensures ReportWalk(Homeward(s.path, stop, 0), k) == Ok(Homeward(s.path, stop, k))
  {
    HomewardWalk(s.path, stop, k);
  }

  /** Without repeats the way back visits all nodes of the path, in reverse, down to the origin. */
  lemma SimplePathHome(path: seq<Did>)
    requires |path| >= 2 && NoRepeats(path)
    ensures NeighboursDiffer(path) && FirstHome(path, |path| - 1)
  {
  }

  /**
   * Whatever next hops are named, and wherever its cursor is, a report keeps its path and destination. At its
   * destination it ends, with the cursor at the origin. Else its cursor moves on to the nearest place of the
   * current node on the rest of the way, if there is one, and it goes where it is told, or one place back.
   */
  lemma RelayedReport(r: Relay, current: Did, next: Option<Did>)
    requires r.kind == REPORT && Usable(r) && Relayed(r, current, next).Ok?
    ensures var q := Relayed(r, current, next).value;
      && q == r.(cursor := q.cursor, nextHop := q.nextHop)
      && (r.cursor < |r.path| ==> r.cursor <= q.cursor < |r.path|)
    ensures var q := Relayed(r, current, next).value;
      if r.nextHop == Some(r.destination) then q.nextHop.None? && q.cursor == |r.path| - 1
      else
        && q.cursor >= r.cursor && (next.Some? ==> q.nextHop == next)
        && (forall i :: r.cursor <= i < q.cursor ==> i < |r.path| && Back(r.path, i) != current)
        && (q.cursor != r.cursor || next.None? ==> q.cursor < |r.path| && Back(r.path, q.cursor) == current)
        && (q.cursor == r.cursor < |r.path| && Back(r.path, r.cursor) != current ==>
             forall i :: r.cursor <= i < |r.path| ==> Back(r.path, i) != current)
        && (next.None? ==>
             q.nextHop == if q.cursor + 1 < |r.path| then Some(Back(r.path, q.cursor + 1)) else None)
  {
    BackIndexesNext(r.path, current, r.cursor, 1);
  }

  /** A SEND that goes on gets the node pushed on its path and the named next hop, and nothing else changes. */
  lemma RelayedSend(r: Relay, current: Did, next: Option<Did>)
    requires r.kind == SEND && Relayed(r, current, next).Ok?
    ensures Relayed(r, current, next).value == Relay(SEND, r.path + [current], r.cursor, next, r.destination)
  {
  }

  /** The first hop of a new message: exactly the node it is sent to takes it in. */
  lemma NewSendIsTakenIn(origin: Did, hop: Did, destination: Did, current: Did, next: Option<Did>)
    ensures Relayed(NewSend(origin, hop, destination), current, next) ==
      if current == hop then Ok(Relay(SEND, [origin, current], 0, next, destination)) else Err(InvalidNextHop)
  {
    NoRepeatsNoLoop([origin]);
    assert [origin] + [current] == [origin, current];
  }

  /** A report is made from a SEND of two nodes or more, and sets out to the node before the one at the cursor. */
  lemma ReportOfAny(r: Relay)
    ensures r.kind == REPORT ==> Report(r) == Err(ReportNeedSend)
    ensures r.kind == SEND && |r.path| < 2 ==> Report(r) == Err(CannotInferNextHop)
    ensures r.kind == SEND && |r.path| >= 2 ==>
      var hop := if r.cursor + 1 < |r.path| then Some(Back(r.path, r.cursor + 1)) else None;
      Report(r) == Ok(Relay(REPORT, r.path, 0, hop, r.path[0]))
  {
  }

  // ---------- the relay as it travels with a message ----------

  class MessageRelay {
    var kind: RelayMethod
    var path: seq<Did>
    var pathEndCursor: nat
    var nextHop: Option<Did>
    var destination: Did

    function State(): Relay
      reads this
    {
      Relay(kind, path, pathEndCursor, nextHop, destination)
    }

    constructor (r: Relay)
      ensures State() == r
    {
      kind, path, pathEndCursor, nextHop, destination := r.kind, r.path, r.cursor, r.nextHop, r.destination;
    }

    method Check() returns (r: Result<(), RelayError>)
      requires Usable(State())
      ensures r == Validate(State())
    {
      for i := 0 to if path == [] then 0 else |path| - 1
        invariant forall j :: 0 <= j < i ==> path[j] != path[j + 1]
      {
        if path[i] == path[i + 1] {
          return Err(InvalidRelayPath);
        }
      }
      if kind == REPORT && path[0] != destination {
        return Err(InvalidRelayDestination);
      }
      if kind == SEND {
        var looping := HasInfiniteLoop(path);
        if looping {
          return Err(InfiniteRelayPath);
        }
      }
      return Ok(());
    }

    /** An error leaves the relay as it was. */
    method RelayMessage(current: Did, next: Option<Did>) returns (r: Result<(), RelayError>)
      requires Usable(State())
      modifies this
      ensures match Relayed(old(State()), current, next)
        case Ok(q) => r == Ok(()) && State() == q
        case Err(e) => r == Err(e) && State() == old(State())
    {
      r := Check();
      if r.Err? {
        return;
      }
      if nextHop.Some? && nextHop.value != current {
        return Err(InvalidNextHop);
      }
      match kind
      case SEND =>
        path := path + [current];
        nextHop := next;
      case REPORT =>
        if nextHop == Some(destination) {
          pathEndCursor := |path| - 1;
          nextHop := None;
          return;
        }
        var pos := BackIndexes(path, current, pathEndCursor, 1);
        if pos == [] && next.None? {
          return Err(CannotInferNextHop);
        }
        if pos != [] {
          pathEndCursor := pos[0];
        }
        nextHop := if next.Some? then next
          else if |path| < pathEndCursor + 2 then None
          else Some(path[|path| - 2 - pathEndCursor]);
    }

    method SetDestination(d: Did) returns (r: Result<(), RelayError>)
      modifies this`destination
      ensures match ResetDestination(old(State()), d)
        case Ok(q) => r == Ok(()) && State() == q
        case Err(e) => r == Err(e) && State() == old(State())
      ensures r == if kind == SEND then Ok(()) else Err(ResetDestinationNeedSend)
      ensures destination == if kind == SEND then d else old(destination)
    {
      if kind == SEND {
        destination := d;
        return Ok(());
      }
      return Err(ResetDestinationNeedSend);
    }
  }
}
