/** Splitting a byte string into chunks, and the pool that puts the chunks together again. */
module Chunks {
  import opened Wrappers

  const MAX_TTL_MS: nat := 3000000
  const TS_OFFSET_TOLERANCE_MS: nat := 3000
  const TWO_TO_THE_128: nat := 0x1_00000000_00000000_00000000_00000000

  type Byte = x: int | 0 <= x < 256
  type Millis = x: int | 0 <= x < TWO_TO_THE_128

  datatype ChunkMeta = ChunkMeta(id: nat, tsMs: Millis, ttlMs: nat)

  datatype Chunk = Chunk(pos: nat, total: nat, data: seq<Byte>, meta: ChunkMeta)

  // ---------- splitting ----------

  function Pieces(bytes: seq<Byte>, mtu: nat): seq<seq<Byte>>
    requires mtu > 0
  {
    if bytes == [] then []
    else if |bytes| <= mtu then [bytes]
    else [bytes[..mtu]] + Pieces(bytes[mtu..], mtu)
  }

  function Split(bytes: seq<Byte>, mtu: nat, meta: ChunkMeta): seq<Chunk>
    requires mtu > 0
  {
    var pieces := Pieces(bytes, mtu);
    seq(|pieces|, i requires 0 <= i < |pieces| => Chunk(i, |pieces|, pieces[i], meta))
  }

  function FlatData(cs: seq<Chunk>): seq<Byte> {
    if cs == [] then [] else cs[0].data + FlatData(cs[1..])
  }

  lemma {:induction false} FlatOfConcat(a: seq<Chunk>, b: seq<Chunk>)
    ensures FlatData(a + b) == FlatData(a) + FlatData(b)
    ensures |a| == 1 ==> FlatData(a) == a[0].data
  {
    if a == [] {
      assert a + b == b;
    } else {
      FlatOfConcat(a[1..], b);
      assert (a + b)[1..] == a[1..] + b && (a + b)[0] == a[0];
    }
  }

  // ---------- one formalize pass ----------

  /** Drops each chunk whose position is that of the last chunk kept. */
  function Dedup(cs: seq<Chunk>): seq<Chunk> {
    if cs == [] then []
    else
      var kept, c := Dedup(cs[..|cs| - 1]), cs[|cs| - 1];
      if kept != [] && kept[|kept| - 1].pos == c.pos then kept else kept + [c]
  }

  function InsertChunk(cs: seq<Chunk>, c: Chunk): seq<Chunk> {
    if cs != [] && c.pos < cs[|cs| - 1].pos then InsertChunk(cs[..|cs| - 1], c) + [cs[|cs| - 1]] else cs + [c]
  }

  /** A stable sort by position. */
  function SortChunks(cs: seq<Chunk>): seq<Chunk> {
    if cs == [] then [] else InsertChunk(SortChunks(cs[..|cs| - 1]), cs[|cs| - 1])
  }

  function Formalize(cs: seq<Chunk>): seq<Chunk> {
    SortChunks(Dedup(cs))
  }

  predicate SortedByPos(cs: seq<Chunk>) {
    forall i, j :: 0 <= i < j < |cs| ==> cs[i].pos <= cs[j].pos
  }

  predicate StrictByPos(cs: seq<Chunk>) {
    forall i, j :: 0 <= i < j < |cs| ==> cs[i].pos < cs[j].pos
  }

  /** `r` is drawn from `cs` and misses none of its positions. */
  ghost predicate Covers(r: seq<Chunk>, cs: seq<Chunk>) {
    && (forall c :: c in r ==> c in cs)
    && (forall c :: c in cs ==> HasPos(r, c.pos))
  }

  ghost predicate HasPos(cs: seq<Chunk>, pos: nat) {
    exists c :: c in cs && c.pos == pos
  }

  lemma {:induction false} DedupCovers(cs: seq<Chunk>)
    ensures Covers(Dedup(cs), cs)
  {
    if cs != [] {
      var front, last := cs[..|cs| - 1], cs[|cs| - 1];
      DedupCovers(front);
      assert cs == front + [last];
      var r := Dedup(cs);
      DedupKeepsLastPos(cs);
      assert r[|r| - 1] in r;
      forall c | c in cs ensures HasPos(r, c.pos) {
        if c != last {
          assert HasPos(Dedup(front), c.pos);
          var k :| k in Dedup(front) && k.pos == c.pos;
          assert k in r;
        }
      }
    }
  }

  lemma DedupKeepsLastPos(cs: seq<Chunk>)
    requires cs != []
    ensures Dedup(cs) != [] && Dedup(cs)[|Dedup(cs)| - 1].pos == cs[|cs| - 1].pos
  {
  }

  lemma {:induction false} DedupOfSorted(cs: seq<Chunk>)
    requires SortedByPos(cs)
    ensures StrictByPos(Dedup(cs))
  {
    if cs != [] {
      var front, last := cs[..|cs| - 1], cs[|cs| - 1];
      DedupOfSorted(front);
      if front == [] {
        assert Dedup(cs) == [last];
      } else {
        DedupKeepsLastPos(front);
        assert cs[|cs| - 2].pos <= last.pos;
        AppendStrict(Dedup(front), last);
      }
    }
  }

  lemma AppendStrict(kept: seq<Chunk>, c: Chunk)
    requires StrictByPos(kept)
    ensures kept != [] && kept[|kept| - 1].pos < c.pos ==> StrictByPos(kept + [c])
    ensures StrictByPos([c])
  {
    if kept != [] && kept[|kept| - 1].pos < c.pos {
      forall i | 0 <= i < |kept| ensures kept[i].pos < c.pos {
        assert i < |kept| - 1 ==> kept[i].pos < kept[|kept| - 1].pos;
      }
    }
  }

  lemma {:induction false} InsertChunkElements(cs: seq<Chunk>, c: Chunk)
    ensures forall x :: x in InsertChunk(cs, c) <==> x in cs || x == c
  {
    if cs != [] && c.pos < cs[|cs| - 1].pos {
      InsertChunkElements(cs[..|cs| - 1], c);
      assert cs == cs[..|cs| - 1] + [cs[|cs| - 1]];
    }
  }

  lemma {:induction false} InsertChunkSorted(cs: seq<Chunk>, c: Chunk)
    requires SortedByPos(cs)
    ensures SortedByPos(InsertChunk(cs, c))
  {
    if cs != [] && c.pos < cs[|cs| - 1].pos {
      var front := InsertChunk(cs[..|cs| - 1], c);
      InsertChunkSorted(cs[..|cs| - 1], c);
      InsertChunkElements(cs[..|cs| - 1], c);
      forall i | 0 <= i < |front| ensures front[i].pos <= cs[|cs| - 1].pos {
        assert front[i] in front;
      }
    }
  }

  lemma {:induction false} SortChunksSorts(cs: seq<Chunk>)
    ensures SortedByPos(SortChunks(cs))
    ensures forall x :: x in SortChunks(cs) <==> x in cs
  {
    if cs != [] {
      var front := cs[..|cs| - 1];
      SortChunksSorts(front);
      InsertChunkSorted(SortChunks(front), cs[|cs| - 1]);
      InsertChunkElements(SortChunks(front), cs[|cs| - 1]);
      assert cs == front + [cs[|cs| - 1]];
    }
  }

  lemma InsertAtEnd(cs: seq<Chunk>, c: Chunk)
    requires cs == [] || cs[|cs| - 1].pos <= c.pos
    ensures InsertChunk(cs, c) == cs + [c]
  {
  }

  lemma {:induction false} SortOfSorted(cs: seq<Chunk>)
    requires SortedByPos(cs)
    ensures SortChunks(cs) == cs
  {
    if cs != [] {
      var front, last := cs[..|cs| - 1], cs[|cs| - 1];
      SortOfSorted(front);
      assert front != [] ==> cs[|cs| - 2].pos <= last.pos;
      InsertAtEnd(front, last);
      assert cs == front + [last];
    }
  }

  lemma FormalizeSorts(cs: seq<Chunk>)
    ensures SortedByPos(Formalize(cs)) && Covers(Formalize(cs), cs)
  {
    DedupCovers(cs);
    SortChunksSorts(Dedup(cs));
    forall c | c in cs ensures HasPos(Formalize(cs), c.pos) {
      assert HasPos(Dedup(cs), c.pos);
    }
  }

  // ---------- which of several chunks of one position stays ----------

  /** The first chunk of the list that has this position. */
  function Earliest(cs: seq<Chunk>, pos: nat): Option<Chunk> {
    if cs == [] then None else if cs[0].pos == pos then Some(cs[0]) else Earliest(cs[1..], pos)
  }

  lemma {:induction false} EarliestOfAppend(front: seq<Chunk>, c: Chunk, pos: nat)
    ensures Earliest(front + [c], pos) ==
      if Earliest(front, pos).Some? then Earliest(front, pos) else if c.pos == pos then Some(c) else None
  {
    if front == [] {
      assert front + [c] == [c];
    } else {
      EarliestOfAppend(front[1..], c, pos);
      assert (front + [c])[1..] == front[1..] + [c] && (front + [c])[0] == front[0];
    }
  }

  lemma {:induction false} EarliestExists(cs: seq<Chunk>, c: Chunk)
    requires c in cs
    ensures Earliest(cs, c.pos).Some?
  {
    if cs[0].pos != c.pos {
      assert cs == [cs[0]] + cs[1..];
      EarliestExists(cs[1..], c);
    }
  }

  lemma {:induction false} DedupKeepsEarliest(cs: seq<Chunk>, pos: nat)
    ensures Earliest(Dedup(cs), pos) == Earliest(cs, pos)
  {
    if cs != [] {
      var front, last := cs[..|cs| - 1], cs[|cs| - 1];
      DedupKeepsEarliest(front, pos);
      assert cs == front + [last];
      EarliestOfAppend(front, last, pos);
      EarliestOfAppend(Dedup(front), last, pos);
      DedupAppend(front, last);
      if front != [] && front[|front| - 1].pos == last.pos {
        EarliestExists(front, front[|front| - 1]);
      }
    }
  }

  lemma {:induction false} InsertKeepsEarliest(cs: seq<Chunk>, c: Chunk, pos: nat)
    ensures Earliest(InsertChunk(cs, c), pos) == Earliest(cs + [c], pos)
  {
    if cs != [] && c.pos < cs[|cs| - 1].pos {
      var front, last := cs[..|cs| - 1], cs[|cs| - 1];
      InsertKeepsEarliest(front, c, pos);
      EarliestOfAppend(InsertChunk(front, c), last, pos);
      EarliestOfAppend(front, c, pos);
      EarliestOfAppend(front, last, pos);
      EarliestOfAppend(cs, c, pos);
      assert cs == front + [last];
    }
  }

  lemma {:induction false} SortKeepsEarliest(cs: seq<Chunk>, pos: nat)
    ensures Earliest(SortChunks(cs), pos) == Earliest(cs, pos)
  {
    if cs != [] {
      var front, last := cs[..|cs| - 1], cs[|cs| - 1];
      SortKeepsEarliest(front, pos);
      InsertKeepsEarliest(SortChunks(front), last, pos);
      EarliestOfAppend(SortChunks(front), last, pos);
      EarliestOfAppend(front, last, pos);
      assert cs == front + [last];
    }
  }

  lemma FormalizeKeepsEarliest(cs: seq<Chunk>, pos: nat)
    ensures Earliest(Formalize(cs), pos) == Earliest(cs, pos)
  {
    DedupKeepsEarliest(cs, pos);
    SortKeepsEarliest(Dedup(cs), pos);
  }

  function IfAt(c: Chunk, pos: nat): seq<Chunk> {
    if c.pos == pos then [c] else []
  }

  /** The chunks of one position, in the order they came in. */
  function OfPos(cs: seq<Chunk>, pos: nat): seq<Chunk> {
    if cs == [] then [] else OfPos(cs[..|cs| - 1], pos) + IfAt(cs[|cs| - 1], pos)
  }

  lemma OfPosAppend(front: seq<Chunk>, c: Chunk, pos: nat)
    ensures OfPos(front + [c], pos) == OfPos(front, pos) + IfAt(c, pos)
  {
    assert (front + [c])[..|front|] == front;
  }

  lemma SwapPositions(cs: seq<Chunk>, c: Chunk, d: Chunk, pos: nat)
    requires c.pos != d.pos
    ensures cs + IfAt(c, pos) + IfAt(d, pos) == cs + IfAt(d, pos) + IfAt(c, pos)
  {
  }

  lemma {:induction false} InsertIsStable(cs: seq<Chunk>, c: Chunk, pos: nat)
    ensures OfPos(InsertChunk(cs, c), pos) == OfPos(cs, pos) + IfAt(c, pos)
  {
    if cs != [] && c.pos < cs[|cs| - 1].pos {
      var front, last := cs[..|cs| - 1], cs[|cs| - 1];
      InsertIsStable(front, c, pos);
      OfPosAppend(InsertChunk(front, c), last, pos);
      SwapPositions(OfPos(front, pos), c, last, pos);
    } else {
      OfPosAppend(cs, c, pos);
    }
  }

  /** Sorting leaves chunks of one position in the order they came in, repetitions included. */
  lemma {:induction false} SortIsStable(cs: seq<Chunk>, pos: nat)
    ensures OfPos(SortChunks(cs), pos) == OfPos(cs, pos)
  {
    if cs != [] {
      SortIsStable(cs[..|cs| - 1], pos);
      InsertIsStable(SortChunks(cs[..|cs| - 1]), cs[|cs| - 1], pos);
    }
  }

  /** In a strict list every chunk is the earliest of its position. */
  lemma {:induction false} StrictIsEarliest(v: seq<Chunk>, i: nat)
    requires StrictByPos(v) && i < |v|
    ensures Earliest(v, v[i].pos) == Some(v[i])
  {
    if i > 0 {
      assert v[0].pos < v[i].pos;
      StrictIsEarliest(v[1..], i - 1);
    }
  }

  /** `v` has, in order of position, the chunk of each position of `cs` that came first. */
  ghost predicate IsDigest(v: seq<Chunk>, cs: seq<Chunk>) {
    && StrictByPos(v)
    && (forall c :: c in v ==> Earliest(cs, c.pos) == Some(c))
    && (forall c :: c in cs ==> HasPos(v, c.pos))
  }

  lemma {:induction false} EarliestIsIn(cs: seq<Chunk>, pos: nat)
    ensures Earliest(cs, pos).Some? ==> Earliest(cs, pos).value in cs && Earliest(cs, pos).value.pos == pos
  {
    if cs != [] && cs[0].pos != pos {
      EarliestIsIn(cs[1..], pos);
      assert cs == [cs[0]] + cs[1..];
    }
  }

  lemma LastOfStrict(v: seq<Chunk>, c: Chunk)
    requires StrictByPos(v) && c in v
    ensures c.pos <= v[|v| - 1].pos && (c.pos == v[|v| - 1].pos ==> c == v[|v| - 1])
    ensures c in v[..|v| - 1] <==> c != v[|v| - 1]
  {
    var i :| 0 <= i < |v| && v[i] == c;
    assert i < |v| - 1 ==> v[i].pos < v[|v| - 1].pos && v[..|v| - 1][i] == c;
  }

  ghost predicate SameChunks(v: seq<Chunk>, w: seq<Chunk>) {
    forall c :: c in v <==> c in w
  }

  lemma SameLastChunk(v: seq<Chunk>, w: seq<Chunk>)
    requires StrictByPos(v) && StrictByPos(w) && SameChunks(v, w) && v != []
    ensures w != [] && v[|v| - 1] == w[|w| - 1]
  {
    assert v[|v| - 1] in w;
    assert w[|w| - 1] in v;
    LastOfStrict(w, v[|v| - 1]);
    LastOfStrict(v, w[|w| - 1]);
  }

  lemma FrontOfStrict(v: seq<Chunk>, front: seq<Chunk>, c: Chunk)
    requires StrictByPos(v) && v != [] && front == v[..|v| - 1]
    ensures StrictByPos(front)
    ensures c in front <==> c in v && c != v[|v| - 1]
  {
    if c in v {
      LastOfStrict(v, c);
    }
  }

  lemma SameFronts(v: seq<Chunk>, w: seq<Chunk>, a: seq<Chunk>, b: seq<Chunk>)
    requires StrictByPos(v) && StrictByPos(w) && SameChunks(v, w) && v != [] && w != []
    requires v[|v| - 1] == w[|w| - 1] && a == v[..|v| - 1] && b == w[..|w| - 1]
    ensures SameChunks(a, b)
  {
    forall c | c in a ensures c in b {
      FrontOfStrict(v, a, c);
      FrontOfStrict(w, b, c);
    }
    forall c | c in b ensures c in a {
      FrontOfStrict(v, a, c);
      FrontOfStrict(w, b, c);
    }
  }

  lemma NoneOfNone(v: seq<Chunk>, w: seq<Chunk>)
    requires SameChunks(v, w)
    ensures v == [] ==> w == []
  {
    assert w != [] ==> w[0] in w;
  }

  lemma {:induction false} StrictUnique(v: seq<Chunk>, w: seq<Chunk>)
    requires StrictByPos(v) && StrictByPos(w) && SameChunks(v, w)
    ensures v == w
  {
    if v == [] {
      NoneOfNone(v, w);
    } else {
      SameLastChunk(v, w);
      var a, b := v[..|v| - 1], w[..|w| - 1];
      SameFronts(v, w, a, b);
      StrictUnique(a, b);
      assert v == a + [v[|v| - 1]] && w == b + [w[|w| - 1]];
    }
  }

  /** There is only one such list. */
  lemma DigestUnique(v: seq<Chunk>, w: seq<Chunk>, cs: seq<Chunk>)
    requires IsDigest(v, cs) && IsDigest(w, cs)
    ensures v == w
  {
    forall c | c in v ensures c in w {
      InOtherDigest(v, w, cs, c);
    }
    forall c | c in w ensures c in v {
      InOtherDigest(w, v, cs, c);
    }
    assert SameChunks(v, w);
    StrictUnique(v, w);
  }

  lemma InOtherDigest(v: seq<Chunk>, w: seq<Chunk>, cs: seq<Chunk>, c: Chunk)
    requires IsDigest(v, cs) && IsDigest(w, cs) && c in v
    ensures c in w
  {
    EarliestIsIn(cs, c.pos);
    assert HasPos(w, c.pos);
  }

  /** Whatever chunks came in, matching or not: two passes keep exactly the first of each position, in order. */
  lemma TwoPassesKeepFirst(cs: seq<Chunk>)
    ensures IsDigest(Formalize(Formalize(cs)), cs)
  {
    var once := Formalize(cs);
    var v := Formalize(once);
    TwoPassesAreStrict(cs);
    forall c | c in v ensures Earliest(cs, c.pos) == Some(c) {
      var i :| 0 <= i < |v| && v[i] == c;
      StrictIsEarliest(v, i);
      FormalizeKeepsEarliest(cs, c.pos);
      FormalizeKeepsEarliest(once, c.pos);
    }
  }

  /** Two passes leave every position once, in order, whatever order and repetition came in. */
  lemma TwoPassesAreStrict(cs: seq<Chunk>)
    ensures StrictByPos(Formalize(Formalize(cs))) && Covers(Formalize(Formalize(cs)), cs)
  {
    var once := Formalize(cs);
    FormalizeSorts(cs);
    FormalizeSorts(once);
    DedupOfSorted(once);
    SortOfSorted(Dedup(once));
    forall c | c in cs ensures HasPos(Formalize(once), c.pos) {
      assert HasPos(once, c.pos);
      var k :| k in once && k.pos == c.pos;
      assert HasPos(Formalize(once), k.pos);
    }
  }

  /** One pass does not: a repetition that is not adjacent survives it. */
  lemma OnePassMayRepeat(a: Chunk, b: Chunk)
    requires a.pos < b.pos
    ensures Formalize([a, b, a]) == [a, a, b] && !StrictByPos(Formalize([a, b, a]))
  {
    assert [a, b, a][..2] == [a, b] && [a, b][..1] == [a] && [a][..0] == [];
    assert Dedup([a]) == [a] && Dedup([a, b]) == [a, b] && Dedup([a, b, a]) == [a, b, a];
    assert SortChunks([]) == [];
    assert SortChunks([a]) == InsertChunk([], a) == [a];
    assert SortChunks([a, b]) == InsertChunk([a], b) == [a, b];
    assert InsertChunk([a, b], a) == InsertChunk([a], a) + [b];
    var r := Formalize([a, b, a]);
    assert r == [a, a, b];
    assert r[0].pos == r[1].pos;
  }

  /** Chunks of equal position stand next to each other. */
  predicate RepeatsAdjacent(cs: seq<Chunk>) {
    forall i, k, j :: 0 <= i < k < j < |cs| && cs[i].pos == cs[j].pos ==> cs[k].pos == cs[i].pos
  }

  predicate DistinctPos(cs: seq<Chunk>) {
    forall i, j :: 0 <= i < j < |cs| ==> cs[i].pos != cs[j].pos
  }

  lemma HasPosAt(cs: seq<Chunk>, pos: nat) returns (i: nat)
    requires HasPos(cs, pos)
    ensures i < |cs| && cs[i].pos == pos
  {
    var c :| c in cs && c.pos == pos;
    i :| 0 <= i < |cs| && cs[i] == c;
  }

  lemma DistinctAppend(front: seq<Chunk>, c: Chunk)
    ensures DistinctPos(front + [c]) <==> DistinctPos(front) && !HasPos(front, c.pos)
  {
    var cs := front + [c];
    assert forall i :: 0 <= i < |front| ==> cs[i] == front[i] && front[i] in front;
    if HasPos(front, c.pos) {
      var i := HasPosAt(front, c.pos);
      assert cs[i].pos == cs[|front|].pos;
    }
  }

  lemma AdjacentAppend(front: seq<Chunk>, c: Chunk)
    ensures RepeatsAdjacent(front + [c]) <==>
      RepeatsAdjacent(front) && (HasPos(front, c.pos) ==> front[|front| - 1].pos == c.pos)
  {
    if RepeatsAdjacent(front + [c]) {
      AdjacentWithout(front, c);
    }
    if RepeatsAdjacent(front) && (HasPos(front, c.pos) ==> front[|front| - 1].pos == c.pos) {
      AdjacentWith(front, c);
    }
  }

  lemma AdjacentWithout(front: seq<Chunk>, c: Chunk)
    requires RepeatsAdjacent(front + [c])
    ensures RepeatsAdjacent(front) && (HasPos(front, c.pos) ==> front[|front| - 1].pos == c.pos)
  {
    var cs := front + [c];
    forall i, k, j | 0 <= i < k < j < |front| && front[i].pos == front[j].pos ensures front[k].pos == front[i].pos {
      assert cs[i].pos == cs[j].pos && cs[k].pos == cs[i].pos;
    }
    if HasPos(front, c.pos) {
      var i := HasPosAt(front, c.pos);
      assert cs[i].pos == cs[|front|].pos;
      assert i < |front| - 1 ==> cs[|front| - 1].pos == cs[i].pos;
    }
  }

  lemma AdjacentWith(front: seq<Chunk>, c: Chunk)
    requires RepeatsAdjacent(front) && (HasPos(front, c.pos) ==> front[|front| - 1].pos == c.pos)
    ensures RepeatsAdjacent(front + [c])
  {
    var cs := front + [c];
    forall i, k, j | 0 <= i < k < j < |cs| && cs[i].pos == cs[j].pos ensures cs[k].pos == cs[i].pos {
      if j == |front| {
        assert front[i] in front && HasPos(front, c.pos);
        assert k < |front| - 1 ==> front[i].pos == front[|front| - 1].pos && front[k].pos == front[i].pos;
      } else {
        assert front[i].pos == front[j].pos && front[k].pos == front[i].pos;
      }
    }
  }

  /** Dropping adjacent repetitions drops all of them exactly if repetitions are adjacent. */
  lemma {:induction false} DedupDistinctIff(cs: seq<Chunk>)
    ensures DistinctPos(Dedup(cs)) <==> RepeatsAdjacent(cs)
  {
    if cs != [] {
      var front, last := cs[..|cs| - 1], cs[|cs| - 1];
      DedupDistinctIff(front);
      AdjacentAppend(front, last);
      assert cs == front + [last];
      DedupStep(front, last);
    }
  }

  /** One more chunk is dropped, or kept as a new position, or kept as a repetition that is not adjacent. */
  lemma DedupStep(front: seq<Chunk>, last: Chunk)
    ensures DistinctPos(Dedup(front + [last])) <==>
      DistinctPos(Dedup(front)) && (HasPos(front, last.pos) ==> front[|front| - 1].pos == last.pos)
  {
    DedupAppend(front, last);
    if front == [] || front[|front| - 1].pos != last.pos {
      DistinctAppend(Dedup(front), last);
      SamePositions(front, last.pos);
    }
  }

  lemma DedupAppend(front: seq<Chunk>, last: Chunk)
    ensures Dedup(front + [last]) ==
      if front != [] && front[|front| - 1].pos == last.pos then Dedup(front) else Dedup(front) + [last]
  {
    assert (front + [last])[..|front|] == front;
    if front != [] {
      DedupKeepsLastPos(front);
    }
  }

  lemma SamePositions(cs: seq<Chunk>, pos: nat)
    ensures HasPos(Dedup(cs), pos) <==> HasPos(cs, pos)
  {
    DedupCovers(cs);
    if c :| c in cs && c.pos == pos {
      assert HasPos(Dedup(cs), c.pos);
    }
  }

  lemma StrictAppend(front: seq<Chunk>, c: Chunk)
    ensures StrictByPos(front + [c]) <==> StrictByPos(front) && forall x :: x in front ==> x.pos < c.pos
  {
    var cs := front + [c];
    assert forall i :: 0 <= i < |front| ==> cs[i] == front[i] && front[i] in front;
    if StrictByPos(cs) {
      forall x | x in front ensures x.pos < c.pos {
        var i :| 0 <= i < |front| && front[i] == x;
        assert cs[i].pos < cs[|front|].pos;
      }
    }
  }

  /** Inserting into a sorted list keeps it strict exactly if it was and the position is new. */
  lemma {:induction false} InsertStrictIff(cs: seq<Chunk>, c: Chunk)
    requires SortedByPos(cs)
    ensures StrictByPos(InsertChunk(cs, c)) <==> StrictByPos(cs) && !HasPos(cs, c.pos)
  {
    if cs != [] && c.pos < cs[|cs| - 1].pos {
      var front, last := cs[..|cs| - 1], cs[|cs| - 1];
      InsertStrictIff(front, c);
      InsertChunkElements(front, c);
      StrictAppend(InsertChunk(front, c), last);
      StrictAppend(front, last);
      assert cs == front + [last];
    } else {
      StrictAppend(cs, c);
      forall x | x in cs ensures x.pos <= c.pos {
        var i :| 0 <= i < |cs| && cs[i] == x;
        assert i < |cs| - 1 ==> cs[i].pos <= cs[|cs| - 1].pos;
      }
    }
  }

  lemma {:induction false} SortStrictIff(cs: seq<Chunk>)
    ensures StrictByPos(SortChunks(cs)) <==> DistinctPos(cs)
  {
    if cs != [] {
      var front, last := cs[..|cs| - 1], cs[|cs| - 1];
      SortStrictIff(front);
      SortChunksSorts(front);
      InsertStrictIff(SortChunks(front), last);
      DistinctAppend(front, last);
      assert cs == front + [last];
    }
  }

  /** One pass leaves every position once, in order, exactly if repetitions were adjacent. */
  lemma OnePassIsStrictIff(cs: seq<Chunk>)
    ensures StrictByPos(Formalize(cs)) <==> RepeatsAdjacent(cs)
  {
    DedupDistinctIff(cs);
    SortStrictIff(Dedup(cs));
  }

  // ---------- completion ----------

  predicate IsCompleted(cs: seq<Chunk>) {
    var f := Formalize(cs);
    f != [] && |f| == f[0].total
  }

  function TryWithdraw(cs: seq<Chunk>): Option<seq<Byte>> {
    if IsCompleted(cs) then Some(FlatData(Formalize(cs))) else None
  }

  function Filter(cs: seq<Chunk>, keep: Chunk -> bool): (r: seq<Chunk>)
    ensures forall c :: c in r <==> c in cs && keep(c)
  {
    if cs == [] then []
    else if keep(cs[0]) then [cs[0]] + Filter(cs[1..], keep)
    else Filter(cs[1..], keep)
  }

  lemma FilterOfCons(c: Chunk, cs: seq<Chunk>, keep: Chunk -> bool)
    ensures Filter([c] + cs, keep) == (if keep(c) then [c] else []) + Filter(cs, keep)
  {
    assert ([c] + cs)[1..] == cs;
  }

  /** Filtering keeps order and repetition. */
  lemma {:induction false} FilterOfConcat(a: seq<Chunk>, b: seq<Chunk>, keep: Chunk -> bool)
    ensures Filter(a + b, keep) == Filter(a, keep) + Filter(b, keep)
  {
    if a == [] {
      assert a + b == b;
    } else {
      FilterOfConcat(a[1..], b, keep);
      FilterOfCons(a[0], a[1..], keep);
      FilterOfCons(a[0], a[1..] + b, keep);
      assert a == [a[0]] + a[1..] && a + b == [a[0]] + (a[1..] + b);
    }
  }

  /** The chunks of one message. */
  function OfMessage(cs: seq<Chunk>, id: nat): seq<Chunk> {
    Filter(cs, (c: Chunk) => c.meta.id == id)
  }

  function Search(cs: seq<Chunk>, id: nat): seq<Chunk> {
    Formalize(OfMessage(cs, id))
  }

  function Get(cs: seq<Chunk>, id: nat): Option<seq<Byte>> {
    TryWithdraw(Search(cs, id))
  }

  /** The chunks of all other messages. */
  function WithoutMessage(cs: seq<Chunk>, id: nat): seq<Chunk> {
    Filter(cs, (c: Chunk) => c.meta.id != id)
  }

  /** Withdrawing from any list: the first chunk of the least position tells how many chunks one pass has to leave. */
  lemma WithdrawOfAny(cs: seq<Chunk>, c: Chunk)
    requires Earliest(cs, c.pos) == Some(c) && forall x :: x in cs ==> c.pos <= x.pos
    ensures TryWithdraw(cs) == if |Dedup(cs)| == c.total then Some(FlatData(Formalize(cs))) else None
  {
    var f := Formalize(cs);
    FormalizeSorts(cs);
    FormalizeKeepsEarliest(cs, c.pos);
    SortChunksLength(Dedup(cs));
    EarliestIsIn(cs, c.pos);
    assert HasPos(f, c.pos);
    var i := HasPosAt(f, c.pos);
    assert f[0] in f;
    assert i > 0 ==> f[0].pos <= f[i].pos;
  }

  /** Getting any message: the first chunk of each position, if they are as many as the least of them says. */
  lemma GetOfAny(cs: seq<Chunk>, id: nat, v: seq<Chunk>)
    requires IsDigest(v, OfMessage(cs, id))
    ensures Get(cs, id) == if v != [] && |v| == v[0].total then Some(FlatData(v)) else None
  {
    TwoPassesKeepFirst(OfMessage(cs, id));
    DigestUnique(v, Formalize(Formalize(OfMessage(cs, id))), OfMessage(cs, id));
  }

  /** Only chunks of `parts`, at their own places. */
  ghost predicate PartsOf(cs: seq<Chunk>, parts: seq<Chunk>) {
    && (forall i :: 0 <= i < |parts| ==> parts[i].pos == i && parts[i].total == |parts|)
    && (forall c :: c in cs ==> c.pos < |parts| && c == parts[c.pos])
  }

  lemma {:induction false} StrictAtLeast(v: seq<Chunk>, i: nat)
    requires StrictByPos(v) && i < |v|
    ensures v[i].pos >= i
  {
    if i > 0 {
      StrictAtLeast(v, i - 1);
    }
  }

  lemma {:induction false} StrictFilledUpTo(v: seq<Chunk>, n: nat, p: nat)
    requires StrictByPos(v) && p <= n
    requires forall q: nat :: q < n ==> HasPos(v, q)
    ensures p <= |v| && forall i :: 0 <= i < p ==> v[i].pos == i
  {
    if p > 0 {
      StrictFilledUpTo(v, n, p - 1);
      assert HasPos(v, p - 1);
      var c :| c in v && c.pos == p - 1;
      var k :| 0 <= k < |v| && v[k] == c;
      StrictAtLeast(v, p - 1);
    }
  }

  /** A strict list below `n` has `n` entries exactly if it has every position below `n`. */
  lemma StrictIsFullIff(v: seq<Chunk>, n: nat)
    requires StrictByPos(v) && forall c :: c in v ==> c.pos < n
    ensures |v| == n <==> forall p: nat :: p < n ==> HasPos(v, p)
    ensures |v| == n ==> forall i :: 0 <= i < n ==> v[i].pos == i
  {
    if forall p: nat :: p < n ==> HasPos(v, p) {
      StrictFilledUpTo(v, n, n);
      if v != [] {
        StrictAtLeast(v, |v| - 1);
        assert v[|v| - 1] in v;
      }
    }
    if |v| == n {
      forall i | 0 <= i < n ensures v[i].pos == i {
        StrictAtLeast(v, i);
        StrictAtMost(v, n, i);
      }
      forall p: nat | p < n ensures HasPos(v, p) {
        assert v[p] in v;
      }
    }
  }

  lemma {:induction false} StrictAtMost(v: seq<Chunk>, n: nat, i: nat)
    requires StrictByPos(v) && |v| == n && i < n && forall c :: c in v ==> c.pos < n
    ensures v[i].pos <= i
    decreases n - i
  {
    assert v[i] in v;
    if i + 1 < n {
      StrictAtMost(v, n, i + 1);
    }
  }

  /** Chunks of one message, in any order and repetition, are complete exactly if no position is missing. */
  lemma CompleteIffNoneMissing(cs: seq<Chunk>, parts: seq<Chunk>)
    requires PartsOf(cs, parts) && parts != []
    ensures TryWithdraw(Formalize(cs)) == if NoneMissing(cs, parts) then Some(FlatData(parts)) else None
  {
    var f := Formalize(Formalize(cs));
    TwoPassesAreStrict(cs);
    StrictPartsAreAll(f, cs, parts);
    if f != [] {
      assert f[0] in f;
    }
  }

  // ---------- withdrawing from a list as it came ----------

  ghost predicate NoneMissing(cs: seq<Chunk>, parts: seq<Chunk>) {
    forall p: nat :: p < |parts| ==> HasPos(cs, p)
  }

  lemma {:induction false} InsertChunkLength(cs: seq<Chunk>, c: Chunk)
    ensures |InsertChunk(cs, c)| == |cs| + 1
  {
    if cs != [] && c.pos < cs[|cs| - 1].pos {
      InsertChunkLength(cs[..|cs| - 1], c);
    }
  }

  lemma {:induction false} SortChunksLength(cs: seq<Chunk>)
    ensures |SortChunks(cs)| == |cs|
  {
    if cs != [] {
      SortChunksLength(cs[..|cs| - 1]);
      InsertChunkLength(SortChunks(cs[..|cs| - 1]), cs[|cs| - 1]);
    }
  }

  lemma {:induction false} DedupShorter(cs: seq<Chunk>)
    ensures |Dedup(cs)| <= |cs|
    ensures |Dedup(cs)| == |cs| ==> Dedup(cs) == cs
  {
    if cs != [] {
      DedupShorter(cs[..|cs| - 1]);
      assert cs == cs[..|cs| - 1] + [cs[|cs| - 1]];
    }
  }

  /** A strict sorted list of parts is all of them exactly if none is missing. */
  lemma StrictPartsAreAll(f: seq<Chunk>, cs: seq<Chunk>, parts: seq<Chunk>)
    requires PartsOf(cs, parts) && StrictByPos(f) && Covers(f, cs)
    ensures |f| == |parts| <==> NoneMissing(cs, parts)
    ensures |f| == |parts| ==> f == parts
  {
    StrictIsFullIff(f, |parts|);
    forall p: nat | p < |parts| ensures HasPos(f, p) <==> HasPos(cs, p) {
      if c :| c in cs && c.pos == p {
        assert HasPos(f, c.pos);
      }
    }
    if |f| == |parts| {
      forall i | 0 <= i < |f| ensures f[i] == parts[i] {
        assert f[i] in f;
      }
    }
  }

  /** A sorted list of parts that misses none and repeats one is longer than all of them. */
  lemma RepeatingIsLonger(f: seq<Chunk>, cs: seq<Chunk>, parts: seq<Chunk>)
    requires PartsOf(cs, parts) && SortedByPos(f) && Covers(f, cs) && NoneMissing(cs, parts) && |f| == |parts|
    ensures StrictByPos(f)
  {
    var g := Dedup(f);
    DedupOfSorted(f);
    DedupCovers(f);
    DedupShorter(f);
    forall c | c in cs ensures HasPos(g, c.pos) {
      assert HasPos(f, c.pos);
    }
    StrictPartsAreAll(g, cs, parts);
  }

  lemma WithdrawOfPass(cs: seq<Chunk>, parts: seq<Chunk>)
    requires PartsOf(cs, parts) && parts != []
    ensures SortedByPos(Formalize(cs)) && Covers(Formalize(cs), cs) && |Formalize(cs)| == |Dedup(cs)|
    ensures TryWithdraw(cs) == if |Dedup(cs)| == |parts| then Some(FlatData(Formalize(cs))) else None
  {
    var f := Formalize(cs);
    FormalizeSorts(cs);
    SortChunksLength(Dedup(cs));
    if f != [] {
      assert f[0] in f;
    }
  }

  /**
   * Withdrawing straight from a list makes one pass only. If no part is missing it gives the data exactly
   * if repetitions are adjacent. If one is missing it gives nothing exactly if the chunks left by dropping
   * adjacent repetitions do not happen to be as many as the parts.
   */
  lemma RawWithdrawIff(cs: seq<Chunk>, parts: seq<Chunk>)
    requires PartsOf(cs, parts) && parts != []
    ensures NoneMissing(cs, parts) ==> (TryWithdraw(cs) == Some(FlatData(parts)) <==> RepeatsAdjacent(cs))
    ensures !NoneMissing(cs, parts) ==> (TryWithdraw(cs) == None <==> |Dedup(cs)| != |parts|)
    ensures RepeatsAdjacent(cs) && !NoneMissing(cs, parts) ==> TryWithdraw(cs) == None
  {
    var f := Formalize(cs);
    WithdrawOfPass(cs, parts);
    OnePassIsStrictIff(cs);
    if RepeatsAdjacent(cs) {
      StrictPartsAreAll(f, cs, parts);
    } else if NoneMissing(cs, parts) && |f| == |parts| {
      RepeatingIsLonger(f, cs, parts);
    }
  }

  /** With a part missing, a repetition that is not adjacent can stand in for it. */
  lemma RawWithdrawMayBeWrong(parts: seq<Chunk>)
    requires PartsOf(parts, parts) && |parts| == 3
    ensures TryWithdraw([parts[0], parts[1], parts[0]]) == Some(parts[0].data + parts[0].data + parts[1].data)
  {
    var a, b := parts[0], parts[1];
    OnePassMayRepeat(a, b);
    assert [a, a, b][1..] == [a, b] && [a, b][1..] == [b] && [b][1..] == [];
    assert FlatData([b]) == b.data + [] == b.data;
    assert FlatData([a, b]) == a.data + b.data;
    assert FlatData([a, a, b]) == a.data + (a.data + b.data) == a.data + a.data + b.data;
  }

  lemma {:induction false} FlatOfPieces(bytes: seq<Byte>, mtu: nat, cs: seq<Chunk>)
    requires mtu > 0 && |cs| == |Pieces(bytes, mtu)|
    requires forall i :: 0 <= i < |cs| ==> cs[i].data == Pieces(bytes, mtu)[i]
    ensures FlatData(cs) == bytes
    decreases |bytes|
  {
    if |bytes| > mtu {
      FlatOfPieces(bytes[mtu..], mtu, cs[1..]);
      assert bytes == bytes[..mtu] + bytes[mtu..];
    } else if bytes != [] {
      assert cs[1..] == [];
    }
  }

  predicate WellCut(pieces: seq<seq<Byte>>, mtu: nat) {
    && (forall i :: 0 <= i < |pieces| ==> 0 < |pieces[i]| <= mtu)
    && (forall i :: 0 <= i < |pieces| - 1 ==> |pieces[i]| == mtu)
  }

  /** All pieces but the last are exactly `mtu` long, and none is empty. */
  lemma {:induction false} PieceLengths(bytes: seq<Byte>, mtu: nat)
    requires mtu > 0
    ensures WellCut(Pieces(bytes, mtu), mtu)
    decreases |bytes|
  {
    if |bytes| > mtu {
      PieceLengths(bytes[mtu..], mtu);
      assert Pieces(bytes, mtu) == [bytes[..mtu]] + Pieces(bytes[mtu..], mtu);
    }
  }

  /** Splitting cuts into numbered parts, all but the last of full length, that put together give the bytes again. */
  lemma SplitRoundTrip(bytes: seq<Byte>, mtu: nat, meta: ChunkMeta)
    requires mtu > 0
    ensures var parts := Split(bytes, mtu, meta);
      && (bytes == [] ==> parts == []) && (bytes != [] ==> Message(parts, meta)) && FlatData(parts) == bytes
      && forall i :: 0 <= i < |parts| ==>
           0 < |parts[i].data| <= mtu && (i < |parts| - 1 ==> |parts[i].data| == mtu)
  {
    FlatOfPieces(bytes, mtu, Split(bytes, mtu, meta));
    PieceLengths(bytes, mtu);
  }

  // ---------- the pool ----------

  /** Unsigned 128-bit arithmetic wraps around. */
  function WrapSub(a: Millis, b: nat): Millis {
    (a - b) % TWO_TO_THE_128
  }

  function WrapAdd(a: Millis, b: nat): Millis {
    (a + b) % TWO_TO_THE_128
  }

  predicate Accepted(c: Chunk, now: Millis) {
    c.meta.ttlMs <= MAX_TTL_MS && WrapSub(c.meta.tsMs, TS_OFFSET_TOLERANCE_MS) <= now
  }

  predicate Alive(meta: ChunkMeta, now: Millis) {
    WrapAdd(meta.tsMs, meta.ttlMs) > now
  }

  /**
   * A chunk is accepted if it is to live for at most 50 minutes and is stamped at most three seconds ahead of the
   * clock. A stamp of less than three seconds after zero is taken for one far ahead.
   */
  lemma AcceptedIff(c: Chunk, now: Millis)
    ensures Accepted(c, now) <==>
      && c.meta.ttlMs <= 3000000
      && (if c.meta.tsMs >= 3000 then c.meta.tsMs <= now + 3000 else c.meta.tsMs + TWO_TO_THE_128 <= now + 3000)
  {
  }

  /** It is alive until its stamp plus its time to live, where this does not overflow. */
  lemma AliveIff(meta: ChunkMeta, now: Millis)
    requires meta.ttlMs < TWO_TO_THE_128
    ensures Alive(meta, now) <==>
      if meta.tsMs + meta.ttlMs < TWO_TO_THE_128 then now < meta.tsMs + meta.ttlMs
      else now < meta.tsMs + meta.ttlMs - TWO_TO_THE_128
  {
  }

  function WithoutExpired(cs: seq<Chunk>, now: Millis): seq<Chunk> {
    Filter(cs, (c: Chunk) => Alive(c.meta, now))
  }

  /** A chunk coming in; the clock is read once before and once after it is pooled. */
  datatype Arrival = Arrival(chunk: Chunk, nowIn: Millis, nowOut: Millis)

  function Handled(cs: seq<Chunk>, a: Arrival): (Option<seq<Byte>>, seq<Chunk>) {
    if !Accepted(a.chunk, a.nowIn) then (None, cs)
    else
      var pool := WithoutExpired(cs + [a.chunk], a.nowOut);
      match Get(pool, a.chunk.meta.id)
      case None => (None, pool)
      case Some(data) => (Some(data), WithoutMessage(pool, a.chunk.meta.id))
  }

  /** The pool holds, of the message `id`, exactly the parts at the places `seen`. */
  ghost predicate Holds(cs: seq<Chunk>, id: nat, parts: seq<Chunk>, seen: set<nat>) {
    && (forall c :: c in cs && c.meta.id == id ==> c.pos < |parts| && c == parts[c.pos] && c.pos in seen)
    && (forall p :: p in seen ==> p < |parts| && parts[p] in cs)
  }

  ghost predicate Message(parts: seq<Chunk>, meta: ChunkMeta) {
    && parts != []
    && forall i :: 0 <= i < |parts| ==> parts[i].pos == i && parts[i].total == |parts| && parts[i].meta == meta
  }

  function AllPlaces(parts: seq<Chunk>): set<nat> {
    set c | c in parts :: c.pos
  }

  lemma PlacesOfMessage(parts: seq<Chunk>, meta: ChunkMeta)
    requires Message(parts, meta)
    ensures forall p: nat :: p in AllPlaces(parts) <==> p < |parts|
  {
    forall p: nat | p < |parts| ensures p in AllPlaces(parts) {
      assert parts[p] in parts;
    }
  }

  lemma GetOfHeld(cs: seq<Chunk>, meta: ChunkMeta, parts: seq<Chunk>, seen: set<nat>)
    requires Message(parts, meta) && Holds(cs, meta.id, parts, seen)
    ensures Get(cs, meta.id) == if seen == AllPlaces(parts) then Some(FlatData(parts)) else None
  {
    var own := OfMessage(cs, meta.id);
    CompleteIffNoneMissing(own, parts);
    PlacesOfMessage(parts, meta);
    forall p: nat | p < |parts| ensures HasPos(own, p) <==> p in seen {
      if p in seen {
        assert parts[p] in own;
      }
    }
  }

  /** One part of the message arrives in time. */
  lemma HandleOwn(cs: seq<Chunk>, meta: ChunkMeta, parts: seq<Chunk>, seen: set<nat>, a: Arrival)
    requires Message(parts, meta) && Holds(cs, meta.id, parts, seen)
    requires a.chunk in parts && Accepted(a.chunk, a.nowIn) && Alive(meta, a.nowOut)
    ensures var all := seen + {a.chunk.pos} == AllPlaces(parts);
      && Handled(cs, a).0 == (if all then Some(FlatData(parts)) else None)
      && Holds(Handled(cs, a).1, meta.id, parts, if all then {} else seen + {a.chunk.pos})
      && WithoutMessage(Handled(cs, a).1, meta.id) == WithoutMessage(WithoutExpired(cs + [a.chunk], a.nowOut), meta.id)
  {
    var pool := WithoutExpired(cs + [a.chunk], a.nowOut);
    PoolWithOwn(cs, meta, parts, seen, a);
    GetOfHeld(pool, meta, parts, seen + {a.chunk.pos});
    FilterTwice(pool, (c: Chunk) => c.meta.id != meta.id);
  }

  lemma PoolWithOwn(cs: seq<Chunk>, meta: ChunkMeta, parts: seq<Chunk>, seen: set<nat>, a: Arrival)
    requires Message(parts, meta) && Holds(cs, meta.id, parts, seen)
    requires a.chunk in parts && Alive(meta, a.nowOut)
    ensures Holds(WithoutExpired(cs + [a.chunk], a.nowOut), meta.id, parts, seen + {a.chunk.pos})
  {
    assert a.chunk == parts[a.chunk.pos];
  }

  lemma {:induction false} FilterTwice(cs: seq<Chunk>, keep: Chunk -> bool)
    ensures Filter(Filter(cs, keep), keep) == Filter(cs, keep)
  {
    if cs != [] {
      FilterTwice(cs[1..], keep);
      if keep(cs[0]) {
        assert Filter(cs, keep)[1..] == Filter(cs[1..], keep);
      }
    }
  }

  /** A chunk of another message arrives while this one is still alive. */
  lemma HandleOther(cs: seq<Chunk>, meta: ChunkMeta, parts: seq<Chunk>, seen: set<nat>, a: Arrival)
    requires Message(parts, meta) && Holds(cs, meta.id, parts, seen)
    requires a.chunk.meta.id != meta.id && Alive(meta, a.nowOut)
    ensures Holds(Handled(cs, a).1, meta.id, parts, seen)
  {
    var pool := WithoutExpired(cs + [a.chunk], a.nowOut);
    SameOwnHolds(cs, pool, meta, parts, seen);
    SameOwnHolds(pool, WithoutMessage(pool, a.chunk.meta.id), meta, parts, seen);
  }

  lemma SameOwnHolds(cs: seq<Chunk>, ds: seq<Chunk>, meta: ChunkMeta, parts: seq<Chunk>, seen: set<nat>)
    requires Message(parts, meta) && Holds(cs, meta.id, parts, seen)
    requires forall c :: c in ds && c.meta.id == meta.id ==> c in cs
    requires forall c :: c in cs && c.meta == meta ==> c in ds
    ensures Holds(ds, meta.id, parts, seen)
  {
  }

  /** A refused chunk changes nothing; an accepted one only drives out expired chunks and its own message. */
  lemma HandledFrame(cs: seq<Chunk>, a: Arrival)
    ensures !Accepted(a.chunk, a.nowIn) ==> Handled(cs, a) == (None, cs)
    ensures Accepted(a.chunk, a.nowIn) ==> var after := Handled(cs, a).1;
      && (forall c :: c in after ==> (c in cs || c == a.chunk) && Alive(c.meta, a.nowOut))
      && (forall c :: c in cs && Alive(c.meta, a.nowOut) && c.meta.id != a.chunk.meta.id ==> c in after)
      && (Handled(cs, a).0.Some? ==> forall c :: c in after ==> c.meta.id != a.chunk.meta.id)
      && (Handled(cs, a).0.None? && Alive(a.chunk.meta, a.nowOut) ==> a.chunk in after)
  {
  }

  /**
   * Any accepted chunk, fitting what is held or not: of the chunks alive by then, the first of each position of
   * its message decide. If they are as many as the least of them says, they come out and the message goes.
   */
  lemma HandledOfAny(cs: seq<Chunk>, a: Arrival, v: seq<Chunk>)
    requires Accepted(a.chunk, a.nowIn)
    requires IsDigest(v, OfMessage(WithoutExpired(cs + [a.chunk], a.nowOut), a.chunk.meta.id))
    ensures var alive := WithoutExpired(cs + [a.chunk], a.nowOut);
      Handled(cs, a) ==
        if v != [] && |v| == v[0].total then (Some(FlatData(v)), WithoutMessage(alive, a.chunk.meta.id))
        else (None, alive)
  {
    GetOfAny(WithoutExpired(cs + [a.chunk], a.nowOut), a.chunk.meta.id, v);
  }

  // ---------- runs of the pool ----------

  function PoolAfter(cs: seq<Chunk>, arrivals: seq<Arrival>): seq<Chunk> {
    if arrivals == [] then cs
    else Handled(PoolAfter(cs, arrivals[..|arrivals| - 1]), arrivals[|arrivals| - 1]).1
  }

  /** The places of the message that have arrived since it was last completed. */
  function SeenAfter(arrivals: seq<Arrival>, id: nat, parts: seq<Chunk>): set<nat> {
    if arrivals == [] then {}
    else
      var before, c := SeenAfter(arrivals[..|arrivals| - 1], id, parts), arrivals[|arrivals| - 1].chunk;
      if c.meta.id != id then before
      else if before + {c.pos} == AllPlaces(parts) then {}
      else before + {c.pos}
  }

  /** Every chunk of the message is one of its parts, accepted and alive; other messages are arbitrary. */
  ghost predicate Timely(arrivals: seq<Arrival>, meta: ChunkMeta, parts: seq<Chunk>) {
    forall i :: 0 <= i < |arrivals| ==>
      && Alive(meta, arrivals[i].nowOut)
      && (arrivals[i].chunk.meta.id == meta.id ==>
           arrivals[i].chunk in parts && Accepted(arrivals[i].chunk, arrivals[i].nowIn))
  }

  lemma {:induction false} RunHolds(cs: seq<Chunk>, arrivals: seq<Arrival>, meta: ChunkMeta, parts: seq<Chunk>)
    requires Message(parts, meta) && Holds(cs, meta.id, parts, {}) && Timely(arrivals, meta, parts)
    ensures Holds(PoolAfter(cs, arrivals), meta.id, parts, SeenAfter(arrivals, meta.id, parts))
  {
    if arrivals != [] {
      var front, last := arrivals[..|arrivals| - 1], arrivals[|arrivals| - 1];
      RunHolds(cs, front, meta, parts);
      if last.chunk.meta.id == meta.id {
        HandleOwn(PoolAfter(cs, front), meta, parts, SeenAfter(front, meta.id, parts), last);
      } else {
        HandleOther(PoolAfter(cs, front), meta, parts, SeenAfter(front, meta.id, parts), last);
      }
    }
  }

  lemma ReassemblyOfTimely(bytes: seq<Byte>, mtu: nat, meta: ChunkMeta, cs: seq<Chunk>, arrivals: seq<Arrival>, k: nat)
    requires mtu > 0 && bytes != [] && forall c :: c in cs ==> c.meta.id != meta.id
    requires Timely(arrivals, meta, Split(bytes, mtu, meta))
    requires k < |arrivals| && arrivals[k].chunk.meta.id == meta.id
    ensures var parts := Split(bytes, mtu, meta);
      var seen := SeenAfter(arrivals[..k], meta.id, parts) + {arrivals[k].chunk.pos};
      Handled(PoolAfter(cs, arrivals[..k]), arrivals[k]).0 == if seen == AllPlaces(parts) then Some(bytes) else None
  {
    var parts := Split(bytes, mtu, meta);
    SplitRoundTrip(bytes, mtu, meta);
    RunHolds(cs, arrivals[..k], meta, parts);
    HandleOwn(PoolAfter(cs, arrivals[..k]), meta, parts, SeenAfter(arrivals[..k], meta.id, parts), arrivals[k]);
  }

  /**
   * The message has an ordinary stamp and time to live. Every arrival is over before it expires, and every chunk
   * of it is one of its parts and comes in no more than three seconds before its stamp.
   */
  ghost predicate InTime(arrivals: seq<Arrival>, meta: ChunkMeta, parts: seq<Chunk>) {
    && 3000 <= meta.tsMs && meta.ttlMs <= 3000000 && meta.tsMs + meta.ttlMs < TWO_TO_THE_128
    && forall i :: 0 <= i < |arrivals| ==>
         && arrivals[i].nowOut < meta.tsMs + meta.ttlMs
         && (arrivals[i].chunk.meta.id == meta.id ==>
              arrivals[i].chunk in parts && meta.tsMs <= arrivals[i].nowIn + 3000)
  }

  lemma InTimeIsTimely(arrivals: seq<Arrival>, meta: ChunkMeta, parts: seq<Chunk>)
    requires InTime(arrivals, meta, parts) && forall i :: 0 <= i < |parts| ==> parts[i].meta == meta
    ensures Timely(arrivals, meta, parts)
  {
    forall i | 0 <= i < |arrivals| ensures Alive(meta, arrivals[i].nowOut)
      && (arrivals[i].chunk.meta.id == meta.id ==> Accepted(arrivals[i].chunk, arrivals[i].nowIn))
    {
      AliveIff(meta, arrivals[i].nowOut);
      AcceptedIff(arrivals[i].chunk, arrivals[i].nowIn);
    }
  }

  /**
   * Chunks of one message fed in any order, with repetitions and between chunks of other messages:
   * each gives nothing until the last missing place arrives, and that one gives the original bytes.
   */
  lemma Reassembly(bytes: seq<Byte>, mtu: nat, meta: ChunkMeta, cs: seq<Chunk>, arrivals: seq<Arrival>, k: nat)
    requires mtu > 0 && bytes != [] && forall c :: c in cs ==> c.meta.id != meta.id
    requires InTime(arrivals, meta, Split(bytes, mtu, meta))
    requires k < |arrivals| && arrivals[k].chunk.meta.id == meta.id
    ensures var parts := Split(bytes, mtu, meta);
      var seen := SeenAfter(arrivals[..k], meta.id, parts) + {arrivals[k].chunk.pos};
      Handled(PoolAfter(cs, arrivals[..k]), arrivals[k]).0 == if seen == AllPlaces(parts) then Some(bytes) else None
  {
    InTimeIsTimely(arrivals, meta, Split(bytes, mtu, meta));
    ReassemblyOfTimely(bytes, mtu, meta, cs, arrivals, k);
  }

  // ---------- the pool as an object ----------

  class ChunkList {
    var chunks: seq<Chunk>

    constructor ()
      ensures chunks == []
    {
      chunks := [];
    }

    method Remove(id: nat)
      modifies this
      ensures chunks == WithoutMessage(old(chunks), id)
      ensures forall c :: c in chunks <==> c in old(chunks) && c.meta.id != id
    {
      chunks := WithoutMessage(chunks, id);
    }

    method RemoveExpired(now: Millis)
      modifies this
      ensures chunks == WithoutExpired(old(chunks), now)
      ensures forall c :: c in chunks <==> c in old(chunks) && Alive(c.meta, now)
    {
      chunks := WithoutExpired(chunks, now);
    }

    /**
     * If the pool holds the places `seen` of a message and one of its parts arrives in time, the whole data
     * comes out exactly if no place is missing any more, and then nothing of the message stays.
     * Chunks of other messages that have not expired always stay.
     */
    method Handle(chunk: Chunk, nowIn: Millis, nowOut: Millis) returns (data: Option<seq<Byte>>)
      modifies this
      ensures (data, chunks) == Handled(old(chunks), Arrival(chunk, nowIn, nowOut))
      ensures data.Some? || chunks == old(chunks) || chunks == WithoutExpired(old(chunks) + [chunk], nowOut)
      ensures forall parts, seen ::
        Message(parts, chunk.meta) && Holds(old(chunks), chunk.meta.id, parts, seen) && chunk in parts
        && Accepted(chunk, nowIn) && Alive(chunk.meta, nowOut) ==>
          var all := seen + {chunk.pos} == AllPlaces(parts);
          && data == (if all then Some(FlatData(parts)) else None)
          && Holds(chunks, chunk.meta.id, parts, if all then {} else seen + {chunk.pos})
      ensures data.Some? ==> forall c :: c in chunks ==> c.meta.id != chunk.meta.id
      ensures forall c :: c in old(chunks) && Alive(c.meta, nowOut) && c.meta.id != chunk.meta.id ==> c in chunks
    {
      ghost var a := Arrival(chunk, nowIn, nowOut);
      HandledFrame(chunks, a);
      forall parts, seen |
        Message(parts, chunk.meta) && Holds(chunks, chunk.meta.id, parts, seen) && chunk in parts
        && Accepted(chunk, nowIn) && Alive(chunk.meta, nowOut)
        ensures var all := seen + {chunk.pos} == AllPlaces(parts);
          && Handled(chunks, a).0 == (if all then Some(FlatData(parts)) else None)
          && Holds(Handled(chunks, a).1, chunk.meta.id, parts, if all then {} else seen + {chunk.pos})
      {
        HandleOwn(chunks, chunk.meta, parts, seen, a);
      }
      if chunk.meta.ttlMs > MAX_TTL_MS {
        return None;
      }
      if WrapSub(chunk.meta.tsMs, TS_OFFSET_TOLERANCE_MS) > nowIn {
        return None;
      }
      chunks := chunks + [chunk];
      RemoveExpired(nowOut);
      data := Get(chunks, chunk.meta.id);
      if data.Some? {
        Remove(chunk.meta.id);
      }
    }
  }
}
