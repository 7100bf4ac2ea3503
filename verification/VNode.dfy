/** Virtual nodes: the bounded values stored on the ring. */
module VNodes {
  import opened Wrappers
  import opened Ring
  import opened Sequences

  const VNODE_DATA_MAX_LEN: nat := 1024

  type Encoded = string

  datatype VNodeType = Data | Subring | RelayMessage

  datatype VirtualNode = VirtualNode(did: Did, data: seq<Encoded>, kind: VNodeType)

  datatype VNodeOperation = Overwrite(vnode: VirtualNode) | Extend(vnode: VirtualNode) | Touch(vnode: VirtualNode)

  datatype VNodeError = NotOverwritable | NotAppendable | KindNotEqual | DidNotEqual

  /** The value an operation starts from when nothing is stored yet. */
  function DefaultVNode(op: VNodeOperation): VirtualNode {
    VirtualNode(op.vnode.did, [], op.vnode.kind)
  }

  function Operate(self: VirtualNode, op: VNodeOperation): Result<VirtualNode, VNodeError> {
    match op
    case Overwrite(other) => OverwriteWith(self, other)
    case Extend(other) => ExtendWith(self, other)
    case Touch(other) => TouchWith(self, other)
  }

  function OverwriteWith(self: VirtualNode, other: VirtualNode): Result<VirtualNode, VNodeError> {
    if self.kind != Data then Err(NotOverwritable)
    else if self.kind != other.kind then Err(KindNotEqual)
    else if self.did != other.did then Err(DidNotEqual)
    else Ok(other)
  }

  function ExtendWith(self: VirtualNode, other: VirtualNode): Result<VirtualNode, VNodeError> {
    if self.kind != Data then Err(NotAppendable)
    else if self.kind != other.kind then Err(KindNotEqual)
    else if self.did != other.did then Err(DidNotEqual)
    else
      var trimNum := Excess(|self.data| + |other.data|);
      Ok(VirtualNode(self.did, Skip(self.data, trimNum) + other.data, self.kind))
  }

  function TouchWith(self: VirtualNode, other: VirtualNode): Result<VirtualNode, VNodeError> {
    if self.kind != Data then Err(NotAppendable)
    else if self.kind != other.kind then Err(KindNotEqual)
    else if self.did != other.did then Err(DidNotEqual)
    else
      var remains := Minus(self.data, other.data);
      var trimNum := Excess(|remains| + |other.data|);
      Ok(VirtualNode(self.did, Skip(remains, trimNum) + other.data, self.kind))
  }

  function Excess(len: nat): nat {
    if len > VNODE_DATA_MAX_LEN then len - VNODE_DATA_MAX_LEN else 0
  }

  function Skip<T>(s: seq<T>, k: nat): seq<T> {
    if k <= |s| then s[k..] else []
  }

  /** The elements of `s` that do not occur in `gone`, in order. */
  function Minus(s: seq<Encoded>, gone: seq<Encoded>): seq<Encoded> {
    if s == [] then []
    else if s[0] in gone then Minus(s[1..], gone)
    else [s[0]] + Minus(s[1..], gone)
  }

  // ---------- which operations succeed ----------

  /** An operation succeeds exactly between two data values of one id, and keeps that id and kind. */
  lemma OperateSucceedsIff(self: VirtualNode, op: VNodeOperation)
    ensures Operate(self, op).Ok? <==> self.kind == Data && op.vnode.kind == Data && self.did == op.vnode.did
    ensures Operate(self, op).Ok? ==> Operate(self, op).value.did == self.did && Operate(self, op).value.kind == Data
    ensures Operate(self, op).Ok? && op.Overwrite? ==> Operate(self, op).value == op.vnode
    ensures Operate(self, op) == Err(DidNotEqual) <==>
      self.kind == Data && op.vnode.kind == Data && self.did != op.vnode.did
    ensures Operate(self, op) == Err(KindNotEqual) <==> self.kind == Data && op.vnode.kind != Data
    ensures self.kind != Data ==> Operate(self, op) == Err(if op.Overwrite? then NotOverwritable else NotAppendable)
  {
  }

  // ---------- extend is a sliding window ----------

  /** The last `k` elements, or all of them. */
  function LastN<T>(s: seq<T>, k: nat): seq<T> {
    if |s| <= k then s else s[|s| - k..]
  }

  /** How much is kept when `len` new elements come in. */
  function Window(len: nat): nat {
    if len > VNODE_DATA_MAX_LEN then len else VNODE_DATA_MAX_LEN
  }

  /** Extending keeps the newest elements: at most 1024, unless the new data alone is longer. */
  lemma ExtendIsWindow(self: VirtualNode, other: VirtualNode)
    requires self.kind == Data && other.kind == Data && self.did == other.did
    ensures ExtendWith(self, other) ==
      Ok(VirtualNode(self.did, LastN(self.data + other.data, Window(|other.data|)), Data))
  {
    assert Skip(self.data, Excess(|self.data| + |other.data|)) + other.data ==
      LastN(self.data + other.data, Window(|other.data|));
  }

  /** Touching several elements at once: the untouched ones first, the touched ones last, cut like extending. */
  lemma TouchIsWindow(self: VirtualNode, other: VirtualNode)
    requires self.kind == Data && other.kind == Data && self.did == other.did
    ensures TouchWith(self, other) ==
      Ok(VirtualNode(self.did, LastN(Minus(self.data, other.data) + other.data, Window(|other.data|)), Data))
    ensures forall e :: e in Minus(self.data, other.data) <==> e in self.data && e !in other.data
  {
    var remains := VirtualNode(self.did, Minus(self.data, other.data), Data);
    ExtendIsWindow(remains, other);
    MinusElements(self.data, other.data);
  }

  lemma {:induction false} MinusElements(s: seq<Encoded>, gone: seq<Encoded>)
    ensures forall e :: e in Minus(s, gone) <==> e in s && e !in gone
  {
    if s != [] {
      MinusElements(s[1..], gone);
      assert s == [s[0]] + s[1..];
    }
  }

  datatype Mode = Extending | Touching

  /** The operation that puts a single element into the data value `did`. */
  function PutOne(mode: Mode, did: Did, e: Encoded): VNodeOperation {
    var v := VirtualNode(did, [e], Data);
    if mode == Extending then Extend(v) else Touch(v)
  }

  /** The value after each element of `history` was put in, one by one, from the default value on. */
  function Replay(mode: Mode, did: Did, history: seq<Encoded>): Result<VirtualNode, VNodeError> {
    if history == [] then Ok(VirtualNode(did, [], Data))
    else
      var op := PutOne(mode, did, history[|history| - 1]);
      match Replay(mode, did, history[..|history| - 1])
      case Err(e) => Err(e)
      case Ok(v) => Operate(v, op)
  }

  lemma ReplayLast(mode: Mode, did: Did, front: seq<Encoded>, last: Encoded, v: VirtualNode)
    requires Replay(mode, did, front) == Ok(v)
    ensures Replay(mode, did, front + [last]) == Operate(v, PutOne(mode, did, last))
  {
    assert (front + [last])[..|front|] == front;
  }

  /** The first operation starts from the value generated for it, which is the empty data value. */
  lemma ReplayStartsFromDefault(mode: Mode, did: Did, e: Encoded)
    ensures Replay(mode, did, [e]) == Operate(DefaultVNode(PutOne(mode, did, e)), PutOne(mode, did, e))
  {
    assert [e][..0] == [];
    assert Replay(mode, did, []) == Ok(DefaultVNode(PutOne(mode, did, e)));
  }

  /** Single-element extends keep the last 1024 elements of the whole history. */
  lemma {:induction false} ExtendRun(did: Did, history: seq<Encoded>)
    ensures Replay(Extending, did, history) == Ok(VirtualNode(did, LastN(history, 1024), Data))
  {
    if history != [] {
      var front, last := history[..|history| - 1], history[|history| - 1];
      var kept := LastN(front, VNODE_DATA_MAX_LEN);
      ExtendRun(did, front);
      assert history == front + [last];
      ReplayLast(Extending, did, front, last, VirtualNode(did, kept, Data));
      ExtendIsWindow(VirtualNode(did, kept, Data), VirtualNode(did, [last], Data));
      assert LastN(kept + [last], VNODE_DATA_MAX_LEN) == LastN(history, VNODE_DATA_MAX_LEN);
    }
  }

  // ---------- touch is a least-recently-used list ----------

  /** The distinct elements of `history`, each at its last occurrence. */
  function LastTouches(history: seq<Encoded>): seq<Encoded> {
    if history == [] then []
    else if history[0] in history[1..] then LastTouches(history[1..])
    else [history[0]] + LastTouches(history[1..])
  }

  lemma {:induction false} LastTouchesDistinct(history: seq<Encoded>)
    ensures NoRepeats(LastTouches(history))
    ensures forall e :: e in LastTouches(history) <==> e in history
  {
    if history != [] {
      LastTouchesDistinct(history[1..]);
      assert history == [history[0]] + history[1..];
    }
  }

  lemma {:induction false} LastTouchesAppend(history: seq<Encoded>, e: Encoded)
    ensures LastTouches(history + [e]) == Minus(LastTouches(history), [e]) + [e]
  {
    if history != [] {
      LastTouchesAppend(history[1..], e);
      assert (history + [e])[1..] == history[1..] + [e];
      assert (history + [e])[0] == history[0];
      if history[0] !in history[1..] {
        MinusCons(history[0], LastTouches(history[1..]), [e]);
      }
    } else {
      assert LastTouches([e]) == [e];
    }
  }

  lemma MinusCons(x: Encoded, s: seq<Encoded>, gone: seq<Encoded>)
    ensures Minus([x] + s, gone) == if x in gone then Minus(s, gone) else [x] + Minus(s, gone)
  {
    assert ([x] + s)[1..] == s;
  }

  lemma {:induction false} MinusAppend(a: seq<Encoded>, b: seq<Encoded>, gone: seq<Encoded>)
    ensures Minus(a + b, gone) == Minus(a, gone) + Minus(b, gone)
  {
    if a == [] {
      assert a + b == b;
    } else {
      MinusAppend(a[1..], b, gone);
      assert (a + b)[1..] == a[1..] + b && (a + b)[0] == a[0];
    }
  }

  /** From a duplicate-free list at most one element goes. */
  lemma {:induction false} MinusOne(s: seq<Encoded>, e: Encoded)
    requires NoRepeats(s)
    ensures e !in s ==> Minus(s, [e]) == s
    ensures e in s ==> |Minus(s, [e])| == |s| - 1
  {
    if s != [] {
      assert s == [s[0]] + s[1..];
      MinusOne(s[1..], e);
    }
  }

  /** Touching the cut list gives the cut of touching the whole list. */
  lemma TouchOfCut(l: seq<Encoded>, e: Encoded)
    requires NoRepeats(l)
    ensures LastN(Minus(LastN(l, VNODE_DATA_MAX_LEN), [e]) + [e], VNODE_DATA_MAX_LEN) ==
      LastN(Minus(l, [e]) + [e], VNODE_DATA_MAX_LEN)
  {
    var cut := LastN(l, VNODE_DATA_MAX_LEN);
    var front := l[..|l| - |cut|];
    assert l == front + cut;
    MinusAppend(front, cut, [e]);
    MinusOne(cut, e);
    CutAlgebra(Minus(front, [e]), Minus(cut, [e]), e);
  }

  lemma CutAlgebra(front: seq<Encoded>, cut: seq<Encoded>, e: Encoded)
    requires front == [] || |cut| >= VNODE_DATA_MAX_LEN - 1
    ensures LastN(cut + [e], VNODE_DATA_MAX_LEN) == LastN(front + cut + [e], VNODE_DATA_MAX_LEN)
  {
  }

  lemma TouchOne(did: Did, l: seq<Encoded>, e: Encoded)
    requires NoRepeats(l)
    ensures TouchWith(VirtualNode(did, LastN(l, VNODE_DATA_MAX_LEN), Data), VirtualNode(did, [e], Data)) ==
      Ok(VirtualNode(did, LastN(Minus(l, [e]) + [e], VNODE_DATA_MAX_LEN), Data))
  {
    TouchIsWindow(VirtualNode(did, LastN(l, VNODE_DATA_MAX_LEN), Data), VirtualNode(did, [e], Data));
    TouchOfCut(l, e);
  }

  lemma TouchAppended(did: Did, front: seq<Encoded>, last: Encoded, l: seq<Encoded>)
    requires NoRepeats(l)
    requires Replay(Touching, did, front) == Ok(VirtualNode(did, LastN(l, VNODE_DATA_MAX_LEN), Data))
    ensures Replay(Touching, did, front + [last]) ==
      Ok(VirtualNode(did, LastN(Minus(l, [last]) + [last], VNODE_DATA_MAX_LEN), Data))
  {
    ReplayLast(Touching, did, front, last, VirtualNode(did, LastN(l, VNODE_DATA_MAX_LEN), Data));
    TouchOne(did, l, last);
  }

  /** Single-element touches keep the 1024 most recently touched elements, least recent first. */
  lemma {:induction false} TouchRun(did: Did, history: seq<Encoded>)
    ensures Replay(Touching, did, history) ==
      Ok(VirtualNode(did, LastN(LastTouches(history), 1024), Data))
  {
    if history != [] {
      var front, last := history[..|history| - 1], history[|history| - 1];
      TouchRun(did, front);
      LastTouchesDistinct(front);
      TouchAppended(did, front, last, LastTouches(front));
      LastTouchesAppend(front, last);
      assert history == front + [last];
    }
  }

  /** What a touched value holds never repeats, and was put in. */
  lemma TouchedIsDistinct(did: Did, history: seq<Encoded>)
    ensures Replay(Touching, did, history).Ok?
    ensures var data := Replay(Touching, did, history).value.data;
      |data| <= 1024 && NoRepeats(data) && forall e :: e in data ==> e in history
  {
    TouchRun(did, history);
    LastTouchesDistinct(history);
  }
}
