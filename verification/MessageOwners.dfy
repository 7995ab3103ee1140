/**
  Who frees what: several Messages (mongo/util/net/message.h) handing buffers to one
  another. A buffer is a number; only the fields that decide about freeing are kept.
 */
module MessageOwners {
  import opened Bytes

  type Buf = nat

  /** _buf, the first components of _data, and _freeIt. */
  datatype Msg = Msg(buf: Option<Buf>, data: seq<Buf>, freeIt: bool)
  {
    predicate Empty() { buf.None? && data == [] }

    predicate Steady() { (data != [] ==> buf.None? && freeIt) && (freeIt ==> !Empty()) }

    /** What reset() frees. */
    function Owned(): multiset<Buf>
    {
      if freeIt then (if buf.Some? then multiset{buf.value} else multiset{}) + multiset(data) else multiset{}
    }
  }

  const NEW_MESSAGE := Msg(None, [], false)

  /** `given` collects every buffer a message was made responsible for. */
  datatype World = World(msgs: seq<Msg>, given: multiset<Buf>, freed: multiset<Buf>)

  datatype Op =
    | SetData(i: nat, d: Buf, freeIt: bool)
    | AppendData(i: nat, d: Buf)
    | Concat(i: nat, d: Buf)      // `d` is the buffer malloc returns
    | Assign(i: nat, r: nat)
    | Reset(i: nat)

  predicate InRange(op: Op, n: nat)
  {
    op.i < n && (op.Assign? ==> op.r < n)
  }

  function ResetMsg(w: World, i: nat): World
    requires i < |w.msgs|
  {
    w.(msgs := w.msgs[i := NEW_MESSAGE], freed := w.freed + w.msgs[i].Owned())
  }

  /** appendData() on a message that is empty or frees what it holds. */
  function Extended(m: Msg, d: Buf): Msg
  {
    if m.Empty() then Msg(Some(d), m.data, true)
    else Msg(None, (if m.buf.Some? then m.data + [m.buf.value] else m.data) + [d], true)
  }

  /** One call; None when a verify() of it fails. */
  function Step(w: World, op: Op): Option<World>
    requires InRange(op, |w.msgs|)
  {
    var m := w.msgs[op.i];
    match op
    case SetData(i, d, freeIt) =>
      if !m.Empty() then None
      else Some(w.(msgs := w.msgs[i := Msg(Some(d), m.data, freeIt)],
                   given := if freeIt then w.given + multiset{d} else w.given))
    case AppendData(i, d) =>
      if !m.Empty() && !m.freeIt then None
      else Some(w.(msgs := w.msgs[i := Extended(m, d)], given := w.given + multiset{d}))
    case Concat(i, d) =>
      if m.buf.Some? || m.Empty() then Some(w)
      else if !m.freeIt then None
      else
        var v := ResetMsg(w, i);
        Some(v.(msgs := v.msgs[i := Msg(Some(d), [], true)], given := v.given + multiset{d}))
    case Assign(i, r) =>
      var from := w.msgs[r];
      if !m.Empty() || !from.freeIt then None
      else
        var to := Msg(from.buf, if |from.data| > 0 then from.data else m.data, true);
        var left := Msg(None, if |from.data| > 0 then m.data else from.data, false);
        Some(w.(msgs := w.msgs[i := to][r := left]))
    case Reset(i) => Some(ResetMsg(w, i))
  }

  /** How many times `d` waits to be freed, over all messages. */
  function Held(msgs: seq<Msg>, d: Buf): nat
  {
    if msgs == [] then 0 else msgs[0].Owned()[d] + Held(msgs[1..], d)
  }

  ghost predicate Inv(w: World)
  {
    && (forall m :: m in w.msgs ==> m.Steady())
    && (forall d: Buf :: Held(w.msgs, d) + w.freed[d] == w.given[d])
  }

  lemma {:induction false} HeldUpdate(msgs: seq<Msg>, i: nat, m: Msg, d: Buf)
    requires i < |msgs|
    ensures Held(msgs[i := m], d) == Held(msgs, d) - msgs[i].Owned()[d] + m.Owned()[d]
  {
    if i > 0 {
      HeldUpdate(msgs[1..], i - 1, m, d);
      assert msgs[i := m][1..] == msgs[1..][i - 1 := m];
    } else {
      assert msgs[i := m][1..] == msgs[1..];
    }
  }

  /** A step that makes message `i` own `more` in exchange for `less`. */
  lemma Exchange(w: World, i: nat, m: Msg, more: multiset<Buf>, less: multiset<Buf>)
    requires Inv(w) && i < |w.msgs| && m.Steady()
    requires m.Owned() + less == w.msgs[i].Owned() + more
    ensures Inv(World(w.msgs[i := m], w.given + more, w.freed + less))
  {
    forall d: Buf ensures Held(w.msgs[i := m], d) + (w.freed + less)[d] == (w.given + more)[d] {
      HeldUpdate(w.msgs, i, m, d);
      assert (m.Owned() + less)[d] == (w.msgs[i].Owned() + more)[d];
      assert Held(w.msgs, d) + w.freed[d] == w.given[d];
    }
  }

  lemma AssignMoves(w: World, i: nat, r: nat)
    requires i < |w.msgs| && r < |w.msgs| && w.msgs[i].Empty() && w.msgs[r].freeIt && w.msgs[r].Steady()
    ensures Step(w, Assign(i, r)) == Some(w.(msgs := w.msgs[i := w.msgs[r]][r := NEW_MESSAGE]))
  {
  }

  /** operator= moves ownership: from `r`, which keeps nothing, to `i`, which had nothing. */
  lemma AssignKeepsInv(w: World, i: nat, r: nat)
    requires Inv(w) && i < |w.msgs| && r < |w.msgs| && w.msgs[i].Empty() && w.msgs[r].freeIt
    ensures Step(w, Assign(i, r)).Some? && Inv(Step(w, Assign(i, r)).value)
  {
    var m, from := w.msgs[i], w.msgs[r];
    assert m.Steady() && from.Steady();
    AssignMoves(w, i, r);
    var moved := w.msgs[i := from];
    forall d: Buf ensures Held(moved[r := NEW_MESSAGE], d) + w.freed[d] == w.given[d] {
      HeldUpdate(w.msgs, i, from, d);
      HeldUpdate(moved, r, NEW_MESSAGE, d);
      assert Held(w.msgs, d) + w.freed[d] == w.given[d];
    }
  }

  lemma ExtendedOwnsOneMore(m: Msg, d: Buf)
    requires m.Steady() && (m.Empty() || m.freeIt)
    ensures Extended(m, d).Steady() && Extended(m, d).Owned() == m.Owned() + multiset{d}
  {
    if !m.Empty() {
      var list := if m.buf.Some? then [m.buf.value] else m.data;
      assert m.Owned() == multiset(list);
      assert Extended(m, d).data == list + [d];
    }
  }

  lemma ConcatKeepsInv(w: World, i: nat, d: Buf)
    requires Inv(w) && i < |w.msgs| && Step(w, Concat(i, d)).Some?
    ensures Inv(Step(w, Concat(i, d)).value)
  {
    var m, one := w.msgs[i], Msg(Some(d), [], true);
    if m.buf.None? && !m.Empty() {
      Exchange(w, i, one, multiset{d}, m.Owned());
      assert w.msgs[i := NEW_MESSAGE][i := one] == w.msgs[i := one];
    }
  }

  lemma SetDataKeepsInv(w: World, i: nat, d: Buf, freeIt: bool)
    requires Inv(w) && i < |w.msgs| && w.msgs[i].Empty()
    ensures Step(w, SetData(i, d, freeIt)).Some? && Inv(Step(w, SetData(i, d, freeIt)).value)
  {
    var m := w.msgs[i];
    assert m.Steady();
    var more := if freeIt then multiset{d} else multiset{};
    Exchange(w, i, Msg(Some(d), m.data, freeIt), more, multiset{});
    assert w.given + multiset{} == w.given && w.freed + multiset{} == w.freed;
  }

  lemma AppendKeepsInv(w: World, i: nat, d: Buf)
    requires Inv(w) && i < |w.msgs| && (w.msgs[i].Empty() || w.msgs[i].freeIt)
    ensures Step(w, AppendData(i, d)).Some? && Inv(Step(w, AppendData(i, d)).value)
  {
    var m := w.msgs[i];
    assert m.Steady();
    ExtendedOwnsOneMore(m, d);
    Exchange(w, i, Extended(m, d), multiset{d}, multiset{});
    assert w.freed + multiset{} == w.freed;
  }

  lemma ResetKeepsInv(w: World, i: nat)
    requires Inv(w) && i < |w.msgs|
    ensures Inv(ResetMsg(w, i))
  {
    Exchange(w, i, NEW_MESSAGE, multiset{}, w.msgs[i].Owned());
    assert w.given + multiset{} == w.given;
  }

  lemma StepKeepsInv(w: World, op: Op)
    requires Inv(w) && InRange(op, |w.msgs|) && Step(w, op).Some?
    ensures Inv(Step(w, op).value) && |Step(w, op).value.msgs| == |w.msgs|
  {
    match op
    case SetData(i, d, freeIt) => SetDataKeepsInv(w, i, d, freeIt);
    case AppendData(i, d) => AppendKeepsInv(w, i, d);
    case Concat(i, d) => ConcatKeepsInv(w, i, d);
    case Assign(i, r) => AssignKeepsInv(w, i, r);
    case Reset(i) => ResetKeepsInv(w, i);
  }

  /** What a call does to one message and to the account, and that it leaves the others alone. */
  ghost predicate Changed(w: World, n: World, i: nat, owned: multiset<Buf>, given: multiset<Buf>, freed: multiset<Buf>)
  {
    && |n.msgs| == |w.msgs| && i < |w.msgs|
    && n.msgs[i].Owned() == owned
    && n.given == w.given + given && n.freed == w.freed + freed
    && forall j :: 0 <= j < |w.msgs| && j != i ==> n.msgs[j] == w.msgs[j]
  }

  lemma SetDataLands(w: World, i: nat, d: Buf, freeIt: bool)
    requires Inv(w) && i < |w.msgs|
    ensures Step(w, SetData(i, d, freeIt)).Some? <==> w.msgs[i].Empty()
    ensures w.msgs[i].Empty() ==>
              var n := Step(w, SetData(i, d, freeIt)).value;
              var more := if freeIt then multiset{d} else multiset{};
              Changed(w, n, i, more, more, multiset{}) && n.msgs[i].buf == Some(d)
  {
    assert w.msgs[i].Steady();
    assert w.given + multiset{} == w.given && w.freed + multiset{} == w.freed;
  }

  /** A buffer is refused exactly by a message that holds one it does not own. */
  lemma AppendLands(w: World, i: nat, d: Buf)
    requires Inv(w) && i < |w.msgs|
    ensures Step(w, AppendData(i, d)).Some? <==> w.msgs[i].Empty() || w.msgs[i].freeIt
    ensures w.msgs[i].Empty() || w.msgs[i].freeIt ==>
              Changed(w, Step(w, AppendData(i, d)).value, i, w.msgs[i].Owned() + multiset{d}, multiset{d}, multiset{})
  {
    assert w.msgs[i].Steady();
    if w.msgs[i].Empty() || w.msgs[i].freeIt {
      ExtendedOwnsOneMore(w.msgs[i], d);
    }
    assert w.freed + multiset{} == w.freed;
  }

  /** A list of buffers is freed, and one new buffer is owned instead; anything else stays. */
  lemma ConcatLands(w: World, i: nat, d: Buf)
    requires Inv(w) && i < |w.msgs|
    ensures Step(w, Concat(i, d)).Some?
    ensures w.msgs[i].data == [] ==> Step(w, Concat(i, d)).value == w
    ensures w.msgs[i].data != [] ==>
              Changed(w, Step(w, Concat(i, d)).value, i, multiset{d}, multiset{d}, multiset(w.msgs[i].data))
  {
    assert w.msgs[i].Steady();
    if w.msgs[i].data != [] {
      assert w.msgs[i].Owned() == multiset(w.msgs[i].data);
    }
  }

  lemma AssignLands(w: World, i: nat, r: nat)
    requires Inv(w) && i < |w.msgs| && r < |w.msgs| && i != r
    ensures Step(w, Assign(i, r)).Some? <==> w.msgs[i].Empty() && w.msgs[r].freeIt
    ensures w.msgs[i].Empty() && w.msgs[r].freeIt ==>
              var n := Step(w, Assign(i, r)).value;
              && n.msgs[i] == w.msgs[r] && n.msgs[r] == NEW_MESSAGE && n.given == w.given && n.freed == w.freed
              && |n.msgs| == |w.msgs| && forall j :: 0 <= j < |w.msgs| && j != i && j != r ==> n.msgs[j] == w.msgs[j]
  {
    assert w.msgs[i].Steady() && w.msgs[r].Steady();
    if w.msgs[i].Empty() && w.msgs[r].freeIt {
      AssignMoves(w, i, r);
    }
  }

  lemma ResetLands(w: World, i: nat)
    requires Inv(w) && i < |w.msgs|
    ensures Step(w, Reset(i)).Some?
    ensures var n := Step(w, Reset(i)).value;
            Changed(w, n, i, multiset{}, multiset{}, w.msgs[i].Owned()) && n.msgs[i].Empty()
  {
    assert w.given + multiset{} == w.given;
  }

  /** A run stops where a verify() fails. */
  function Run(w: World, ops: seq<Op>): Option<World>
    requires forall op :: op in ops ==> InRange(op, |w.msgs|)
    decreases |ops|
  {
    if ops == [] then Some(w)
    else
      var next := Step(w, ops[0]);
      if next.None? then None else Run(next.value, ops[1..])
  }

  lemma {:induction false} RunKeepsInv(w: World, ops: seq<Op>)
    requires Inv(w) && forall op :: op in ops ==> InRange(op, |w.msgs|)
    requires Run(w, ops).Some?
    ensures Inv(Run(w, ops).value) && |Run(w, ops).value.msgs| == |w.msgs|
    decreases |ops|
  {
    if ops != [] {
      StepKeepsInv(w, ops[0]);
      RunKeepsInv(Step(w, ops[0]).value, ops[1..]);
    }
  }

  // ---------------------------------------------------------- every buffer, once

  function Fresh(n: nat): World
  {
    World(seq(n, _ => NEW_MESSAGE), multiset{}, multiset{})
  }

  /** The destructors of the messages from `i` on. */
  function DestroyFrom(w: World, i: nat): (r: World)
    requires i <= |w.msgs|
    ensures |r.msgs| == |w.msgs|
    decreases |w.msgs| - i
  {
    if i == |w.msgs| then w else DestroyFrom(ResetMsg(w, i), i + 1)
  }

  lemma {:induction false} NothingHeld(msgs: seq<Msg>, d: Buf)
    requires forall k :: 0 <= k < |msgs| ==> msgs[k] == NEW_MESSAGE
    ensures Held(msgs, d) == 0
  {
    if msgs != [] {
      NothingHeld(msgs[1..], d);
    }
  }

  lemma {:induction false} DestroyFreesAll(w: World, i: nat)
    requires Inv(w) && i <= |w.msgs| && forall k :: 0 <= k < i ==> w.msgs[k] == NEW_MESSAGE
    ensures DestroyFrom(w, i).freed == DestroyFrom(w, i).given == w.given
    decreases |w.msgs| - i
  {
    if i == |w.msgs| {
      forall d: Buf ensures w.freed[d] == w.given[d] {
        NothingHeld(w.msgs, d);
        assert Held(w.msgs, d) + w.freed[d] == w.given[d];
      }
      assert w.freed == w.given;
    } else {
      StepKeepsInv(w, Reset(i));
      DestroyFreesAll(ResetMsg(w, i), i + 1);
    }
  }

  /**
    Over every run of `n` new messages: a buffer handed over once is at any moment
    either held by exactly one message or freed exactly once, and after the
    destructors every buffer handed over has been freed as often as it was given.
   */
  lemma EachBufferFreedOnce(n: nat, ops: seq<Op>)
    requires forall op :: op in ops ==> InRange(op, n)
    requires Run(Fresh(n), ops).Some?
    ensures var w := Run(Fresh(n), ops).value;
            && |w.msgs| == n
            && (forall d: Buf :: w.given[d] == 1 ==> Held(w.msgs, d) + w.freed[d] == 1)
            && DestroyFrom(w, 0).freed == w.given
  {
    var start := Fresh(n);
    forall d: Buf ensures Held(start.msgs, d) == 0 { NothingHeld(start.msgs, d); }
    RunKeepsInv(start, ops);
    var w := Run(start, ops).value;
    DestroyFreesAll(w, 0);
  }

  /** No double free: what is held has not been freed, as long as nobody hands a buffer over twice. */
  lemma HeldIsNotFreed(w: World, i: nat, d: Buf)
    requires Inv(w) && i < |w.msgs| && w.msgs[i].Owned()[d] > 0 && w.given[d] <= 1
    ensures w.freed[d] == 0 && w.msgs[i].Owned()[d] == 1
    ensures forall j :: 0 <= j < |w.msgs| && j != i ==> w.msgs[j].Owned()[d] == 0
  {
    assert Held(w.msgs, d) + w.freed[d] == w.given[d];
    HeldAtLeast(w.msgs, i, d);
    forall j | 0 <= j < |w.msgs| && j != i ensures w.msgs[j].Owned()[d] == 0 {
      HeldUpdate(w.msgs, i, NEW_MESSAGE, d);
      HeldAtLeast(w.msgs[i := NEW_MESSAGE], j, d);
    }
  }

  lemma {:induction false} HeldAtLeast(msgs: seq<Msg>, i: nat, d: Buf)
    requires i < |msgs|
    ensures Held(msgs, d) >= msgs[i].Owned()[d]
  {
    if i > 0 {
      HeldAtLeast(msgs[1..], i - 1, d);
    }
  }
}
