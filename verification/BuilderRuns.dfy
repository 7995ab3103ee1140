/**
  Whole runs of nested builders over one buffer (mongo/bson/bsonobjbuilder.h):
  what a run writes, when it throws, and that peeking never shows.
 */
module BuilderRuns {
  import opened Bytes
  import opened Bson
  import opened BufferState
  import opened BuilderMachine

  /** The calls of a run, one after the other; None as soon as one throws. */
  function Run(m: Machine, ops: seq<Op>): Option<Machine>
    decreases |ops|
  {
    if ops == [] then Some(m)
    else if !Steady(m) then None  // never the case in the runs below
    else
      match Step(m, ops[0])
      case None => None
      case Some(n) => Run(n, ops[1..])
  }

  function StackRun(s: Stack, ops: seq<Op>): Stack
    requires WellBracketed(s.Depth(), ops)
    decreases |ops|
  {
    if ops == [] then s
    else
      DepthAfter(s, ops[0]);
      StackRun(StackStep(s, ops[0]), ops[1..])
  }

  lemma DepthAfter(s: Stack, op: Op)
    requires op.End? ==> s.Depth() > 1
    ensures op.End? ==> s.Sub?
    ensures StackStep(s, op).Depth() == NextDepth(s.Depth(), op)
  {
    match op
    case Put(name, v) => assert s.Add(Element(name, v)).Depth() == s.Depth();
    case End =>
      var e := Element(s.name, SubValue(s.isArray, s.elems));
      assert s.parent.Add(e).Depth() == s.parent.Depth();
    case _ =>
  }

  /**
    After every well-bracketed run that does not throw, the shared buffer describes
    exactly the documents the calls spell out, and one byte is reserved for each
    open builder.
   */
  lemma {:induction false} RunKeepsInv(pre: ByteSeq, s: Stack, m: Machine, ops: seq<Op>)
    requires Inv(pre, s, m) && WellBracketed(s.Depth(), ops)
    ensures Run(m, ops).Some? ==> Inv(pre, StackRun(s, ops), Run(m, ops).value)
    decreases |ops|
  {
    if ops != [] {
      DepthAfter(s, ops[0]);
      StepKeepsInv(pre, s, m, ops[0]);
      if Step(m, ops[0]).Some? {
        RunKeepsInv(pre, StackStep(s, ops[0]), Step(m, ops[0]).value, ops[1..]);
      }
    }
  }

  // ------------------------------------------------------------- one root builder

  const HOLDER_SIZE: nat := 4  // sizeof(BSONObj::Holder)

  /** The buffer a root constructor leaves: holder, length to come, one reserved byte. */
  ghost predicate FreshRoot(m: Machine)
  {
    && m.b.Valid() && m.b.reserved == 1
    && |m.b.bytes| == HOLDER_SIZE + 4
    && m.offsets == [HOLDER_SIZE]
  }

  lemma FreshRootInv(m: Machine)
    requires FreshRoot(m)
    ensures Inv(m.b.bytes[..HOLDER_SIZE], Root([]), m)
  {
  }

  /**
    The object a run builds: the run's own documents, once the root is closed, are
    the bytes from the root's offset on, every nested length and terminator included.
   */
  lemma RunBuildsDocument(m: Machine, ops: seq<Op>)
    requires FreshRoot(m) && WellBracketed(1, ops)
    requires StackRun(Root([]), ops).Root?
    requires Run(m, ops).Some?
    ensures var n := Run(m, ops).value;
            && n.offsets == [HOLDER_SIZE] && Steady(n)
            && Close(n.b, HOLDER_SIZE).bytes[HOLDER_SIZE..] == EncodeDoc(StackRun(Root([]), ops).elems)
  {
    var pre := m.b.bytes[..HOLDER_SIZE];
    FreshRootInv(m);
    RunKeepsInv(pre, Root([]), m, ops);
    var n := Run(m, ops).value;
    var elems := StackRun(Root([]), ops).elems;
    CloseIsEncoding(n.b, HOLDER_SIZE, elems);
    var head := n.b.bytes[..HOLDER_SIZE];
    assert (head + EncodeDoc(elems))[|head|..] == EncodeDoc(elems);
  }

  // -------------------------------------------------- what an exception leaves

  /**
    The state a call leaves that throws: whatever it had written by then stays. A
    sub-builder whose constructor threw was never there.
   */
  function Thrown(m: Machine, op: Op): Machine
  {
    match op
    case Put(name, v) => m.(b := AppendAll(m.b, Chunks(name, v)).0)
    case Begin(isArray, name, slot) => m.(b := AppendAll(m.b, HeaderChunks(SubTag(isArray), name) + [slot]).0)
    case End => m
    case Peek => m
  }

  /** The state after a call, whether it returns or throws. */
  function After(m: Machine, op: Op): Machine
    requires Steady(m)
  {
    match Step(m, op)
    case None => Thrown(m, op)
    case Some(n) => n
  }

  /**
    The calls one after the other, whatever throws on the way: the exception is caught
    somewhere, and building goes on. It is over when the last builder is closed.
   */
  function Through(m: Machine, ops: seq<Op>): Machine
    decreases |ops|
  {
    if ops == [] || !Steady(m) then m else Through(After(m, ops[0]), ops[1..])
  }

  /** Every open builder has its length to patch and its byte reserved in the allocation. */
  ghost predicate AllOpen(b: Buffer, offsets: seq<nat>)
  {
    && b.Valid() && b.reserved == |offsets|
    && forall i :: 0 <= i < |offsets| ==> offsets[i] + 4 <= |b.bytes|
  }

  /** The open builders close one after the other, the innermost first, and every close is free. */
  ghost predicate CloseFreely(b: Buffer, offsets: seq<nat>)
    decreases |offsets|
  {
    offsets != [] ==> CloseIsFree(b, offsets[0]) && CloseFreely(Close(b, offsets[0]), offsets[1..])
  }

  lemma CloseKeepsOpen(b: Buffer, offsets: seq<nat>)
    requires AllOpen(b, offsets) && offsets != []
    ensures CloseIsFree(b, offsets[0]) && AllOpen(Close(b, offsets[0]), offsets[1..])
  {
  }

  lemma {:induction false} OpenClosesFreely(b: Buffer, offsets: seq<nat>)
    requires AllOpen(b, offsets)
    ensures CloseFreely(b, offsets)
    decreases |offsets|
  {
    if offsets != [] {
      CloseKeepsOpen(b, offsets);
      OpenClosesFreely(Close(b, offsets[0]), offsets[1..]);
    }
  }

  lemma {:induction false} DescribedIsOpen(pre: ByteSeq, s: Stack, bytes: ByteSeq, offsets: seq<nat>)
    requires Describes(pre, s, bytes, offsets)
    ensures |offsets| == s.Depth() && forall i :: 0 <= i < |offsets| ==> offsets[i] + 4 <= |bytes|
    decreases s
  {
    if s.Sub? {
      DescribedIsOpen(pre, s.parent, bytes[..offsets[0] - |s.name| - 2], offsets[1..]);
      assert forall i :: 1 <= i < |offsets| ==> offsets[i] == offsets[1..][i - 1];
    }
  }

  lemma WritesKeepOpen(b: Buffer, offsets: seq<nat>, chunks: seq<ByteSeq>)
    requires AllOpen(b, offsets)
    ensures AllOpen(AppendAll(b, chunks).0, offsets)
  {
    AppendAllWorks(b, chunks);
  }

  lemma ThrownIsOpen(m: Machine, op: Op)
    requires AllOpen(m.b, m.offsets)
    ensures AllOpen(Thrown(m, op).b, m.offsets) && Thrown(m, op).offsets == m.offsets
  {
    match op
    case Put(name, v) => WritesKeepOpen(m.b, m.offsets, Chunks(name, v));
    case Begin(isArray, name, slot) => WritesKeepOpen(m.b, m.offsets, HeaderChunks(SubTag(isArray), name) + [slot]);
    case _ =>
  }

  predicate SlotOk(op: Op)
  {
    op.Begin? ==> |op.slot| == 4
  }

  /** Whatever the call, and whether it throws: the builders open after it are as they should be. */
  lemma AfterIsOpen(m: Machine, op: Op)
    requires Steady(m) && AllOpen(m.b, m.offsets) && SlotOk(op)
    ensures AllOpen(After(m, op).b, After(m, op).offsets)
  {
    if Step(m, op).None? {
      ThrownIsOpen(m, op);
    } else {
      match op
      case Put(name, v) => WritesKeepOpen(m.b, m.offsets, Chunks(name, v));
      case Begin(isArray, name, slot) => BeginIsOpen(m, isArray, name, slot);
      case End => CloseKeepsOpen(m.b, m.offsets);
      case Peek => PeekIsPatch(m.b, m.offsets[0]);
    }
  }

  lemma BeginIsOpen(m: Machine, isArray: bool, name: CStr, slot: ByteSeq)
    requires Steady(m) && AllOpen(m.b, m.offsets) && |slot| == 4 && Step(m, Begin(isArray, name, slot)).Some?
    ensures var n := Step(m, Begin(isArray, name, slot)).value; AllOpen(n.b, n.offsets)
  {
    BeginWorks(m.b, SubTag(isArray), name, slot);
    var n := Step(m, Begin(isArray, name, slot)).value;
    forall i | 0 <= i < |n.offsets| ensures n.offsets[i] + 4 <= |n.b.bytes| {
      assert i > 0 ==> n.offsets[i] == m.offsets[i - 1];
    }
  }

  lemma {:induction false} ThroughIsOpen(m: Machine, ops: seq<Op>)
    requires AllOpen(m.b, m.offsets) && forall i :: 0 <= i < |ops| ==> SlotOk(ops[i])
    ensures AllOpen(Through(m, ops).b, Through(m, ops).offsets)
    decreases |ops|
  {
    if ops != [] && Steady(m) {
      AfterIsOpen(m, ops[0]);
      ThroughIsOpen(After(m, ops[0]), ops[1..]);
    }
  }

  lemma {:induction false} ThroughIsRun(m: Machine, ops: seq<Op>)
    requires Run(m, ops).Some?
    ensures Through(m, ops) == Run(m, ops).value
    decreases |ops|
  {
    if ops != [] {
      ThroughIsRun(Step(m, ops[0]).value, ops[1..]);
    }
  }

  /**
    Closing never fails: after every sequence of calls, whichever of them threw, each
    open builder has its byte reserved inside the allocation, so all of them close in
    turn and no close throws, grows or copies. Where nothing threw, the sequence is
    the run, and as many builders are open as the calls opened.
   */
  lemma ClosingNeverFails(m: Machine, ops: seq<Op>)
    requires FreshRoot(m) && forall i :: 0 <= i < |ops| ==> SlotOk(ops[i])
    ensures var n := Through(m, ops);
            && n.b.Valid() && n.b.reserved == |n.offsets|
            && |n.b.bytes| + |n.offsets| <= n.b.size
            && CloseFreely(n.b, n.offsets)
    ensures Run(m, ops).Some? && WellBracketed(1, ops) ==>
              Through(m, ops) == Run(m, ops).value && |Through(m, ops).offsets| == StackRun(Root([]), ops).Depth()
  {
    ThroughIsOpen(m, ops);
    OpenClosesFreely(Through(m, ops).b, Through(m, ops).offsets);
    if Run(m, ops).Some? && WellBracketed(1, ops) {
      var pre := m.b.bytes[..HOLDER_SIZE];
      FreshRootInv(m);
      ThroughIsRun(m, ops);
      RunKeepsInv(pre, Root([]), m, ops);
      DescribesOffsets(pre, StackRun(Root([]), ops), Through(m, ops).b.bytes, Through(m, ops).offsets);
    }
  }

  // ------------------------------------------------------------ cost of growth

  lemma ThrownPaid(initial: nat, m: Machine, op: Op)
    requires PaidFor(initial, m.b)
    ensures PaidFor(initial, Thrown(m, op).b)
  {
    match op
    case Put(name, v) => AppendAllPaid(initial, m.b, Chunks(name, v));
    case Begin(isArray, name, slot) => AppendAllPaid(initial, m.b, HeaderChunks(SubTag(isArray), name) + [slot]);
    case _ =>
  }

  lemma StepPaid(initial: nat, m: Machine, op: Op)
    requires Steady(m) && PaidFor(initial, m.b) && Step(m, op).Some?
    ensures PaidFor(initial, Step(m, op).value.b)
  {
    var n := Step(m, op).value.b;
    match op
    case Put(name, v) => AppendAllPaid(initial, m.b, Chunks(name, v));
    case Begin(isArray, name, slot) =>
      var chunks := HeaderChunks(SubTag(isArray), name) + [slot];
      AppendAllPaid(initial, m.b, chunks);
      ReservePaid(initial, AppendAll(m.b, chunks).0, 1);
    case End => SamePaid(initial, m.b, n);
    case Peek => SamePaid(initial, m.b, n);
  }

  lemma {:induction false} ThroughIsPaid(initial: nat, m: Machine, ops: seq<Op>)
    requires PaidFor(initial, m.b)
    ensures PaidFor(initial, Through(m, ops).b)
    decreases |ops|
  {
    if ops != [] && Steady(m) {
      if Step(m, ops[0]).Some? { StepPaid(initial, m, ops[0]); } else { ThrownPaid(initial, m, ops[0]); }
      ThroughIsPaid(initial, After(m, ops[0]), ops[1..]);
    }
  }

  /**
    Growth is linear: after every sequence of calls, whichever of them threw, the old
    capacity copied by all reallocations together is below the first plus the present size.
   */
  lemma GrowthIsLinear(m: Machine, ops: seq<Op>)
    requires m.b.copied == 0
    ensures var b := Through(m, ops).b;
            (b.copied == 0 && b.size == m.b.size) || b.copied < m.b.size + b.size
  {
    assert Amortised(m.b.size, m.b, 0);
    ThroughIsPaid(m.b.size, m, ops);
    PaidForIsLinear(m.b.size, Through(m, ops).b);
  }

  /** The EOO goes into the claimed byte, by an append that neither throws nor grows. */
  ghost predicate CloseIsFree(b: Buffer, offset: nat)
  {
    && b.reserved >= 1 && offset + 4 <= |b.bytes|
    && Append(Claim(b, 1), [EOO]) == Some(Claim(b, 1).(bytes := b.bytes + [EOO]))
    && Close(b, offset).size == b.size && Close(b, offset).copied == b.copied
    && Close(b, offset).Valid()
  }

  // --------------------------------------------------------------- when runs throw

  /** The most room any prefix of the calls needs: its bytes and its reservations. */
  function Peak(length: nat, depth: nat, ops: seq<Op>): (r: nat)
    ensures length + depth <= r
    decreases |ops|
  {
    if ops == [] then length + depth
    else Max(length + depth, Peak(NextLength(length, ops[0]), NextDepth(depth, ops[0]), ops[1..]))
  }

  function Max(a: nat, b: nat): nat
  {
    if a < b then b else a
  }

  /** A run throws exactly when some prefix of it needs more than the limit. */
  lemma {:induction false} RunThrowsIff(pre: ByteSeq, s: Stack, m: Machine, ops: seq<Op>)
    requires Inv(pre, s, m) && WellBracketed(s.Depth(), ops)
    ensures Run(m, ops).None? <==> Peak(|m.b.bytes|, m.b.reserved, ops) > Limit(m.b)
    decreases |ops|
  {
    if ops != [] {
      DepthAfter(s, ops[0]);
      StepKeepsInv(pre, s, m, ops[0]);
      var step := Step(m, ops[0]);
      if step.Some? {
        RunThrowsIff(pre, StackStep(s, ops[0]), step.value, ops[1..]);
      }
    }
  }

  // ------------------------------------------------------------------------ peeking

  /** What a peek hands out is the encoding of the innermost document so far. */
  lemma PeekShowsDocument(pre: ByteSeq, s: Stack, m: Machine)
    requires Inv(pre, s, m)
    ensures Steady(m) && Close(m.b, m.offsets[0]).bytes[m.offsets[0]..] == EncodeDoc(s.elems)
  {
    InvIsSteady(pre, s, m);
    CloseIsEncoding(m.b, m.offsets[0], s.elems);
    var head := m.b.bytes[..m.offsets[0]];
    assert (head + EncodeDoc(s.elems))[|head|..] == EncodeDoc(s.elems);
  }

  function WithoutPeeks(ops: seq<Op>): seq<Op>
  {
    if ops == [] then []
    else if ops[0].Peek? then WithoutPeeks(ops[1..])
    else [ops[0]] + WithoutPeeks(ops[1..])
  }

  lemma {:induction false} WithoutPeeksSameStack(s: Stack, ops: seq<Op>)
    requires WellBracketed(s.Depth(), ops)
    ensures WellBracketed(s.Depth(), WithoutPeeks(ops))
    ensures StackRun(s, WithoutPeeks(ops)) == StackRun(s, ops)
    decreases |ops|
  {
    if ops != [] {
      DepthAfter(s, ops[0]);
      WithoutPeeksSameStack(StackStep(s, ops[0]), ops[1..]);
      assert ([ops[0]] + WithoutPeeks(ops[1..]))[1..] == WithoutPeeks(ops[1..]);
    }
  }

  /** Peeks ask for no room, so they do not move the peak. */
  lemma {:induction false} WithoutPeeksSamePeak(length: nat, depth: nat, ops: seq<Op>)
    ensures Peak(length, depth, WithoutPeeks(ops)) == Peak(length, depth, ops)
    decreases |ops|
  {
    if ops != [] {
      var rest := WithoutPeeks(ops[1..]);
      assert ([ops[0]] + rest)[1..] == rest;
      WithoutPeeksSamePeak(NextLength(length, ops[0]), NextDepth(depth, ops[0]), ops[1..]);
    }
  }

  /**
    Peeking is transparent: with the peeks taken out, a run throws in the same
    cases and the finished object has the same bytes.
   */
  lemma PeekIsTransparent(m: Machine, ops: seq<Op>)
    requires FreshRoot(m) && WellBracketed(1, ops)
    requires StackRun(Root([]), ops).Root?
    ensures WellBracketed(1, WithoutPeeks(ops))
    ensures Run(m, ops).Some? <==> Run(m, WithoutPeeks(ops)).Some?
    ensures Run(m, ops).Some? ==>
              var a := Run(m, ops).value;
              var b := Run(m, WithoutPeeks(ops)).value;
              Steady(a) && Steady(b) && a.offsets == b.offsets == [HOLDER_SIZE]
              && Close(a.b, HOLDER_SIZE).bytes[HOLDER_SIZE..] == Close(b.b, HOLDER_SIZE).bytes[HOLDER_SIZE..]
  {
    var pre := m.b.bytes[..HOLDER_SIZE];
    FreshRootInv(m);
    WithoutPeeksSameStack(Root([]), ops);
    WithoutPeeksSamePeak(|m.b.bytes|, m.b.reserved, ops);
    RunThrowsIff(pre, Root([]), m, ops);
    RunThrowsIff(pre, Root([]), m, WithoutPeeks(ops));
    if Run(m, ops).Some? {
      RunBuildsDocument(m, ops);
      RunBuildsDocument(m, WithoutPeeks(ops));
    }
  }

  // ------------------------------------------------------------------------ scripts

  type PlainValue = v: Value | !v.Undefined? && !v.RegEx? witness Null

  /**
    A program that writes nested documents, block structured as its C++ scopes are.
    Names and patterns are any bytes; only appendUndefined takes its name unchecked.
   */
  datatype Action =
    | Write(name: ByteSeq, v: PlainValue)
    | WriteUndefined(ident: CStr)
    | WriteRegex(name: ByteSeq, pattern: ByteSeq, options: CStr)
    | Nest(isArray: bool, name: ByteSeq, slot: ByteSeq, body: seq<Action>)
    | Look

  /** No call is refused for a NUL in its name or its pattern. */
  predicate Clean(script: seq<Action>)
    decreases script, 1
  {
    script != [] ==> ActionClean(script[0]) && Clean(script[1..])
  }

  predicate ActionClean(a: Action)
    decreases a, 0
  {
    match a
    case Write(name, _) => 0 !in name
    case WriteRegex(name, pattern, _) => 0 !in name && 0 !in pattern
    case Nest(_, name, _, body) => 0 !in name && Clean(body)
    case _ => true
  }

  /** The calls it makes, in order. A call that is refused writes nothing and is passed over. */
  function Calls(script: seq<Action>): seq<Op>
    decreases script, 1
  {
    if script == [] then [] else ActionCalls(script[0]) + Calls(script[1..])
  }

  function ActionCalls(a: Action): seq<Op>
    decreases a, 0
  {
    match a
    case Write(name, v) => if 0 in name then [] else [Put(name, v)]
    case WriteUndefined(name) => [Put(name, Undefined)]
    case WriteRegex(name, pattern, options) =>
      if 0 in name || 0 in pattern then [] else [Put(name, RegEx(pattern, options))]
    case Nest(isArray, name, slot, body) =>
      if 0 in name then [] else [Begin(isArray, name, slot)] + Calls(body) + [End]
    case Look => [Peek]
  }

  /** The document it stands for. */
  function Meaning(script: seq<Action>): Doc
    decreases script, 1
  {
    if script == [] then [] else ActionMeaning(script[0]) + Meaning(script[1..])
  }

  function ActionMeaning(a: Action): Doc
    decreases a, 0
  {
    match a
    case Write(name, v) => if 0 in name then [] else [Element(name, v)]
    case WriteUndefined(name) => [Element(name, Undefined)]
    case WriteRegex(name, pattern, options) =>
      if 0 in name || 0 in pattern then [] else [Element(name, RegEx(pattern, options))]
    case Nest(isArray, name, _, body) =>
      if 0 in name then [] else [Element(name, SubValue(isArray, Meaning(body)))]
    case Look => []
  }

  predicate SlotsOk(script: seq<Action>)
  {
    script != [] ==>
      && (script[0].Nest? ==> |script[0].slot| == 4 && SlotsOk(script[0].body))
      && SlotsOk(script[1..])
  }

  lemma {:induction false} RunInTwo(s: Stack, a: seq<Op>, b: seq<Op>)
    requires WellBracketed(s.Depth(), a)
    requires WellBracketed(StackRun(s, a).Depth(), b)
    ensures WellBracketed(s.Depth(), a + b)
    ensures StackRun(s, a + b) == StackRun(StackRun(s, a), b)
    decreases |a|
  {
    if a == [] {
      assert a + b == b;
    } else {
      DepthAfter(s, a[0]);
      assert (a + b)[1..] == a[1..] + b;
      RunInTwo(StackStep(s, a[0]), a[1..], b);
    }
  }

  lemma RunOne(s: Stack, op: Op)
    requires op.End? ==> s.Depth() > 1
    requires op.Begin? ==> |op.slot| == 4
    ensures WellBracketed(s.Depth(), [op]) && StackRun(s, [op]) == StackStep(s, op)
  {
    DepthAfter(s, op);
    assert [op][1..] == [];
  }

  function Extend(s: Stack, d: Doc): Stack
  {
    s.(elems := s.elems + d)
  }

  /** A script's calls are well bracketed and append its meaning to the innermost document. */
  lemma {:induction false} ScriptMeans(s: Stack, script: seq<Action>)
    requires SlotsOk(script)
    ensures WellBracketed(s.Depth(), Calls(script))
    ensures StackRun(s, Calls(script)) == Extend(s, Meaning(script))
    decreases script
  {
    if script == [] {
      assert Extend(s, []) == s;
    } else {
      var first := ActionCalls(script[0]);
      ActionMeans(s, script[0]);
      var t := Extend(s, ActionMeaning(script[0]));
      ScriptMeans(t, script[1..]);
      RunInTwo(s, first, Calls(script[1..]));
      Associative(s.elems, ActionMeaning(script[0]), Meaning(script[1..]));
    }
  }

  lemma {:induction false} ActionMeans(s: Stack, a: Action)
    requires a.Nest? ==> |a.slot| == 4 && SlotsOk(a.body)
    ensures WellBracketed(s.Depth(), ActionCalls(a))
    ensures StackRun(s, ActionCalls(a)) == Extend(s, ActionMeaning(a))
    decreases a
  {
    if ActionCalls(a) == [] {
      assert Extend(s, []) == s;
    } else {
      match a
      case Write(name, v) => RunOne(s, Put(name, v));
      case WriteUndefined(name) => RunOne(s, Put(name, Undefined));
      case WriteRegex(name, pattern, options) => RunOne(s, Put(name, RegEx(pattern, options)));
      case Look => RunOne(s, Peek); assert Extend(s, []) == s;
      case Nest(isArray, name, slot, body) =>
        ScriptMeans(Sub(s, isArray, name, []), body);
        NestMeans(s, isArray, name, slot, Calls(body), Meaning(body));
    }
  }

  lemma NestMeans(s: Stack, isArray: bool, name: CStr, slot: ByteSeq, calls: seq<Op>, d: Doc)
    requires |slot| == 4
    requires var sub := Sub(s, isArray, name, []);
             WellBracketed(sub.Depth(), calls) && StackRun(sub, calls) == Extend(sub, d)
    ensures var ops := [Begin(isArray, name, slot)] + calls + [End];
            && WellBracketed(s.Depth(), ops)
            && StackRun(s, ops) == Extend(s, [Element(name, SubValue(isArray, d))])
  {
    var begin := Begin(isArray, name, slot);
    RunOne(s, begin);
    RunInTwo(s, [begin], calls);
    assert Extend(Sub(s, isArray, name, []), d) == Sub(s, isArray, name, d);
    RunOne(Sub(s, isArray, name, d), End);
    RunInTwo(s, [begin] + calls, [End]);
  }

  /**
    The writer refines the encoder: for every block-structured program over one
    shared buffer, unless it passes the limit, the finished object is the encoding of
    the document the program stands for.
   */
  lemma WriterRefinesEncoder(m: Machine, script: seq<Action>)
    requires FreshRoot(m) && SlotsOk(script)
    requires Run(m, Calls(script)).Some?
    ensures var n := Run(m, Calls(script)).value;
            && Steady(n) && n.offsets == [HOLDER_SIZE]
            && Close(n.b, HOLDER_SIZE).bytes[HOLDER_SIZE..] == EncodeDoc(Meaning(script))
  {
    ScriptMeans(Root([]), script);
    assert Extend(Root([]), Meaning(script)) == Root(Meaning(script));
    RunBuildsDocument(m, Calls(script));
  }
}
