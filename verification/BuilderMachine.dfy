/**
  Nested builders over one shared buffer (mongo/bson/bsonobjbuilder.h), as a
  state machine: every append, opening and closing of a sub-builder, and peek is
  a step. The bytes in the buffer are shown to describe, after every step of
  every run, the stack of documents under construction; a closed document is
  exactly its recursive encoding.
 */
module BuilderMachine {
  import opened Bytes
  import opened Bson
  import opened BufferState

  // ------------------------------------------------------- writes of one append

  function HeaderChunks(tag: Byte, name: ByteSeq): seq<ByteSeq>
  {
    [[tag], name + [0]]
  }

  function TextChunks(text: ByteSeq): seq<ByteSeq>
  {
    [LE(4, |text| + 1), text + [0]]
  }

  /** The writes that follow the header, one per call on the buffer. */
  function ValueChunks(v: Value): seq<ByteSeq>
  {
    match v
    case MinKey | MaxKey | Undefined | Null => []
    case Str(text) => TextChunks(text)
    case Code(code) => TextChunks(code)
    case Symbol(symbol) => TextChunks(symbol)
    case BinData(subtype, data) => [LE(4, |data|), [subtype], data]
    case RegEx(pattern, options) => [pattern + [0], options + [0]]
    case DBRef(ns, ref) => TextChunks(ns) + [ref]
    case CodeWScope(code, scope) =>
      [LE(4, 4 + |EncodeText(code)| + |EncodeDoc(scope)|)] + TextChunks(code) + [EncodeDoc(scope)]
    case _ => [EncodeValue(v)]
  }

  function Chunks(name: ByteSeq, v: Value): seq<ByteSeq>
  {
    HeaderChunks(Tag(v), name) + ValueChunks(v)
  }

  lemma FlattenTwo(a: ByteSeq, b: ByteSeq)
    ensures Flatten([a, b]) == a + b
  {
    FlattenOne(a);
    FlattenOne(b);
    FlattenAppend([a], [b]);
    assert [a, b] == [a] + [b];
  }

  lemma FlattenText(text: ByteSeq)
    ensures Flatten(TextChunks(text)) == EncodeText(text)
  {
    FlattenTwo(LE(4, |text| + 1), text + [0]);
  }

  lemma FlattenHeader(tag: Byte, name: ByteSeq)
    ensures Flatten(HeaderChunks(tag, name)) == Header(tag, name)
  {
    FlattenTwo([tag], name + [0]);
  }

  lemma FlattenThree(a: ByteSeq, b: ByteSeq, c: ByteSeq)
    ensures Flatten([a, b, c]) == a + b + c
  {
    FlattenTwo(a, b);
    FlattenOne(c);
    FlattenAppend([a, b], [c]);
    assert [a, b, c] == [a, b] + [c];
  }

  lemma FlattenScoped(total: ByteSeq, code: ByteSeq, scope: ByteSeq)
    ensures Flatten([total] + TextChunks(code) + [scope]) == total + EncodeText(code) + scope
  {
    FlattenOne(total);
    FlattenText(code);
    FlattenOne(scope);
    FlattenAppend([total], TextChunks(code));
    FlattenAppend([total] + TextChunks(code), [scope]);
  }

  lemma FlattenTextValue(v: Value)
    requires v.Str? || v.Code? || v.Symbol? || v.DBRef?
    ensures Flatten(ValueChunks(v)) == EncodeValue(v)
  {
    match v
    case Str(text) => FlattenText(text);
    case Code(code) => FlattenText(code);
    case Symbol(symbol) => FlattenText(symbol);
    case DBRef(ns, ref) => FlattenText(ns); FlattenOne(ref); FlattenAppend(TextChunks(ns), [ref]);
  }

  lemma FlattenValue(v: Value)
    ensures Flatten(ValueChunks(v)) == EncodeValue(v)
  {
    match v
    case MinKey | MaxKey | Undefined | Null =>
    case Str(_) | Code(_) | Symbol(_) | DBRef(_, _) => FlattenTextValue(v);
    case BinData(subtype, data) => FlattenThree(LE(4, |data|), [subtype], data);
    case RegEx(pattern, options) => FlattenRegEx(pattern, options);
    case CodeWScope(code, scope) =>
      FlattenScoped(LE(4, 4 + |EncodeText(code)| + |EncodeDoc(scope)|), code, EncodeDoc(scope));
    case _ => FlattenOne(EncodeValue(v));
  }

  lemma FlattenRegEx(pattern: CStr, options: CStr)
    ensures Flatten([pattern + [0], options + [0]]) == pattern + [0] + options + [0]
  {
    FlattenTwo(pattern + [0], options + [0]);
    Associative(pattern + [0], options, [0]);
  }

  /** Together the writes of an append are the encoding of the element. */
  lemma FlattenChunks(name: CStr, v: Value)
    ensures Flatten(Chunks(name, v)) == EncodeElement(Element(name, v))
  {
    FlattenHeader(Tag(v), name);
    FlattenValue(v);
    FlattenAppend(HeaderChunks(Tag(v), name), ValueChunks(v));
  }

  // ------------------------------------------------------------ builder actions

  /** _done(): claim the reserved byte, write EOO into it, fill in the length. */
  function Close(b: Buffer, offset: nat): (r: Buffer)
    requires b.reserved >= 1 && offset + 4 <= |b.bytes|
  {
    var bytes := b.bytes + [EOO];
    Claim(b, 1).(bytes := Patch(bytes, offset, LE(4, |bytes| - offset)))
  }

  /** asTempObj() after _done(): drop the EOO and reserve its byte again. */
  function Reopen(b: Buffer): (r: Buffer)
    requires b.bytes != []
  {
    b.(bytes := b.bytes[..|b.bytes| - 1], reserved := b.reserved + 1)
  }

  /** subobjStart or subarrayStart, then the sub-builder's constructor; `slot` is what skip() left. */
  function BeginSub(b: Buffer, tag: Byte, name: ByteSeq, slot: ByteSeq): Option<Buffer>
  {
    var (g, ok) := AppendAll(b, HeaderChunks(tag, name) + [slot]);
    if ok then Reserve(g, 1) else None
  }

  // ---------------------------------------------------------------- the machine

  /** The buffer and the offsets of the open builders, innermost first. */
  datatype Machine = Machine(b: Buffer, offsets: seq<nat>)

  datatype Op =
    | Put(name: CStr, v: Value)
    | Begin(isArray: bool, name: CStr, slot: ByteSeq)
    | End
    | Peek

  function SubTag(isArray: bool): Byte
  {
    if isArray then ARRAY else OBJECT
  }

  function SubValue(isArray: bool, d: Doc): Value
  {
    if isArray then Array(d) else Object(d)
  }

  /** Objects are of type 3, arrays of type 4. */
  lemma SubKinds(d: Doc)
    ensures SubTag(false) == 3 && SubValue(false, d) == Object(d)
    ensures SubTag(true) == 4 && SubValue(true, d) == Array(d)
  {
  }

  /** Last opened, first closed; the root builder stays open. */
  predicate WellBracketed(depth: nat, ops: seq<Op>)
    decreases |ops|
  {
    depth > 0
    && (ops != [] ==>
          match ops[0]
          case Put(_, _) | Peek => WellBracketed(depth, ops[1..])
          case Begin(_, _, slot) => |slot| == 4 && WellBracketed(depth + 1, ops[1..])
          case End => depth > 1 && WellBracketed(depth - 1, ops[1..]))
  }

  /** What the calls below may rely on: an innermost builder with its reserved byte. */
  predicate Steady(m: Machine)
  {
    && m.b.Valid()
    && m.offsets != [] && m.b.reserved == |m.offsets|
    && m.offsets[0] + 4 <= |m.b.bytes|
  }

  /** One call on the innermost builder; None when it throws. */
  function Step(m: Machine, op: Op): Option<Machine>
    requires Steady(m)
  {
    match op
    case Put(name, v) =>
      var (g, ok) := AppendAll(m.b, Chunks(name, v));
      if ok then Some(m.(b := g)) else None
    case Begin(isArray, name, slot) =>
      (match BeginSub(m.b, SubTag(isArray), name, slot)
       case None => None
       case Some(g) => Some(Machine(g, [|m.b.bytes| + |Header(SubTag(isArray), name)|] + m.offsets)))
    case End => Some(Machine(Close(m.b, m.offsets[0]), m.offsets[1..]))
    case Peek => Some(m.(b := Reopen(Close(m.b, m.offsets[0]))))
  }

  // ------------------------------------------------- the documents being built

  /** The documents under construction: a root, and the chain of open sub-documents. */
  datatype Stack =
    | Root(elems: Doc)
    | Sub(parent: Stack, isArray: bool, name: CStr, elems: Doc)
  {
    function Depth(): (n: nat)
      ensures n > 0
    {
      match this
      case Root(_) => 1
      case Sub(p, _, _, _) => p.Depth() + 1
    }

    function Add(e: Element): Stack
    {
      this.(elems := elems + [e])
    }
  }

  function StackStep(s: Stack, op: Op): Stack
    requires op.End? ==> s.Sub?
  {
    match op
    case Put(name, v) => s.Add(Element(name, v))
    case Begin(isArray, name, _) => Sub(s, isArray, name, [])
    case End => s.parent.Add(Element(s.name, SubValue(s.isArray, s.elems)))
    case Peek => s
  }

  /**
    The bytes describe the stack: each open document is its parent's bytes, a
    header, a length yet to be filled in, and the elements appended so far.
   */
  ghost predicate Describes(pre: ByteSeq, s: Stack, bytes: ByteSeq, offsets: seq<nat>)
    decreases s
  {
    match s
    case Root(elems) =>
      && offsets == [|pre|]
      && |pre| + 4 <= |bytes|
      && bytes[..|pre|] == pre
      && bytes[|pre| + 4..] == EncodeElements(elems)
    case Sub(parent, isArray, name, elems) =>
      && |offsets| > 1
      && |name| + 2 <= offsets[0] <= |bytes| - 4
      && var start := offsets[0] - |name| - 2;
      && bytes[start..offsets[0]] == Header(SubTag(isArray), name)
      && bytes[offsets[0] + 4..] == EncodeElements(elems)
      && Describes(pre, parent, bytes[..start], offsets[1..])
  }

  ghost predicate Inv(pre: ByteSeq, s: Stack, m: Machine)
  {
    && m.b.Valid()
    && m.b.reserved == s.Depth()
    && Describes(pre, s, m.b.bytes, m.offsets)
  }

  lemma {:induction false} DescribesOffsets(pre: ByteSeq, s: Stack, bytes: ByteSeq, offsets: seq<nat>)
    requires Describes(pre, s, bytes, offsets)
    ensures |offsets| == s.Depth() && offsets[0] + 4 <= |bytes|
    decreases s
  {
    if s.Sub? {
      DescribesOffsets(pre, s.parent, bytes[..offsets[0] - |s.name| - 2], offsets[1..]);
    }
  }

  lemma InvIsSteady(pre: ByteSeq, s: Stack, m: Machine)
    requires Inv(pre, s, m)
    ensures Steady(m)
  {
    DescribesOffsets(pre, s, m.b.bytes, m.offsets);
  }

  lemma BodyAdd(bytes: ByteSeq, at: nat, elems: Doc, e: Element)
    requires at <= |bytes| && bytes[at..] == EncodeElements(elems)
    ensures (bytes + EncodeElement(e))[at..] == EncodeElements(elems + [e])
  {
    EncodeElementsSnoc(elems, e);
    Slices(bytes, EncodeElement(e), at, at);
  }

  /** Appending an element's bytes appends the element to the innermost document. */
  lemma DescribesAdd(pre: ByteSeq, s: Stack, bytes: ByteSeq, offsets: seq<nat>, e: Element)
    requires Describes(pre, s, bytes, offsets)
    ensures Describes(pre, s.Add(e), bytes + EncodeElement(e), offsets)
  {
    match s
    case Root(elems) => RootAdd(pre, elems, bytes, offsets, e);
    case Sub(_, _, _, _) => SubAdd(pre, s, bytes, offsets, e);
  }

  lemma RootAdd(pre: ByteSeq, elems: Doc, bytes: ByteSeq, offsets: seq<nat>, e: Element)
    requires Describes(pre, Root(elems), bytes, offsets)
    ensures Describes(pre, Root(elems + [e]), bytes + EncodeElement(e), offsets)
  {
    BodyAdd(bytes, |pre| + 4, elems, e);
    Slices(bytes, EncodeElement(e), |pre|, |pre|);
  }

  lemma SubAdd(pre: ByteSeq, s: Stack, bytes: ByteSeq, offsets: seq<nat>, e: Element)
    requires s.Sub? && Describes(pre, s, bytes, offsets)
    ensures Describes(pre, s.(elems := s.elems + [e]), bytes + EncodeElement(e), offsets)
  {
    BodyAdd(bytes, offsets[0] + 4, s.elems, e);
    Slices(bytes, EncodeElement(e), offsets[0] - |s.name| - 2, offsets[0]);
  }

  /** Slices of a sequence survive an append. */
  lemma Slices(a: ByteSeq, b: ByteSeq, i: nat, j: nat)
    requires i <= j <= |a|
    ensures (a + b)[..i] == a[..i] && (a + b)[i..j] == a[i..j] && (a + b)[j..] == a[j..] + b
  {
  }

  lemma Parts(a: ByteSeq, b: ByteSeq, c: ByteSeq)
    ensures (a + b + c)[..|a|] == a && (a + b + c)[|a|..|a| + |b|] == b && (a + b + c)[|a| + |b|..] == c
  {
  }

  /** Opening a sub-builder opens an empty document inside the innermost one. */
  lemma DescribesBegin(pre: ByteSeq, s: Stack, bytes: ByteSeq, offsets: seq<nat>, isArray: bool, name: CStr, slot: ByteSeq)
    requires Describes(pre, s, bytes, offsets) && offsets != []
    requires |slot| == 4
    ensures var header := Header(SubTag(isArray), name);
            Describes(pre, Sub(s, isArray, name, []), bytes + header + slot, [|bytes| + |header|] + offsets)
  {
    var header := Header(SubTag(isArray), name);
    SubDescribes(pre, Sub(s, isArray, name, []), bytes, header, slot, [], offsets);
    assert bytes + header + slot + [] == bytes + header + slot;
  }

  /** The parts of a sub-document, put together. */
  lemma SubDescribes(pre: ByteSeq, s: Stack, outer: ByteSeq, header: ByteSeq, slot: ByteSeq, body: ByteSeq,
                     offsets: seq<nat>)
    requires s.Sub? && offsets != [] && Describes(pre, s.parent, outer, offsets)
    requires header == Header(SubTag(s.isArray), s.name)
    requires |slot| == 4 && body == EncodeElements(s.elems)
    ensures Describes(pre, s, outer + header + slot + body, [|outer| + |header|] + offsets)
  {
    var bytes := outer + header + slot + body;
    var offset := |outer| + |header|;
    var inner := [offset] + offsets;
    assert inner[1..] == offsets && |inner| > 1;
    Parts(outer + header, slot, body);
    Parts(outer, header, slot + body);
    assert bytes == outer + header + (slot + body);
    assert bytes[offset + 4..] == body;
    assert offset - |s.name| - 2 == |outer|;
  }

  /** Filling in a length changes nothing the description speaks about. */
  lemma DescribesPatch(pre: ByteSeq, s: Stack, bytes: ByteSeq, offsets: seq<nat>, slot: ByteSeq)
    requires Describes(pre, s, bytes, offsets)
    requires |slot| == 4 && offsets[0] + 4 <= |bytes|
    ensures Describes(pre, s, Patch(bytes, offsets[0], slot), offsets)
  {
    var patched := Patch(bytes, offsets[0], slot);
    assert patched[offsets[0] + 4..] == bytes[offsets[0] + 4..];
    assert patched[..offsets[0]] == bytes[..offsets[0]];
    match s
    case Root(_) =>
    case Sub(_, _, _, _) =>
      var start := offsets[0] - |s.name| - 2;
      assert patched[start..offsets[0]] == patched[..offsets[0]][start..] == bytes[start..offsets[0]];
      assert patched[..start] == patched[..offsets[0]][..start] == bytes[..start];
  }

  /** A closed builder leaves, from its offset on, exactly the encoding of its document. */
  lemma CloseIsEncoding(b: Buffer, offset: nat, elems: Doc)
    requires b.reserved >= 1 && offset + 4 <= |b.bytes|
    requires b.bytes[offset + 4..] == EncodeElements(elems)
    ensures Close(b, offset).bytes == b.bytes[..offset] + EncodeDoc(elems)
  {
    var body := EncodeElements(elems);
    var bytes := b.bytes + [EOO];
    assert bytes[offset + 4..] == body + [EOO];
    assert bytes[..offset] == b.bytes[..offset];
    var len := LE(4, |body| + 5);
    Associative(len, body, [EOO]);
    Associative(b.bytes[..offset], len, body + [EOO]);
  }

  /** Closing a sub-builder turns it into one element of its parent. */
  lemma DescribesEnd(pre: ByteSeq, s: Stack, b: Buffer, offsets: seq<nat>)
    requires s.Sub? && b.reserved >= 1
    requires Describes(pre, s, b.bytes, offsets)
    ensures offsets[0] + 4 <= |b.bytes|
         && Describes(pre, StackStep(s, End), Close(b, offsets[0]).bytes, offsets[1..])
  {
    EndInParent(pre, s.parent, b, offsets[0], s.isArray, s.name, s.elems, offsets[1..]);
  }

  lemma EndInParent(pre: ByteSeq, parent: Stack, b: Buffer, offset: nat,
                    isArray: bool, name: CStr, elems: Doc, offsets: seq<nat>)
    requires b.reserved >= 1 && |name| + 2 <= offset && offset + 4 <= |b.bytes|
    requires b.bytes[offset - |name| - 2..offset] == Header(SubTag(isArray), name)
    requires b.bytes[offset + 4..] == EncodeElements(elems)
    requires Describes(pre, parent, b.bytes[..offset - |name| - 2], offsets)
    ensures Describes(pre, parent.Add(Element(name, SubValue(isArray, elems))), Close(b, offset).bytes, offsets)
  {
    var e := Element(name, SubValue(isArray, elems));
    CloseIsElement(b, offset, isArray, name, elems);
    DescribesAdd(pre, parent, b.bytes[..offset - |name| - 2], offsets, e);
  }

  lemma CloseIsElement(b: Buffer, offset: nat, isArray: bool, name: CStr, elems: Doc)
    requires b.reserved >= 1 && |name| + 2 <= offset && offset + 4 <= |b.bytes|
    requires b.bytes[offset - |name| - 2..offset] == Header(SubTag(isArray), name)
    requires b.bytes[offset + 4..] == EncodeElements(elems)
    ensures Close(b, offset).bytes
         == b.bytes[..offset - |name| - 2] + EncodeElement(Element(name, SubValue(isArray, elems)))
  {
    CloseIsEncoding(b, offset, elems);
    var start := offset - |name| - 2;
    var header := Header(SubTag(isArray), name);
    assert b.bytes[..offset] == b.bytes[..start] + header;
    Associative(b.bytes[..start], header, EncodeDoc(elems));
    assert EncodeValue(SubValue(isArray, elems)) == EncodeDoc(elems);
  }

  /** Peeking only fills in the innermost length. */
  lemma PeekIsPatch(b: Buffer, offset: nat)
    requires b.reserved >= 1 && offset + 4 <= |b.bytes|
    ensures Reopen(Close(b, offset)) == b.(bytes := Patch(b.bytes, offset, LE(4, |b.bytes| + 1 - offset)))
  {
    var slot := LE(4, |b.bytes| + 1 - offset);
    var closed := Patch(b.bytes + [EOO], offset, slot);
    assert closed[..|b.bytes|] == Patch(b.bytes, offset, slot);
  }

  // ---------------------------------------------------------------------- steps

  /** The length of the buffer after a step. */
  function NextLength(length: nat, op: Op): nat
  {
    match op
    case Put(name, v) => length + |EncodeElement(Element(name, v))|
    case Begin(isArray, name, slot) => length + |Header(SubTag(isArray), name)| + |slot|
    case End => length + 1
    case Peek => length
  }

  /** The number of open builders after a step. */
  function NextDepth(depth: nat, op: Op): nat
  {
    match op
    case Put(_, _) | Peek => depth
    case Begin(_, _, _) => depth + 1
    case End => if depth > 0 then depth - 1 else 0
  }

  lemma BeginWorks(b: Buffer, tag: Byte, name: ByteSeq, slot: ByteSeq)
    requires b.Valid()
    ensures var r := BeginSub(b, tag, name, slot);
            && (r.Some? <==> |b.bytes| + |Header(tag, name)| + |slot| + b.reserved + 1 <= Limit(b))
            && (r.Some? ==>
                  r.value.Valid() && r.value.bytes == b.bytes + Header(tag, name) + slot
                  && r.value.reserved == b.reserved + 1 && Limit(r.value) == Limit(b))
  {
    var chunks := HeaderChunks(tag, name) + [slot];
    FlattenHeader(tag, name);
    FlattenOne(slot);
    FlattenAppend(HeaderChunks(tag, name), [slot]);
    AppendAllWorks(b, chunks);
    Associative(b.bytes, Header(tag, name), slot);
    var (g, ok) := AppendAll(b, chunks);
    if ok {
      EnsureWorks(g, |g.bytes| + g.reserved + 1);
    }
  }

  lemma PutKeepsInv(pre: ByteSeq, s: Stack, m: Machine, name: CStr, v: Value)
    requires Inv(pre, s, m) && Steady(m)
    ensures StepWorks(pre, s, m, Put(name, v))
  {
    var e := Element(name, v);
    AppendAllWorks(m.b, Chunks(name, v));
    FlattenChunks(name, v);
    DescribesAdd(pre, s, m.b.bytes, m.offsets, e);
    assert s.Add(e).Depth() == s.Depth();
  }

  lemma BeginKeepsInv(pre: ByteSeq, s: Stack, m: Machine, isArray: bool, name: CStr, slot: ByteSeq)
    requires Inv(pre, s, m) && Steady(m)
    requires |slot| == 4
    ensures StepWorks(pre, s, m, Begin(isArray, name, slot))
  {
    BeginWorks(m.b, SubTag(isArray), name, slot);
    DescribesOffsets(pre, s, m.b.bytes, m.offsets);
    DescribesBegin(pre, s, m.b.bytes, m.offsets, isArray, name, slot);
  }

  lemma EndKeepsInv(pre: ByteSeq, s: Stack, m: Machine)
    requires Inv(pre, s, m) && Steady(m) && s.Sub?
    ensures StepWorks(pre, s, m, End)
  {
    DescribesEnd(pre, s, m.b, m.offsets);
    var e := Element(s.name, SubValue(s.isArray, s.elems));
    assert s.parent.Add(e).Depth() == s.parent.Depth();
  }

  lemma PeekKeepsInv(pre: ByteSeq, s: Stack, m: Machine)
    requires Inv(pre, s, m) && Steady(m)
    ensures StepWorks(pre, s, m, Peek)
  {
    PeekIsPatch(m.b, m.offsets[0]);
    DescribesPatch(pre, s, m.b.bytes, m.offsets, LE(4, |m.b.bytes| + 1 - m.offsets[0]));
  }

  /**
    What every step does: it throws exactly when the bytes and reservations it leads
    to pass the limit, and otherwise keeps the invariant, for the documents the
    stack step gives. Closing and peeking never throw, grow or copy.
   */
  ghost predicate StepWorks(pre: ByteSeq, s: Stack, m: Machine, op: Op)
    requires Steady(m)
    requires op.End? ==> s.Sub?
  {
    var length := NextLength(|m.b.bytes|, op);
    var depth := NextDepth(m.b.reserved, op);
    && (Step(m, op).Some? <==> length + depth <= Limit(m.b))
    && (Step(m, op).Some? ==>
          var n := Step(m, op).value;
          Inv(pre, StackStep(s, op), n) && Limit(n.b) == Limit(m.b) && |n.b.bytes| == length && n.b.reserved == depth)
    && (op.End? || op.Peek? ==>
          Step(m, op).Some? && Step(m, op).value.b.size == m.b.size && Step(m, op).value.b.copied == m.b.copied)
  }

  lemma StepKeepsInv(pre: ByteSeq, s: Stack, m: Machine, op: Op)
    requires Inv(pre, s, m)
    requires op.End? ==> s.Sub?
    requires op.Begin? ==> |op.slot| == 4
    ensures Steady(m) && StepWorks(pre, s, m, op)
  {
    InvIsSteady(pre, s, m);
    match op
    case Put(name, v) => PutKeepsInv(pre, s, m, name, v);
    case Begin(isArray, name, slot) => BeginKeepsInv(pre, s, m, isArray, name, slot);
    case End => EndKeepsInv(pre, s, m);
    case Peek => PeekKeepsInv(pre, s, m);
  }
}
