/**
  Programs run on the builder objects themselves (mongo/bson/bsonobjbuilder.h): nested
  sub-builders over one buffer, opened and closed as C++ scopes do.
 */
module ScriptWriters {
  import opened Bytes
  import opened Bson
  import BsonFormat
  import opened BsonReader
  import opened BufferState
  import opened BufBuilders
  import opened BuilderMachine
  import opened BuilderRuns
  import opened ObjBuilders

  /** `sub` is the innermost builder, and the shared buffer describes the open documents. */
  ghost predicate Describing(sub: ObjBuilder, pre: ByteSeq, s: Stack, offsets: seq<nat>)
    reads sub, sub.b, sub.b.data
  {
    && sub.Valid() && !sub.doneCalled
    && offsets != [] && sub.offset == offsets[0]
    && Inv(pre, s, Machine(sub.b.State(), offsets))
  }

  /**
    What an exception leaves of the innermost builder: it is open still, and so is
    every builder around it, each with its terminator's byte reserved.
   */
  ghost predicate Standing(sub: ObjBuilder, offsets: seq<nat>)
    reads sub, sub.b, sub.b.data
  {
    && sub.Valid() && !sub.doneCalled
    && offsets != [] && sub.offset == offsets[0]
    && AllOpen(sub.b.State(), offsets)
  }

  /** The room the buffer needs once `d` is written too. */
  ghost function Need(b: BufBuilder, d: Doc): int
    reads b
  {
    |b.bytes| + |EncodeElements(d)| + b.reservedBytes
  }

  /** What writing `d` leaves: the document longer by `d`, nothing else reserved, the same limit. */
  twostate predicate Wrote(sub: ObjBuilder, pre: ByteSeq, s: Stack, offsets: seq<nat>, d: Doc)
    requires old(sub.b.Valid())
    reads sub, sub.b, sub.b.data
  {
    && Describing(sub, pre, Extend(s, d), offsets)
    && |sub.b.bytes| == old(|sub.b.bytes|) + |EncodeElements(d)|
    && sub.b.reservedBytes == old(sub.b.reservedBytes)
    && Limit(sub.b.State()) == old(Limit(sub.b.State()))
  }

  /** Any append but that of a regular expression; a name with a NUL is refused. */
  method Put(sub: ObjBuilder, name: ByteSeq, v: Value, ghost pre: ByteSeq, ghost s: Stack, ghost offsets: seq<nat>)
    returns (ok: bool)
    requires Describing(sub, pre, s, offsets)
    requires 0 !in name ==> Need(sub.b, [Element(name, v)]) <= MAX_REQUEST
    requires v.Undefined? ==> 0 !in name
    modifies sub.b, sub.b.data
    ensures sub.b.data == old(sub.b.data) || fresh(sub.b.data)
    ensures ok <==> 0 !in name && old(Need(sub.b, [Element(name, v)]) <= Limit(sub.b.State()))
    ensures ok ==> Wrote(sub, pre, s, offsets, [Element(name, v)])
    ensures !ok ==> Standing(sub, offsets)
  {
    ghost var m := Machine(sub.b.State(), offsets);
    PutSteps(pre, s, m, name, v);
    var st := sub.Append(name, v);
    ok := st == Ok;
  }

  /** The same for a regular expression, whose pattern is checked, too. */
  method PutRegex(sub: ObjBuilder, name: ByteSeq, pattern: ByteSeq, options: CStr,
                  ghost pre: ByteSeq, ghost s: Stack, ghost offsets: seq<nat>) returns (ok: bool)
    requires Describing(sub, pre, s, offsets)
    requires 0 !in name && 0 !in pattern ==> Need(sub.b, [Element(name, RegEx(pattern, options))]) <= MAX_REQUEST
    modifies sub.b, sub.b.data
    ensures sub.b.data == old(sub.b.data) || fresh(sub.b.data)
    ensures ok <==> && 0 !in name && 0 !in pattern
                    && old(Need(sub.b, [Element(name, RegEx(pattern, options))]) <= Limit(sub.b.State()))
    ensures ok ==> Wrote(sub, pre, s, offsets, [Element(name, RegEx(pattern, options))])
    ensures !ok ==> Standing(sub, offsets)
  {
    ghost var m := Machine(sub.b.State(), offsets);
    PutSteps(pre, s, m, name, RegEx(if 0 in pattern then [] else pattern, options));
    var st := sub.AppendRegex(name, pattern, options);
    ok := st == Ok;
  }

  /** What the machine says about an append whose name is clean, and what stays open if it throws. */
  lemma PutSteps(pre: ByteSeq, s: Stack, m: Machine, name: ByteSeq, v: Value)
    requires Inv(pre, s, m)
    ensures Steady(m) && AllOpen(m.b, m.offsets)
    ensures 0 !in name ==>
              && StepWorks(pre, s, m, Op.Put(name, v)) && AllOpen(Thrown(m, Op.Put(name, v)).b, m.offsets)
              && EncodeElements([Element(name, v)]) == EncodeElement(Element(name, v))
  {
    InvIsSteady(pre, s, m);
    DescribedIsOpen(pre, s, m.b.bytes, m.offsets);
    if 0 !in name {
      EncodeElementsOne(Element(name, v));
      StepKeepsInv(pre, s, m, Op.Put(name, v));
      ThrownIsOpen(m, Op.Put(name, v));
    }
  }

  lemma ExtendNone(s: Stack)
    ensures Extend(s, []) == s
  {
    assert s.elems + [] == s.elems;
  }

  /** asTempObj() on the way: shows the document so far and changes nothing. */
  method Peek(sub: ObjBuilder, ghost pre: ByteSeq, ghost s: Stack, ghost offsets: seq<nat>) returns (temp: ByteSeq)
    requires Describing(sub, pre, s, offsets)
    modifies sub`doneCalled, sub.b, sub.b.data
    ensures sub.b.data == old(sub.b.data) && sub.b.size == old(sub.b.size)
    ensures temp == EncodeDoc(s.elems)
    ensures Wrote(sub, pre, s, offsets, [])
  {
    ghost var m := Machine(sub.b.State(), offsets);
    StepKeepsInv(pre, s, m, Op.Peek);
    PeekShowsDocument(pre, s, m);
    ExtendNone(s);
    temp := sub.AsTempObj();
  }

  /** subobjStart or subarrayStart, and the constructor over the same buffer. */
  method Open(sub: ObjBuilder, isArray: bool, name: ByteSeq, ghost pre: ByteSeq, ghost s: Stack, ghost offsets: seq<nat>)
    returns (child: ObjBuilder?)
    requires Describing(sub, pre, s, offsets)
    requires 0 !in name ==> sub.b.l + |name| + 2 + 5 + sub.b.reservedBytes <= MAX_REQUEST
    modifies sub.b, sub.b.data
    ensures sub.b.data == old(sub.b.data) || fresh(sub.b.data)
    ensures child != null <==> 0 !in name && old(sub.b.l + |name| + 2 + 5 + sub.b.reservedBytes <= Limit(sub.b.State()))
    ensures child != null ==>
              && fresh(child) && child.b == sub.b && !child.owned && 0 <= child.offset
              && Describing(child, pre, Sub(s, isArray, name, []), [child.offset] + offsets)
              && |sub.b.bytes| == old(|sub.b.bytes|) + |name| + 2 + 4
              && sub.b.reservedBytes == old(sub.b.reservedBytes) + 1
              && Limit(sub.b.State()) == old(Limit(sub.b.State()))
    ensures child == null ==> Standing(sub, offsets)
  {
    ghost var m := Machine(sub.b.State(), offsets);
    child := null;
    var st := sub.SubStart(isArray, name);
    if 0 in name {
      DescribedIsOpen(pre, s, m.b.bytes, m.offsets);
      return;
    }
    ghost var slot := [0, 0, 0, 0];
    ghost var mid := sub.b.State();
    if st == Ok {
      child, slot := ObjBuilder.NewSub(sub.b);
    }
    OpenSteps(pre, s, m, isArray, name, slot, mid, st == Ok);
    OpenThrows(pre, s, m, isArray, name, slot, mid, st == Ok);
  }

  /** The header, then the constructor: together the step that opens a sub-document. */
  lemma OpenSteps(pre: ByteSeq, s: Stack, m: Machine, isArray: bool, name: CStr, slot: ByteSeq, mid: Buffer, ok: bool)
    requires Inv(pre, s, m) && |slot| == 4
    requires (mid, ok) == AppendAll(m.b, HeaderChunks(SubTag(isArray), name))
    ensures ok && OpenSub(mid, slot).Some? <==> |m.b.bytes| + |name| + 2 + 5 + m.b.reserved <= Limit(m.b)
    ensures ok && OpenSub(mid, slot).Some? ==>
              var after := OpenSub(mid, slot).value;
              && Inv(pre, Sub(s, isArray, name, []), Machine(after, [|m.b.bytes| + |name| + 2] + m.offsets))
              && |after.bytes| == |m.b.bytes| + |name| + 2 + 4 && after.reserved == m.b.reserved + 1
              && Limit(after) == Limit(m.b)
  {
    OpenSubIsBegin(m.b, SubTag(isArray), name, slot);
    StepKeepsInv(pre, s, m, Begin(isArray, name, slot));
  }

  /** Whichever of the two throws, the builders opened before stay open: it is the state the machine gives. */
  lemma OpenThrows(pre: ByteSeq, s: Stack, m: Machine, isArray: bool, name: CStr, slot: ByteSeq, mid: Buffer, ok: bool)
    requires Inv(pre, s, m) && (mid, ok) == AppendAll(m.b, HeaderChunks(SubTag(isArray), name))
    ensures Thrown(m, Begin(isArray, name, slot)).b == if ok then AppendAll(mid, [slot]).0 else mid
    ensures AllOpen(if ok then AppendAll(mid, [slot]).0 else mid, m.offsets)
  {
    DescribedIsOpen(pre, s, m.b.bytes, m.offsets);
    ThrownIsOpen(m, Begin(isArray, name, slot));
    AppendAllSplit(m.b, HeaderChunks(SubTag(isArray), name), [slot]);
  }

  /** The end of a sub-builder's scope: done, and its document is an element of its parent's. */
  method CloseSub(child: ObjBuilder, sub: ObjBuilder, ghost pre: ByteSeq, ghost s: Stack, ghost offsets: seq<nat>,
                  ghost isArray: bool, ghost name: CStr, ghost elems: Doc)
    requires child != sub && child.b == sub.b && sub.Valid() && !sub.doneCalled
    requires offsets != [] && sub.offset == offsets[0] && 0 <= child.offset
    requires Describing(child, pre, Sub(s, isArray, name, elems), [child.offset] + offsets)
    modifies child`doneCalled, sub.b, sub.b.data
    ensures sub.b.data == old(sub.b.data) && sub.b.size == old(sub.b.size)
    ensures Describing(sub, pre, s.Add(Element(name, SubValue(isArray, elems))), offsets)
    ensures |sub.b.bytes| == old(|sub.b.bytes|) + 1 && sub.b.reservedBytes == old(sub.b.reservedBytes) - 1
    ensures Limit(sub.b.State()) == old(Limit(sub.b.State()))
  {
    ghost var m := Machine(sub.b.State(), [child.offset] + offsets);
    StepKeepsInv(pre, Sub(s, isArray, name, elems), m, End);
    InvIsSteady(pre, Sub(s, isArray, name, elems), m);
    assert m.offsets[1..] == offsets;
    child.Done();
  }

  /**
    The end of a sub-builder's scope while an exception unwinds: the destructor
    writes the end of the broken document, into the byte kept for it, so it cannot
    throw, grow or move the buffer, and the parent stands as it did.
   */
  method Unwind(child: ObjBuilder, sub: ObjBuilder, ghost offsets: seq<nat>)
    requires child != sub && child.b == sub.b && !child.owned && !sub.doneCalled
    requires offsets != [] && sub.offset == offsets[0] && 0 <= child.offset
    requires Standing(child, [child.offset] + offsets)
    modifies child`doneCalled, sub.b, sub.b.data
    ensures Standing(sub, offsets)
    ensures sub.b.State() == Close(old(sub.b.State()), child.offset)
    ensures sub.b.data == old(sub.b.data) && sub.b.size == old(sub.b.size) && sub.b.copied == old(sub.b.copied)
  {
    CloseKeepsOpen(sub.b.State(), [child.offset] + offsets);
    assert ([child.offset] + offsets)[1..] == offsets;
    child.Destroy();
  }

  method WriteNest(sub: ObjBuilder, isArray: bool, name: ByteSeq, body: seq<Action>,
                   ghost pre: ByteSeq, ghost s: Stack, ghost offsets: seq<nat>) returns (ok: bool)
    requires Describing(sub, pre, s, offsets)
    requires 0 !in name ==> Need(sub.b, [Element(name, SubValue(isArray, Meaning(body)))]) <= MAX_REQUEST
    modifies sub.b, sub.b.data
    ensures sub.b.data == old(sub.b.data) || fresh(sub.b.data)
    ensures ok <==> && 0 !in name && Clean(body)
                    && old(Need(sub.b, [Element(name, SubValue(isArray, Meaning(body)))]) <= Limit(sub.b.State()))
    ensures ok ==> Wrote(sub, pre, s, offsets, [Element(name, SubValue(isArray, Meaning(body)))])
    ensures !ok ==> Standing(sub, offsets)
    decreases body, 2
  {
    if 0 !in name {
      NestLength(isArray, name, Meaning(body));
      NestStack(s, isArray, name, Meaning(body));
    }
    var child := Open(sub, isArray, name, pre, s, offsets);
    if child == null {
      return false;
    }
    ghost var inner := Sub(s, isArray, name, []);
    ok := WriteAll(child, body, pre, inner, [child.offset] + offsets);
    if ok {
      assert Describing(child, pre, Sub(s, isArray, name, Meaning(body)), [child.offset] + offsets);
      CloseSub(child, sub, pre, s, offsets, isArray, name, Meaning(body));
    } else {
      Unwind(child, sub, offsets);
    }
  }

  lemma NestLength(isArray: bool, name: CStr, d: Doc)
    ensures |EncodeElements([Element(name, SubValue(isArray, d))])| == |name| + 2 + |EncodeElements(d)| + 5
  {
    EncodeElementsOne(Element(name, SubValue(isArray, d)));
  }

  lemma NestStack(s: Stack, isArray: bool, name: CStr, d: Doc)
    ensures Extend(Sub(s, isArray, name, []), d) == Sub(s, isArray, name, d)
    ensures s.Add(Element(name, SubValue(isArray, d))) == Extend(s, [Element(name, SubValue(isArray, d))])
  {
    assert [] + d == d;
  }

  method WriteAction(sub: ObjBuilder, a: Action, ghost pre: ByteSeq, ghost s: Stack, ghost offsets: seq<nat>)
    returns (ok: bool)
    requires Describing(sub, pre, s, offsets) && Need(sub.b, ActionMeaning(a)) <= MAX_REQUEST
    modifies sub`doneCalled, sub.b, sub.b.data
    ensures sub.b.data == old(sub.b.data) || fresh(sub.b.data)
    ensures ok <==> ActionClean(a) && old(Need(sub.b, ActionMeaning(a)) <= Limit(sub.b.State()))
    ensures ok ==> Wrote(sub, pre, s, offsets, ActionMeaning(a))
    ensures !ok ==> Standing(sub, offsets)
    decreases a, 1
  {
    match a
    case Write(name, v) => ok := Put(sub, name, v, pre, s, offsets);
    case WriteUndefined(name) => ok := Put(sub, name, Undefined, pre, s, offsets);
    case WriteRegex(name, pattern, options) => ok := PutRegex(sub, name, pattern, options, pre, s, offsets);
    case Look =>
      FitsLimit(sub, pre, s, offsets);
      var temp := Peek(sub, pre, s, offsets);
      ok := true;
    case Nest(isArray, name, _, body) => ok := WriteNest(sub, isArray, name, body, pre, s, offsets);
  }

  /** Writes a whole script into the innermost builder; fails exactly when a call is refused or it does not fit. */
  method WriteAll(sub: ObjBuilder, script: seq<Action>, ghost pre: ByteSeq, ghost s: Stack, ghost offsets: seq<nat>)
    returns (ok: bool)
    requires Describing(sub, pre, s, offsets) && Need(sub.b, Meaning(script)) <= MAX_REQUEST
    modifies sub`doneCalled, sub.b, sub.b.data
    ensures sub.b.data == old(sub.b.data) || fresh(sub.b.data)
    ensures ok <==> Clean(script) && old(Need(sub.b, Meaning(script)) <= Limit(sub.b.State()))
    ensures ok ==> Wrote(sub, pre, s, offsets, Meaning(script))
    ensures !ok ==> Standing(sub, offsets)
    decreases script, 1
  {
    if script == [] {
      FitsLimit(sub, pre, s, offsets);
      ExtendNone(s);
      return true;
    }
    ghost var first, rest := ActionMeaning(script[0]), Meaning(script[1..]);
    EncodeElementsAppend(first, rest);
    ok := WriteAction(sub, script[0], pre, s, offsets);
    if ok {
      ok := WriteAll(sub, script[1..], pre, Extend(s, first), offsets);
      Associative(s.elems, first, rest);
    }
  }

  lemma FitsLimit(sub: ObjBuilder, pre: ByteSeq, s: Stack, offsets: seq<nat>)
    requires Describing(sub, pre, s, offsets)
    ensures Need(sub.b, []) <= Limit(sub.b.State())
  {
  }

  /**
    The builder objects refine the encoder: a block-structured program over one buffer
    ends with the encoding of the document it stands for, and throws exactly when a
    name or a pattern holds a NUL or that document, with the holder before it, passes
    the limit. The bytes are those of the published format.
   */
  method WriteDocument(script: seq<Action>) returns (objdata: ByteSeq, ok: bool)
    requires HOLDER_SIZE + |EncodeDoc(Meaning(script))| <= MAX_REQUEST
    ensures ok <==> Clean(script) && 4 + |EncodeDoc(Meaning(script))| <= 67_108_864  // holder and limit
    ensures ok ==> objdata == EncodeDoc(Meaning(script)) && ParseDoc(objdata) == Some(Meaning(script))
    ensures ok ==> BsonFormat.IsDocument(Meaning(script), objdata)
  {
    var root := new ObjBuilder();
    ghost var pre := root.b.bytes[..HOLDER_SIZE];
    ghost var m := Machine(root.b.State(), [HOLDER_SIZE]);
    FreshRootInv(m);
    ok := WriteAll(root, script, pre, Root([]), [HOLDER_SIZE]);
    objdata := [];
    if ok {
      assert Extend(Root([]), Meaning(script)) == Root(Meaning(script));
      objdata := FinishedObj(root, pre, Meaning(script));
      ParseDocBack(Meaning(script));
      BsonFormat.EncoderIsFormat(Meaning(script), objdata);
    }
    root.Destroy();
  }
}
