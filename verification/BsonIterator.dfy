/**
  BSONObjIterator (mongo/bson/bsonobjiterator.h) and the accessors for values of
  variable layout (mongo/bson/bsonelement.h).
 */
module BsonIterator {
  import opened Bytes
  import opened Bson
  import opened BsonReader

  /** What next() hands out: an element, the end-of-object element, or an assertion. */
  datatype Item = Elem(raw: RawElement) | Eoo | Failed

  /** The element whose bytes start at `pos` of the memory `mem`. */
  function ItemAt(mem: ByteSeq, pos: nat): (r: Item)
    ensures r.Elem? ==> 0 < r.raw.size <= |mem| - pos
    ensures r.Eoo? ==> pos < |mem|
  {
    if pos >= |mem| then Failed
    else if mem[pos] == EOO then Eoo
    else
      match SplitFirst(mem[pos..])
      case None => Failed
      case Some(raw) => Elem(raw)
  }

  /** How an appended element shows itself to the reader. */
  ghost function Raw(e: Element): RawElement
  {
    RawElement(Tag(e.value), e.name, EncodeValue(e.value), |EncodeElement(e)|)
  }

  ghost function Raws(d: Doc): seq<RawElement>
  {
    seq(|d|, i requires 0 <= i < |d| => Raw(d[i]))
  }

  lemma RawsSnoc(d: Doc, k: nat)
    requires k < |d|
    ensures Raws(d[..k + 1]) == Raws(d[..k]) + [Raw(d[k])]
  {
  }

  /** The offset of element `k` from the start of the document. */
  ghost function Position(d: Doc, k: nat): nat
    requires k <= |d|
  {
    4 + |EncodeElements(d[..k])|
  }

  /** `mem` starts with document `d`; anything may follow it. */
  ghost predicate Holds(mem: ByteSeq, d: Doc)
  {
    Fits(d) && EncodeDoc(d) <= mem
  }

  lemma SplitAt(d: Doc, k: nat)
    requires k < |d|
    ensures EncodeElements(d)
         == EncodeElements(d[..k]) + (EncodeElement(d[k]) + EncodeElements(d[k + 1..]))
    ensures Position(d, k + 1) == Position(d, k) + |EncodeElement(d[k])|
  {
    assert d == d[..k] + d[k..];
    EncodeElementsAppend(d[..k], d[k..]);
    EncodeElementsCons(d[k..]);
    assert d[..k + 1] == d[..k] + [d[k]];
    EncodeElementsSnoc(d[..k], d[k]);
  }

  lemma PositionAtEnd(d: Doc)
    ensures Position(d, |d|) == |EncodeDoc(d)| - 1
  {
    assert d[..|d|] == d;
  }

  lemma TailAt(body: ByteSeq, mem: ByteSeq, before: ByteSeq, rest: ByteSeq)
    requires Framed(body) <= mem
    requires body == before + rest
    ensures exists after: ByteSeq :: mem[4 + |before|..] == rest + ([EOO] + after)
  {
    var after := mem[|Framed(body)|..];
    assert mem == Framed(body) + after;
    assert mem[4 + |before|..] == rest + ([EOO] + after);
  }

  /** At the position of element `k` the reader finds exactly element `k`. */
  lemma ItemIsElement(mem: ByteSeq, d: Doc, k: nat)
    requires Holds(mem, d) && k < |d|
    ensures ItemAt(mem, Position(d, k)) == Elem(Raw(d[k]))
    ensures Position(d, k) + |EncodeElement(d[k])| == Position(d, k + 1) < |EncodeDoc(d)|
  {
    SplitAt(d, k);
    var e := EncodeElement(d[k]);
    var tail := EncodeElements(d[k + 1..]);
    TailAt(EncodeElements(d), mem, EncodeElements(d[..k]), e + tail);
    var after: ByteSeq :| mem[Position(d, k)..] == e + tail + ([EOO] + after);
    Associative(e, tail, [EOO] + after);
    SplitFirstBack(d[k], tail + ([EOO] + after));
  }

  /** After the last element the reader finds the end-of-object element. */
  lemma ItemIsEoo(mem: ByteSeq, d: Doc)
    requires Holds(mem, d)
    ensures ItemAt(mem, |EncodeDoc(d)| - 1) == Eoo
  {
    assert mem[|EncodeDoc(d)| - 1] == EncodeDoc(d)[|EncodeDoc(d)| - 1];
  }

  class BSONObjIterator {
    const mem: ByteSeq  // the bytes from objdata() on
    var pos: nat
    var theEnd: int

    /** The iterator stands before element `k` of document `d`. */
    ghost predicate At(d: Doc, k: nat)
      reads this
    {
      && Holds(mem, d)
      && k <= |d|
      && pos == Position(d, k)
      && theEnd == |EncodeDoc(d)| - 1
    }

    /** Trusts the size the object states; with a size below five there is nothing to visit. */
    constructor (mem: ByteSeq, ghost d: Doc)
      requires |mem| >= 4
      ensures this.mem == mem
      ensures pos == (if ReadInt32(mem) == 0 then 0 else 4)
      ensures theEnd == (if ReadInt32(mem) == 0 then 0 else -1 + ReadInt32(mem))
      ensures Holds(mem, d) ==> At(d, 0)
    {
      if Holds(mem, d) {
        SizeOfDocument(mem, d);
        assert d[..0] == [];
      }
      var sz: int := ReadInt32(mem);
      this.mem := mem;
      pos := if sz == 0 then 0 else 4;
      theEnd := if sz == 0 then 0 else sz - 1;
    }

    method More(ghost d: Doc, ghost k: nat) returns (b: bool)
      ensures b <==> pos < theEnd
      ensures At(d, k) ==> (b <==> k < |d|)
    {
      if At(d, k) {
        if k < |d| { ItemIsElement(mem, d, k); } else { PositionAtEnd(d); }
      }
      b := pos < theEnd;
    }

    method MoreWithEOO(ghost d: Doc, ghost k: nat) returns (b: bool)
      ensures b <==> pos <= theEnd
      ensures At(d, k) ==> b
    {
      if At(d, k) {
        if k < |d| { ItemIsElement(mem, d, k); } else { PositionAtEnd(d); }
      }
      b := pos <= theEnd;
    }

    /** next(): asserts `_pos <= _theend`, then steps over one element. */
    method Next(ghost d: Doc, ghost k: nat) returns (item: Item)
      modifies this`pos
      ensures old(pos) > theEnd ==> item == Failed
      ensures old(pos) <= theEnd ==> item == ItemAt(mem, old(pos))
      ensures pos == old(pos) + (match item case Elem(raw) => raw.size case Eoo => 1 case Failed => 0)
      ensures old(At(d, k)) && k < |d| ==> item == Elem(Raw(d[k])) && At(d, k + 1)
      ensures old(At(d, k)) && k == |d| ==> item == Eoo && pos == theEnd + 1
    {
      if At(d, k) {
        if k < |d| { ItemIsElement(mem, d, k); } else { PositionAtEnd(d); ItemIsEoo(mem, d); }
      }
      if pos > theEnd {
        return Failed;
      }
      item := ItemAt(mem, pos);
      match item
      case Elem(raw) => pos := pos + raw.size;
      case Eoo => pos := pos + 1;
      case Failed =>
    }

    /**
      next(true): looks at no byte behind the end of the object, whatever the bytes are.
      The size it steps over may still lead past the end; then no more() holds.
     */
    method NextChecked(sizeOf: ByteSeq -> int, ghost d: Doc, ghost k: nat) returns (item: Checked)
      requires theEnd < |mem|
      modifies this`pos
      ensures old(pos) > theEnd ==> item == Asserted
      ensures old(pos) <= theEnd ==> item == CheckedAt(sizeOf, mem[old(pos)..theEnd + 1])
      ensures pos == old(pos) + Advance(item)
      ensures old(At(d, k)) && SizesElements(sizeOf) && k < |d| ==> item == CheckedOf(d[k]) && At(d, k + 1)
      ensures old(At(d, k)) && k == |d| ==> item == AtEnd && pos == theEnd + 1
    {
      if At(d, k) {
        CheckedInDocument(sizeOf, mem, d, k);
      }
      item := StepChecked(sizeOf);
    }

    /** The same on bytes that need not be a document. */
    method StepChecked(sizeOf: ByteSeq -> int) returns (item: Checked)
      requires theEnd < |mem|
      modifies this`pos
      ensures old(pos) > theEnd ==> item == Asserted
      ensures old(pos) <= theEnd ==> item == CheckedAt(sizeOf, mem[old(pos)..theEnd + 1])
      ensures pos == old(pos) + Advance(item)
    {
      if pos > theEnd {
        return Asserted;
      }
      item := CheckedAt(sizeOf, mem[pos..theEnd + 1]);
      pos := pos + Advance(item);
    }
  }

  // ------------------------------------------------------------ checked reading

  /** What next(true) hands out: type, name and size of an element, the terminator, or an assertion. */
  datatype Checked = Found(tag: Byte, name: CStr, size: nat) | AtEnd | Asserted

  /**
    next(true) where `w` is all there is up to the end of the object. size(maxLen) has no
    body in the headers; `sizeOf` is any function of the bytes it may scan, an assertion
    inside it being a size that is not positive.
   */
  function CheckedAt(sizeOf: ByteSeq -> int, w: ByteSeq): (r: Checked)
    ensures r.Asserted? || Advance(r) > 0
  {
    if w == [] then Asserted
    else if w[0] == EOO then AtEnd
    else
      match StrLen(w[1..])
      case None => Asserted
      case Some(n) => if sizeOf(w) <= 0 then Asserted else Found(w[0], w[1..][..n], sizeOf(w))
  }

  /** The size by the layout of the type, as far as the bytes at hand state one. */
  function StatedSize(s: ByteSeq): int
  {
    if s == [] then -1
    else if s[0] == EOO then 1
    else
      match StrLen(s[1..])
      case None => -1
      case Some(n) =>
        match ValueSize(s[0], s[1 + n + 1..])
        case None => -1
        case Some(v) => 1 + n + 1 + v
  }

  /** A size function that is right about the elements of documents. */
  ghost predicate SizesElements(sizeOf: ByteSeq -> int)
  {
    forall e: Element, rest: ByteSeq :: ValueFits(e.value) ==> sizeOf(EncodeElement(e) + rest) == |EncodeElement(e)|
  }

  lemma StatedSizeSizesElements()
    ensures SizesElements(StatedSize)
  {
    forall e: Element, rest: ByteSeq | ValueFits(e.value)
      ensures StatedSize(EncodeElement(e) + rest) == |EncodeElement(e)|
    {
      ElementSizeBack(e, rest);
    }
  }

  /** By how much it moves the cursor. */
  function Advance(item: Checked): nat
  {
    match item
    case Found(_, _, size) => size
    case AtEnd => 1
    case Asserted => 0
  }

  /** The bytes of the object from its first element on, going by the size it states. */
  function ObjectBytes(mem: ByteSeq): ByteSeq
    requires |mem| >= 4 && ReadInt32(mem) <= |mem|
  {
    if ReadInt32(mem) > 4 then mem[4..ReadInt32(mem)] else []
  }

  /**
    An iteration over the bytes `w` of an object: the items stand one behind the other,
    each was found in the bytes up to the end of the object and in no others.
   */
  ghost predicate Visited(sizeOf: ByteSeq -> int, w: ByteSeq, items: seq<Checked>, at: seq<nat>)
  {
    && |at| == |items| + 1 && at[0] == 0
    && forall i :: 0 <= i < |items| ==> ItemFound(sizeOf, w, at[i], items[i], at[i + 1])
  }

  ghost predicate ItemFound(sizeOf: ByteSeq -> int, w: ByteSeq, at: nat, item: Checked, next: nat)
  {
    at + 1 < |w| && item == CheckedAt(sizeOf, w[at..]) && !item.Asserted? && next == at + Advance(item)
  }

  ghost function CheckedOf(e: Element): Checked
  {
    Found(Tag(e.value), e.name, |EncodeElement(e)|)
  }

  ghost function CheckedOfAll(d: Doc): seq<Checked>
  {
    seq(|d|, i requires 0 <= i < |d| => CheckedOf(d[i]))
  }

  lemma {:induction false} StrLenMore(s: ByteSeq, after: ByteSeq)
    requires StrLen(s).Some?
    ensures StrLen(s + after) == StrLen(s)
  {
    assert s[0] == (s + after)[0];
    if s[0] != 0 {
      StrLenMore(s[1..], after);
      assert (s + after)[1..] == s[1..] + after;
    }
  }

  lemma ReadLengthMore(s: ByteSeq, after: ByteSeq)
    requires ReadLength(s).Some?
    ensures ReadLength(s + after) == ReadLength(s)
  {
    assert (s + after)[..4] == s[..4];
  }

  lemma RegExSizeMore(s: ByteSeq, after: ByteSeq)
    requires RegExSize(s).Some?
    ensures RegExSize(s + after) == RegExSize(s)
  {
    var p := StrLen(s).value;
    StrLenMore(s, after);
    assert (s + after)[p + 1..] == s[p + 1..] + after;
    StrLenMore(s[p + 1..], after);
  }

  lemma ValueSizeMore(tag: Byte, s: ByteSeq, after: ByteSeq)
    requires ValueSize(tag, s).Some?
    ensures ValueSize(tag, s + after) == ValueSize(tag, s)
  {
    if tag == REG_EX {
      RegExSizeMore(s, after);
    } else if HasLength(tag) {
      ReadLengthMore(s, after);
    }
  }

  /** What fits is found checked and unchecked alike, whatever stands behind the object. */
  lemma CheckedAgrees(w: ByteSeq, after: ByteSeq)
    requires CheckedAt(StatedSize, w).Found? && StatedSize(w) <= |w|
    ensures var item := ItemAt(w + after, 0);
            && item.Elem? && item.raw.size == StatedSize(w)
            && item.raw.tag == CheckedAt(StatedSize, w).tag && item.raw.name == CheckedAt(StatedSize, w).name
  {
    var n := StrLen(w[1..]).value;
    NameAndValueMore(w, after, n);
    ValueSizeMore(w[0], w[1 + n + 1..], after);
    assert (w + after)[0..] == w + after;
  }

  lemma NameAndValueMore(w: ByteSeq, after: ByteSeq, n: nat)
    requires w != [] && StrLen(w[1..]) == Some(n)
    ensures StrLen((w + after)[1..]) == Some(n) && (w + after)[1..][..n] == w[1..][..n]
    ensures (w + after)[1 + n + 1..] == w[1 + n + 1..] + after
  {
    assert (w + after)[1..] == w[1..] + after;
    StrLenMore(w[1..], after);
    assert (w[1..] + after)[..n] == w[1..][..n];
  }

  // ---------------------------------------------- what plain next() depends on

  predicate KnownTag(tag: Byte)
  {
    HasNoBytes(tag) || tag == BOOL || tag == NUMBER_INT || HasEightBytes(tag) || tag == JST_OID || tag == REG_EX
    || HasLength(tag)
  }

  /** The value starts with a length that is below zero. */
  predicate NegativeLength(tag: Byte, s: ByteSeq)
  {
    HasLength(tag) && |s| >= 4 && ReadInt32(s) < 0
  }

  /**
    The bytes `w` up to the end of the object settle what plain next() does: it meets
    the terminator, a type it does not know, or a name that ends here, followed by a
    negative length or by a value that ends here, too.
   */
  predicate Settled(w: ByteSeq)
  {
    && w != []
    && (w[0] == EOO || !KnownTag(w[0]) ||
        match StrLen(w[1..])
        case None => false
        case Some(n) =>
          || NegativeLength(w[0], w[1 + n + 1..])
          || match ValueSize(w[0], w[1 + n + 1..])
             case None => false
             case Some(v) => 1 + n + 1 + v <= |w|)
  }

  /** Whatever memory stands behind the object, next() does the same. */
  ghost predicate StaysInside(w: ByteSeq)
  {
    forall a, b: ByteSeq :: ItemAt(w + a, 0) == ItemAt(w + b, 0)
  }

  /** Plain next() depends on the bytes of the object alone exactly when they settle it. */
  lemma StaysInsideIff(w: ByteSeq)
    ensures StaysInside(w) <==> Settled(w)
  {
    if Settled(w) {
      forall a, b: ByteSeq ensures ItemAt(w + a, 0) == ItemAt(w + b, 0) {
        SettledItem(w, a);
        SettledItem(w, b);
      }
    } else {
      var b := ReadsOn(w);
      UnsettledFails(w);
      assert w + [] == w;
      assert ItemAt(w + [], 0) != ItemAt(w + b, 0);
    }
  }

  lemma SettledItem(w: ByteSeq, after: ByteSeq)
    requires Settled(w)
    ensures ItemAt(w + after, 0) == ItemAt(w, 0)
  {
    assert (w + after)[0..] == w + after && w[0..] == w;
    if w[0] != EOO && KnownTag(w[0]) {
      if StatedSize(w) > 0 {
        FittingItem(w, after);
      } else {
        NegativeItem(w, after);
        NegativeItem(w, []);
        assert w + [] == w;
      }
    }
  }

  lemma NegativeItem(w: ByteSeq, after: ByteSeq)
    requires w != [] && StrLen(w[1..]).Some? && NegativeLength(w[0], w[1 + StrLen(w[1..]).value + 1..])
    ensures SplitFirst(w + after) == None
  {
    var n := StrLen(w[1..]).value;
    NameAndValueMore(w, after, n);
    assert (w[1 + n + 1..] + after)[..4] == w[1 + n + 1..][..4];
  }

  lemma FittingItem(w: ByteSeq, after: ByteSeq)
    requires w != [] && w[0] != EOO && 0 < StatedSize(w) <= |w|
    ensures SplitFirst(w + after) == SplitFirst(w)
  {
    var n, size := StrLen(w[1..]).value, StatedSize(w);
    StatedSizeMore(w, after);
    NameAndValueMore(w, after, n);
    SliceMore(w, after, 1 + n + 1, size);
    assert ElementSize(w) == ElementSize(w + after) == Some(size);
  }

  lemma SliceMore(w: ByteSeq, after: ByteSeq, i: nat, j: nat)
    requires i <= j <= |w|
    ensures (w + after)[i..j] == w[i..j]
  {
  }

  lemma UnsettledFails(w: ByteSeq)
    requires !Settled(w)
    ensures ItemAt(w, 0) == Failed
  {
    assert w[0..] == w;
  }

  function Zeros(n: nat): (s: ByteSeq)
    ensures |s| == n
  {
    seq(n, _ => 0)
  }

  /** Zeros that end the name and state a size, then as many as that size asks for. */
  lemma ReadsOn(w: ByteSeq) returns (b: ByteSeq)
    requires !Settled(w)
    ensures ItemAt(w + b, 0) != Failed
  {
    if w == [] {
      b := [EOO];
      assert w + b == [EOO];
    } else {
      var longer := w + Zeros(6);
      SizeStated(w);
      b := Zeros(6) + Zeros(StatedSize(longer));
      assert w + b == longer + Zeros(StatedSize(longer));
      LongEnough(longer, Zeros(StatedSize(longer)));
    }
  }

  lemma LongEnough(w: ByteSeq, after: ByteSeq)
    requires w != [] && w[0] != EOO && StatedSize(w) > 0 && |w + after| >= StatedSize(w)
    ensures ItemAt(w + after, 0).Elem?
  {
    StatedSizeMore(w, after);
    assert (w + after)[0..] == w + after;
    assert ElementSize(w + after) == Some(StatedSize(w));
  }

  lemma StatedSizeMore(w: ByteSeq, after: ByteSeq)
    requires w != [] && w[0] != EOO && StatedSize(w) > 0
    ensures StatedSize(w + after) == StatedSize(w)
  {
    var n := StrLen(w[1..]).value;
    NameAndValueMore(w, after, n);
    ValueSizeMore(w[0], w[1 + n + 1..], after);
  }

  lemma SizeStated(w: ByteSeq)
    requires w != [] && !Settled(w)
    ensures StatedSize(w + Zeros(6)) > 0
  {
    match StrLen(w[1..])
    case Some(n) =>
      NameAndValueMore(w, Zeros(6), n);
      ZerosStateSize(w[0], w[1 + n + 1..], 6);
    case None =>
      NameEnds(w, 5);
      ZerosStateSize(w[0], [], 5);
      assert [] + Zeros(5) == Zeros(5);
  }

  lemma NameEnds(w: ByteSeq, k: nat)
    requires w != [] && StrLen(w[1..]).None?
    ensures StrLen((w + Zeros(k + 1))[1..]) == Some(|w| - 1)
    ensures (w + Zeros(k + 1))[1 + (|w| - 1) + 1..] == Zeros(k)
  {
    assert (w + Zeros(k + 1))[1..] == w[1..] + [0] + Zeros(k);
    StrLenOfCStr(w[1..], Zeros(k));
  }

  lemma RegExEnds(s: ByteSeq, k: nat)
    requires k >= 2
    ensures RegExSize(s + Zeros(k)).Some?
  {
    var t := s + Zeros(k);
    StrLenAtMost(t, |s|);
    var p := StrLen(t).value;
    StrLenAtMost(t[p + 1..], |s| - p);
  }

  lemma {:induction false} ZeroOnTop(s: ByteSeq)
    ensures FromLE(s + [0]) == FromLE(s)
  {
    if s == [] {
      assert [0][1..] == [];
    } else {
      ZeroOnTop(s[1..]);
      assert (s + [0])[1..] == s[1..] + [0];
    }
  }

  /** A length whose highest byte is zero is not negative. */
  lemma TopByteZero(s: ByteSeq)
    requires |s| >= 4 && s[3] == 0
    ensures ReadInt32(s) >= 0
  {
    assert s[..4] == s[..3] + [0];
    ZeroOnTop(s[..3]);
    assert Range(3) == 256 * Range(2);
  }

  lemma ZerosStateSize(tag: Byte, s: ByteSeq, k: nat)
    requires KnownTag(tag) && !NegativeLength(tag, s) && k >= 4
    ensures ValueSize(tag, s + Zeros(k)).Some?
  {
    if tag == REG_EX {
      RegExEnds(s, k);
    } else if HasLength(tag) {
      if |s| >= 4 {
        assert (s + Zeros(k))[..4] == s[..4];
      } else {
        TopByteZero(s + Zeros(k));
      }
    }
  }

  /**
    An instance: a name that does not end inside the object is read on past it, and two
    memories with the same object give different elements. The checked read asserts.
   */
  lemma UncheckedReadsPast()
    ensures !Settled([JST_NULL, 65]) && CheckedAt(StatedSize, [JST_NULL, 65]) == Asserted
    ensures ItemAt([JST_NULL, 65] + [0], 0) == Elem(RawElement(JST_NULL, [65], [], 3))
    ensures ItemAt([JST_NULL, 65] + [66, 0], 0) == Elem(RawElement(JST_NULL, [65, 66], [], 4))
  {
    NullItem([65]);
    NullItem([65, 66]);
    assert [JST_NULL, 65] + [0] == [JST_NULL] + [65] + [0];
    assert [JST_NULL, 65] + [66, 0] == [JST_NULL] + [65, 66] + [0];
    assert [JST_NULL, 65][1..] == [65];
    StrLenOfOne(65);
  }

  lemma NullItem(name: CStr)
    ensures ItemAt([JST_NULL] + name + [0], 0) == Elem(RawElement(JST_NULL, name, [], |name| + 2))
  {
    var w := [JST_NULL] + name + [0];
    assert w == EncodeElement(Element(name, Null)) + [];
    SplitFirstBack(Element(name, Null), []);
    assert w[0..] == w;
  }

  lemma StrLenOfOne(c: Byte)
    requires c != 0
    ensures StrLen([c]).None?
  {
    assert [c][1..] == [];
  }

  /** The bytes of a document from its first element on, terminator included. */
  ghost function Body(d: Doc): ByteSeq
  {
    EncodeElements(d) + [EOO]
  }

  /** The offset of element `k` in them. */
  ghost function Start(d: Doc, k: nat): nat
    requires k <= |d|
  {
    |EncodeElements(d[..k])|
  }

  lemma StartOfRest(d: Doc, k: nat)
    requires k < |d|
    ensures Start(d, k) + |EncodeElement(d[k])| == Start(d, k + 1) < |Body(d)|
    ensures Body(d)[Start(d, k)..] == EncodeElement(d[k]) + (EncodeElements(d[k + 1..]) + [EOO])
  {
    SplitAt(d, k);
    var before, e, rest := EncodeElements(d[..k]), EncodeElement(d[k]), EncodeElements(d[k + 1..]);
    assert Body(d) == before + (e + (rest + [EOO]));
    assert Body(d)[|before|..] == e + (rest + [EOO]);
  }

  lemma FoundIsElement(sizeOf: ByteSeq -> int, d: Doc, k: nat)
    requires k < |d| && Fits(d) && SizesElements(sizeOf)
    ensures Start(d, k) + 1 < |Body(d)| && CheckedAt(sizeOf, Body(d)[Start(d, k)..]) == CheckedOf(d[k])
    ensures Start(d, k) + |EncodeElement(d[k])| == Start(d, k + 1)
  {
    StartOfRest(d, k);
    SplitAt(d, k);
    NameFound(Tag(d[k].value), d[k].name, EncodeValue(d[k].value), EncodeElements(d[k + 1..]) + [EOO]);
  }

  lemma NameFound(tag: Byte, name: CStr, value: ByteSeq, rest: ByteSeq)
    ensures var w := Header(tag, name) + value + rest;
            w[0] == tag && StrLen(w[1..]) == Some(|name|) && w[1..][..|name|] == name
  {
    var w := Header(tag, name) + value + rest;
    assert w[1..] == name + [0] + (value + rest);
    StrLenOfCStr(name, value + rest);
  }

  lemma SizeOfDocument(mem: ByteSeq, d: Doc)
    requires Holds(mem, d)
    ensures |mem| >= 4 && ReadInt32(mem) == |EncodeDoc(d)|
  {
    FramedSize(EncodeElements(d), mem);
  }

  lemma FramedSize(body: ByteSeq, mem: ByteSeq)
    requires Framed(body) <= mem && |body| + 5 < TWO_TO_THE_31
    ensures ReadInt32(mem) == |body| + 5
  {
    LengthBytes(|body| + 5);
    FirstPart(LE(4, |body| + 5), body, [EOO], mem);
    ReadInt32Front(LE(4, |body| + 5), mem);
  }

  lemma FirstPart(a: ByteSeq, b: ByteSeq, c: ByteSeq, mem: ByteSeq)
    requires a + b + c <= mem
    ensures a <= mem
  {
  }

  /**
    BSONForEach: the loop every reader of a document uses. On a document it visits
    exactly its elements, in order, and stops on its terminator. It relies on the
    bytes being a document: see UncheckedReadsPast.
   */
  method ForEach(mem: ByteSeq, ghost d: Doc) returns (items: seq<RawElement>, ok: bool)
    requires |mem| >= 4
    ensures Holds(mem, d) ==> ok && items == Raws(d)
  {
    ghost var k := 0;
    var it := new BSONObjIterator(mem, d);
    items, ok := [], true;
    var more := it.More(d, k);
    while more
      invariant fresh(it) && it.mem == mem
      invariant more <==> it.pos < it.theEnd
      invariant Holds(mem, d) ==> ok && it.At(d, k) && items == Raws(d[..k]) && (more <==> k < |d|)
      decreases it.theEnd - it.pos, more
    {
      var item := it.Next(d, k);
      if item.Failed? {
        return items, false;
      }
      if item.Elem? {
        if Holds(mem, d) {
          RawsSnoc(d, k);
        }
        items := items + [item.raw];
      }
      k := k + 1;
      more := it.More(d, k);
    }
    if Holds(mem, d) {
      assert d[..k] == d;
    }
  }

  /**
    The same loop with next(true). For any bytes at all it looks at the object's own
    bytes only, and it ends: at or past the end, or with an assertion. On a document
    it finds exactly its elements, in order. `at` records where the items were found.
   */
  method ForEachChecked(sizeOf: ByteSeq -> int, mem: ByteSeq, ghost d: Doc)
    returns (items: seq<Checked>, ok: bool, ghost at: seq<nat>)
    requires |mem| >= 4 && ReadInt32(mem) <= |mem|
    ensures Visited(sizeOf, ObjectBytes(mem), items, at)
    ensures Ended(sizeOf, ObjectBytes(mem), at[|items|], ok)
    ensures Holds(mem, d) && SizesElements(sizeOf) ==> ok && items == CheckedOfAll(d)
  {
    var it := new BSONObjIterator(mem, []);
    items, ok, at := ScanChecked(sizeOf, it, ObjectBytes(mem));
    if Holds(mem, d) && SizesElements(sizeOf) {
      BodyOfDocument(mem, d);
      VisitedDocument(sizeOf, d, items, at, ok);
    }
  }

  /** The iteration is over at offset `here`: at or past the end, or by an assertion there. */
  ghost predicate Ended(sizeOf: ByteSeq -> int, w: ByteSeq, here: nat, ok: bool)
  {
    if ok then here + 1 >= |w| else here + 1 < |w| && CheckedAt(sizeOf, w[here..]).Asserted?
  }

  method ScanChecked(sizeOf: ByteSeq -> int, it: BSONObjIterator, ghost w: ByteSeq)
    returns (items: seq<Checked>, ok: bool, ghost at: seq<nat>)
    requires it.theEnd < |it.mem|
    requires if it.pos < it.theEnd then w == it.mem[it.pos..it.theEnd + 1] else |w| <= 1
    modifies it`pos
    ensures Visited(sizeOf, w, items, at) && Ended(sizeOf, w, at[|items|], ok)
  {
    ghost var start, here: nat := it.pos, 0;
    items, ok, at := [], true, [0];
    var more := it.pos < it.theEnd;  // more()
    while more
      invariant more <==> it.pos < it.theEnd
      invariant more <==> here + 1 < |w|
      invariant more ==> it.pos == start + here
      invariant Visited(sizeOf, w, items, at) && at[|items|] == here
      decreases it.theEnd - it.pos
    {
      assert it.mem[it.pos..it.theEnd + 1] == w[here..];
      var item := it.StepChecked(sizeOf);
      if item.Asserted? {
        ok := false;
        break;
      }
      VisitedSnoc(sizeOf, w, items, at, item);
      here := here + Advance(item);
      items, at := items + [item], at + [here];
      more := it.pos < it.theEnd;
    }
  }

  /** The bytes of a document from element `k` on, as they stand in the memory. */
  lemma BodyFrom(mem: ByteSeq, d: Doc, k: nat)
    requires Holds(mem, d) && k <= |d|
    ensures Position(d, k) == 4 + Start(d, k) && Start(d, k) < |Body(d)|
    ensures mem[Position(d, k)..|EncodeDoc(d)|] == Body(d)[Start(d, k)..]
  {
    EncodeElementsAppend(d[..k], d[k..]);
    assert d[..k] + d[k..] == d;
    assert EncodeDoc(d)[4..] == Body(d);
    assert mem[..|EncodeDoc(d)|] == EncodeDoc(d);
    assert mem[Position(d, k)..|EncodeDoc(d)|] == mem[..|EncodeDoc(d)|][4..][Start(d, k)..];
  }

  /** next(true) before element `k` of a document finds it, and after the last one the terminator. */
  lemma CheckedInDocument(sizeOf: ByteSeq -> int, mem: ByteSeq, d: Doc, k: nat)
    requires Holds(mem, d) && k <= |d|
    ensures Position(d, k) < |EncodeDoc(d)| && (k == |d| ==> Position(d, k) == |EncodeDoc(d)| - 1)
    ensures var item := CheckedAt(sizeOf, mem[Position(d, k)..|EncodeDoc(d)|]);
            && (k == |d| ==> item == AtEnd)
            && (k < |d| && SizesElements(sizeOf) ==>
                  item == CheckedOf(d[k]) && Position(d, k) + Advance(item) == Position(d, k + 1))
  {
    BodyFrom(mem, d, k);
    if k == |d| {
      PositionAtEnd(d);
      assert d[..k] == d;
      assert Body(d)[Start(d, k)..] == [EOO];
    } else if SizesElements(sizeOf) {
      FoundIsElement(sizeOf, d, k);
    }
  }

  lemma BodyOfDocument(mem: ByteSeq, d: Doc)
    requires Holds(mem, d) && |mem| >= 4 && ReadInt32(mem) <= |mem|
    ensures ObjectBytes(mem) == Body(d)
  {
    SizeOfDocument(mem, d);
    assert mem[..|EncodeDoc(d)|] == EncodeDoc(d);
    assert EncodeDoc(d)[4..] == Body(d);
  }

  /** In a document there is only one way to go: element after element, to the terminator. */
  lemma VisitedDocument(sizeOf: ByteSeq -> int, d: Doc, items: seq<Checked>, at: seq<nat>, ok: bool)
    requires SizesElements(sizeOf) && Fits(d)
    requires Visited(sizeOf, Body(d), items, at) && Ended(sizeOf, Body(d), at[|items|], ok)
    ensures ok && items == CheckedOfAll(d)
  {
    VisitedSoFar(sizeOf, d, items, at, |items|);
    assert d[..|d|] == d;
    if |items| < |d| {
      FoundIsElement(sizeOf, d, |items|);
    } else {
      assert items == CheckedOfAll(d);
    }
  }

  lemma {:induction false} VisitedSoFar(sizeOf: ByteSeq -> int, d: Doc, items: seq<Checked>, at: seq<nat>, n: nat)
    requires SizesElements(sizeOf) && Fits(d) && Visited(sizeOf, Body(d), items, at) && n <= |items|
    ensures n <= |d| && at[n] == Start(d, n)
    ensures forall i :: 0 <= i < n ==> items[i] == CheckedOf(d[i])
    decreases n
  {
    if n == 0 {
      assert d[..0] == [];
    } else {
      VisitedSoFar(sizeOf, d, items, at, n - 1);
      NextOfDocument(sizeOf, d, n - 1, at[n - 1], items[n - 1], at[n]);
    }
  }

  /**
    With the sizes the bytes state, nothing is left to assume: a checked iteration over
    a document finds exactly its elements, in order.
   */
  lemma CheckedFindsElements(mem: ByteSeq, d: Doc, items: seq<Checked>, at: seq<nat>, ok: bool)
    requires Holds(mem, d) && |mem| >= 4 && ReadInt32(mem) <= |mem|
    requires Visited(StatedSize, ObjectBytes(mem), items, at) && Ended(StatedSize, ObjectBytes(mem), at[|items|], ok)
    ensures ok && items == CheckedOfAll(d)
  {
    StatedSizeSizesElements();
    BodyOfDocument(mem, d);
    VisitedDocument(StatedSize, d, items, at, ok);
  }

  lemma NextOfDocument(sizeOf: ByteSeq -> int, d: Doc, k: nat, at: nat, item: Checked, next: nat)
    requires SizesElements(sizeOf) && Fits(d)
    requires k <= |d| && at == Start(d, k) && ItemFound(sizeOf, Body(d), at, item, next)
    ensures k < |d| && item == CheckedOf(d[k]) && next == Start(d, k + 1)
  {
    assert d[..|d|] == d;
    FoundIsElement(sizeOf, d, k);
  }

  lemma VisitedSnoc(sizeOf: ByteSeq -> int, w: ByteSeq, items: seq<Checked>, at: seq<nat>, item: Checked)
    requires Visited(sizeOf, w, items, at) && ItemFound(sizeOf, w, at[|items|], item, at[|items|] + Advance(item))
    ensures Visited(sizeOf, w, items + [item], at + [at[|items|] + Advance(item)])
  {
    var more, places := items + [item], at + [at[|items|] + Advance(item)];
    forall i | 0 <= i < |more| ensures ItemFound(sizeOf, w, places[i], more[i], places[i + 1]) {
      if i < |items| {
        assert ItemFound(sizeOf, w, at[i], items[i], at[i + 1]);
      }
    }
  }

  // -------------------------------------------------- values of variable layout

  /** codeWScopeCodeLen(): the stored length of the code, terminator included. */
  function CodeLength(value: ByteSeq): int32
    requires |value| >= 8
  {
    ReadInt32(value[4..])
  }

  /** codeWScopeScopeData(), as an offset into the value. */
  function ScopeOffset(value: ByteSeq): int
    requires |value| >= 8
  {
    4 + 4 + CodeLength(value)
  }

  /** codeWScopeScopeDataUnsafe(): the scope is looked for after the first NUL of the code. */
  function ScopeOffsetUnsafe(value: ByteSeq): Option<int>
    requires |value| >= 8
  {
    match StrLen(value[8..])
    case None => None
    case Some(n) => Some(4 + 4 + n + 1)
  }

  /** The stored length leads to the scope whatever bytes the code holds. */
  lemma ScopeOffsetIsExact(code: ByteSeq, scope: Doc)
    requires ValueFits(CodeWScope(code, scope))
    ensures var value := EncodeValue(CodeWScope(code, scope));
            |value| >= 8 && 0 <= ScopeOffset(value) <= |value|
            && value[ScopeOffset(value)..] == EncodeDoc(scope)
  {
    ScopedLayout(code, EncodeDoc(scope), EncodeValue(CodeWScope(code, scope)));
  }

  lemma ScopedLayout(code: ByteSeq, scope: ByteSeq, value: ByteSeq)
    requires value == LE(4, 4 + |EncodeText(code)| + |scope|) + EncodeText(code) + scope
    requires |value| < TWO_TO_THE_31
    ensures CodeLength(value) == |code| + 1
    ensures value[8 + |code| + 1..] == scope
    ensures value[8..] == code + [0] + scope
  {
    var total := LE(4, 4 + |EncodeText(code)| + |scope|);
    TextThen(code, scope);
    Associative(total, EncodeText(code), scope);
    FourThenFour(total, |code| + 1, code + [0], scope, value);
  }

  lemma FourThenFour(total: ByteSeq, n: nat, code: ByteSeq, scope: ByteSeq, value: ByteSeq)
    requires |total| == 4 && n == |code| < TWO_TO_THE_31
    requires value == total + (LE(4, n) + (code + scope))
    ensures CodeLength(value) == n && value[8 + n..] == scope && value[8..] == code + scope
  {
    assert value[4..] == LE(4, n) + (code + scope);
    assert value[8..] == code + scope;
    assert value[8 + n..] == value[8..][n..] == scope;
    ReadLengthBack(n, code + scope);
  }

  lemma TextThen(text: ByteSeq, rest: ByteSeq)
    ensures EncodeText(text) + rest == LE(4, |text| + 1) + (text + [0] + rest)
  {
    Associative4(LE(4, |text| + 1), text, [0], rest);
  }

  /** The strlen-based accessor agrees with it exactly when the code has no NUL. */
  lemma UnsafeScopeOffsetAgreesIff(code: ByteSeq, scope: Doc)
    requires ValueFits(CodeWScope(code, scope))
    ensures var value := EncodeValue(CodeWScope(code, scope));
            |value| >= 8 && (ScopeOffsetUnsafe(value) == Some(ScopeOffset(value)) <==> 0 !in code)
  {
    var value := EncodeValue(CodeWScope(code, scope));
    ScopedLayout(code, EncodeDoc(scope), value);
    var tail := value[8..];
    if 0 !in code {
      StrLenOfCStr(code, EncodeDoc(scope));
    } else {
      var i :| 0 <= i < |code| && code[i] == 0;
      StrLenAtMost(tail, i);
    }
  }

  /** binDataClean(): the payload, without the inner length of the deprecated subtype 2. */
  function BinDataClean(value: ByteSeq): Option<ByteSeq>
  {
    if |value| < 5 then None
    else
      var skip := if value[4] == BYTE_ARRAY_DEPRECATED then 4 else 0;
      var len := ReadInt32(value) - skip;
      if 0 <= len <= |value| - 5 - skip then Some(value[5 + skip..5 + skip + len]) else None
  }

  /** The value appendBinDataArrayDeprecated writes. */
  function DeprecatedByteArray(data: ByteSeq): Value
  {
    BinData(BYTE_ARRAY_DEPRECATED, LE(4, |data|) + data)
  }

  /** Binary data comes back as appended, through either append function. */
  lemma BinDataReadsBack(subtype: Byte, data: ByteSeq)
    requires |data| + 4 < TWO_TO_THE_31
    ensures subtype != BYTE_ARRAY_DEPRECATED ==> BinDataClean(EncodeValue(BinData(subtype, data))) == Some(data)
    ensures BinDataClean(EncodeValue(DeprecatedByteArray(data))) == Some(data)
  {
    BinDataLayout(subtype, data);
    var value := EncodeValue(BinData(subtype, data));
    assert value[5..5 + |data|] == value[5..];
    var inner := LE(4, |data|) + data;
    BinDataLayout(BYTE_ARRAY_DEPRECATED, inner);
    var deprecated := EncodeValue(DeprecatedByteArray(data));
    assert deprecated[9..9 + |data|] == deprecated[5..][4..] == data;
  }

  lemma BinDataLayout(subtype: Byte, data: ByteSeq)
    requires |data| < TWO_TO_THE_31
    ensures var value := EncodeValue(BinData(subtype, data));
            |value| == 5 + |data| && ReadInt32(value) == |data| && value[4] == subtype && value[5..] == data
  {
    LengthBytes(|data|);
    LengthSubtypeData(LE(4, |data|), subtype, data);
  }

  lemma LengthSubtypeData(len: ByteSeq, subtype: Byte, data: ByteSeq)
    requires |len| == 4
    ensures var value := len + [subtype] + data;
            ReadInt32(value) == ReadInt32(len) && value[4] == subtype && value[5..] == data
  {
    ReadInt32Front(len, len + [subtype] + data);
  }

  /** dbrefOID(): twelve bytes after the length-prefixed namespace. */
  function DBRefOid(value: ByteSeq): Option<Oid>
  {
    if |value| < 4 then None
    else
      var start := 4 + ReadInt32(value);
      if 0 <= start && start + 12 <= |value| then Some(value[start..start + 12]) else None
  }

  lemma DBRefReadsBack(ns: ByteSeq, ref: Oid)
    requires ValueFits(DBRef(ns, ref))
    ensures DBRefOid(EncodeValue(DBRef(ns, ref))) == Some(ref)
  {
    LengthBytes(|ns| + 1);
    OidBehindText(LE(4, |ns| + 1), ns, ref);
  }

  lemma OidBehindText(len: ByteSeq, ns: ByteSeq, ref: Oid)
    requires |len| == 4 && ReadInt32(len) == |ns| + 1
    ensures DBRefOid(len + ns + [0] + ref) == Some(ref)
  {
    var value := len + ns + [0] + ref;
    Associative4(len, ns, [0], ref);
    ReadInt32Front(len, value);
    assert value[|len + ns + [0]|..|value|] == ref;
  }

  /** timestamp(): the increment is stored first, then the seconds. */
  function ReadTimestamp(value: ByteSeq): (int, int)
    requires |value| == 8
  {
    (FromLE(value[4..]), FromLE(value[..4]))
  }

  lemma TimestampReadsBack(seconds: uint32, increment: uint32)
    ensures ReadTimestamp(EncodeValue(Timestamp(seconds, increment))) == (seconds, increment)
  {
    RangeOf4();
    var value := EncodeValue(Timestamp(seconds, increment));
    assert value[4..] == LE(4, seconds) && value[..4] == LE(4, increment);
    FromLEInvertsLE(4, seconds);
    FromLEInvertsLE(4, increment);
  }
}
