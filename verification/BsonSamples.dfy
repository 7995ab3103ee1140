/**
  Whole documents with one field of every type, byte by byte: `c` is the name of the
  field, the value is any of its size. They leave the encoder no choice of type numbers,
  of byte orders or of the order of the parts.
 */
module BsonSamples {
  import opened Bytes
  import opened Bson
  import opened BsonFormat

  /** The first byte of an element is the number of its type. */
  lemma TypeByte(name: CStr, v: Value)
    ensures EncodeElement(Element(name, v))[0] == TypeNumber(v)
  {
    TagIsTypeNumber(v);
  }

  /** Length, type, name, terminator, value, terminator. */
  lemma OneField(c: Byte, v: Value, value: ByteSeq, length: Byte)
    requires c != 0
    requires IsValue(v, value) && length == |value| + 8
    ensures EncodeDoc([Element([c], v)]) == [length, 0, 0, 0, TypeNumber(v) as Byte, c, 0] + value + [0]
  {
    var e := Element([c], v);
    OnlyValue(v, value);
    TagIsTypeNumber(v);
    Framing(EncodeElement(e), length);
    EncodeElementsOne(e);
    var head := [Tag(v), c, 0];
    assert EncodeElement(e) == head + value;
    Associative([length, 0, 0, 0], head, value);
    assert [length, 0, 0, 0] + head == [length, 0, 0, 0, Tag(v), c, 0];
  }

  lemma Framing(body: ByteSeq, length: Byte)
    requires length == |body| + 5
    ensures Framed(body) == [length, 0, 0, 0] + body + [0]
  {
    LengthIs([length, 0, 0, 0], |body| + 5);
  }

  lemma MinKeyBytes(c: Byte)
    requires c != 0
    ensures EncodeDoc([Element([c], MinKey)]) == [8, 0, 0, 0, 255, c, 0, 0]
  {
    assert [8, 0, 0, 0, 255, c, 0] + [] + [0] == [8, 0, 0, 0, 255, c, 0, 0];
    OneField(c, MinKey, [], 8);
  }

  lemma MaxKeyBytes(c: Byte)
    requires c != 0
    ensures EncodeDoc([Element([c], MaxKey)]) == [8, 0, 0, 0, 127, c, 0, 0]
  {
    assert [8, 0, 0, 0, 127, c, 0] + [] + [0] == [8, 0, 0, 0, 127, c, 0, 0];
    OneField(c, MaxKey, [], 8);
  }

  lemma UndefinedBytes(c: Byte)
    requires c != 0
    ensures EncodeDoc([Element([c], Undefined)]) == [8, 0, 0, 0, 6, c, 0, 0]
  {
    assert [8, 0, 0, 0, 6, c, 0] + [] + [0] == [8, 0, 0, 0, 6, c, 0, 0];
    OneField(c, Undefined, [], 8);
  }

  lemma NullBytes(c: Byte)
    requires c != 0
    ensures EncodeDoc([Element([c], Null)]) == [8, 0, 0, 0, 10, c, 0, 0]
  {
    assert [8, 0, 0, 0, 10, c, 0] + [] + [0] == [8, 0, 0, 0, 10, c, 0, 0];
    OneField(c, Null, [], 8);
  }

  lemma BoolBytes(c: Byte, flag: bool)
    requires c != 0
    ensures EncodeDoc([Element([c], Bool(flag))]) == [9, 0, 0, 0, 8, c, 0] + [if flag then 1 else 0] + [0]
  {
    OneField(c, Bool(flag), [if flag then 1 else 0], 9);
  }

  lemma DoubleBytes(c: Byte, bits: uint64, s: ByteSeq)
    requires c != 0
    requires IsUint64(s, bits)
    ensures EncodeDoc([Element([c], Double(bits))]) == [16, 0, 0, 0, 1, c, 0] + s + [0]
  {
    OneField(c, Double(bits), s, 16);
  }

  lemma DateBytes(c: Byte, millis: uint64, s: ByteSeq)
    requires c != 0
    requires IsUint64(s, millis)
    ensures EncodeDoc([Element([c], Date(millis))]) == [16, 0, 0, 0, 9, c, 0] + s + [0]
  {
    OneField(c, Date(millis), s, 16);
  }

  /** The increment comes before the seconds. */
  lemma TimestampBytes(c: Byte, seconds: uint32, increment: uint32, hi: ByteSeq, lo: ByteSeq)
    requires c != 0
    requires IsUint32(hi, seconds) && IsUint32(lo, increment)
    ensures EncodeDoc([Element([c], Timestamp(seconds, increment))]) == [16, 0, 0, 0, 17, c, 0] + (lo + hi) + [0]
  {
    Halves(lo, hi);
    OneField(c, Timestamp(seconds, increment), lo + hi, 16);
  }

  lemma IntBytes(c: Byte, i: int32, s: ByteSeq)
    requires c != 0
    requires IsInt32(s, i)
    ensures EncodeDoc([Element([c], Int(i))]) == [12, 0, 0, 0, 16, c, 0] + s + [0]
  {
    OneField(c, Int(i), s, 12);
  }

  lemma LongBytes(c: Byte, l: int64, s: ByteSeq)
    requires c != 0
    requires IsInt64(s, l)
    ensures EncodeDoc([Element([c], Long(l))]) == [16, 0, 0, 0, 18, c, 0] + s + [0]
  {
    OneField(c, Long(l), s, 16);
  }

  lemma TwoByteText(x: Byte, y: Byte)
    ensures IsString([3, 0, 0, 0, x, y, 0], [x, y])
  {
    var s := [3, 0, 0, 0, x, y, 0];
    assert s[..4] == [3, 0, 0, 0] && s[4..] == [x, y] + [0];
  }

  /** The length counts the terminator; NULs inside are kept. */
  lemma StrBytes(c: Byte, x: Byte, y: Byte)
    requires c != 0
    ensures EncodeDoc([Element([c], Str([x, y]))]) == [15, 0, 0, 0, 2, c, 0] + [3, 0, 0, 0, x, y, 0] + [0]
  {
    TwoByteText(x, y);
    OneField(c, Str([x, y]), [3, 0, 0, 0, x, y, 0], 15);
  }

  lemma CodeBytes(c: Byte, x: Byte, y: Byte)
    requires c != 0
    ensures EncodeDoc([Element([c], Code([x, y]))]) == [15, 0, 0, 0, 13, c, 0] + [3, 0, 0, 0, x, y, 0] + [0]
  {
    TwoByteText(x, y);
    OneField(c, Code([x, y]), [3, 0, 0, 0, x, y, 0], 15);
  }

  lemma SymbolBytes(c: Byte, x: Byte, y: Byte)
    requires c != 0
    ensures EncodeDoc([Element([c], Symbol([x, y]))]) == [15, 0, 0, 0, 14, c, 0] + [3, 0, 0, 0, x, y, 0] + [0]
  {
    TwoByteText(x, y);
    OneField(c, Symbol([x, y]), [3, 0, 0, 0, x, y, 0], 15);
  }

  lemma BinDataBytes(c: Byte, subtype: Byte, x: Byte, y: Byte)
    requires c != 0
    ensures EncodeDoc([Element([c], BinData(subtype, [x, y]))])
         == [15, 0, 0, 0, 5, c, 0] + [2, 0, 0, 0, subtype, x, y] + [0]
  {
    var value := [2, 0, 0, 0, subtype, x, y];
    assert value[..4] == [2, 0, 0, 0] && value[5..] == [x, y];
    OneField(c, BinData(subtype, [x, y]), value, 15);
  }

  lemma ObjectIdBytes(c: Byte, id: Oid)
    requires c != 0
    ensures EncodeDoc([Element([c], ObjectId(id))]) == [20, 0, 0, 0, 7, c, 0] + id + [0]
  {
    OneField(c, ObjectId(id), id, 20);
  }

  lemma RegExBytes(c: Byte, x: Byte, y: Byte)
    requires c != 0 && x != 0 && y != 0
    ensures EncodeDoc([Element([c], RegEx([x], [y]))]) == [12, 0, 0, 0, 11, c, 0] + [x, 0, y, 0] + [0]
  {
    assert [x] + [0] + [y] + [0] == [x, 0, y, 0];
    OneField(c, RegEx([x], [y]), [x, 0, y, 0], 12);
  }

  lemma OneByteText(x: Byte)
    ensures IsString([2, 0, 0, 0, x, 0], [x])
  {
    var s := [2, 0, 0, 0, x, 0];
    assert s[..4] == [2, 0, 0, 0] && s[4..] == [x] + [0];
  }

  lemma DBRefBytes(c: Byte, x: Byte, id: Oid)
    requires c != 0
    ensures EncodeDoc([Element([c], DBRef([x], id))]) == [26, 0, 0, 0, 12, c, 0] + ([2, 0, 0, 0, x, 0] + id) + [0]
  {
    OneByteText(x);
    Halves([2, 0, 0, 0, x, 0], id);
    OneField(c, DBRef([x], id), [2, 0, 0, 0, x, 0] + id, 26);
  }

  lemma ObjectBytes(c: Byte, x: Byte)
    requires c != 0 && x != 0
    ensures EncodeDoc([Element([c], Object([Element([x], Null)]))])
         == [16, 0, 0, 0, 3, c, 0] + ([8, 0, 0, 0, 10, x, 0, 0]) + [0]
  {
    var inner := [Element([x], Null)];
    NullBytes(x);
    EncoderIsFormat(inner, EncodeDoc(inner));
    OneField(c, Object(inner), EncodeDoc(inner), 16);
  }

  lemma TwoFields(e: Element, f: Element, a: ByteSeq, b: ByteSeq, length: Byte)
    requires IsElement(e, a) && IsElement(f, b) && length == |a| + |b| + 5
    ensures EncodeDoc([e, f]) == [length, 0, 0, 0] + (a + b) + [0]
  {
    OnlyElement(e, a);
    OnlyElement(f, b);
    EncodeElementsOne(e);
    EncodeElementsSnoc([e], f);
    assert [e] + [f] == [e, f];
    Framing(a + b, length);
  }

  lemma BoolElement(c: Byte, flag: bool, b: Byte)
    requires c != 0
    requires b == if flag then 1 else 0
    ensures IsElement(Element([c], Bool(flag)), [8, c, 0, b])
  {
    var s := [8, c, 0, b];
    assert s[1..2] == [s[1]];
    assert s[3..] == [s[3]];
  }

  /** The items are named "0", "1" and so on. */
  lemma ArrayBytes(c: Byte, x: bool, y: bool, ba: Byte, bb: Byte)
    requires c != 0
    requires ba == (if x then 1 else 0) && bb == (if y then 1 else 0)
    ensures EncodeDoc([Element([c], Array(Indexed([Bool(x), Bool(y)])))])
         == [21, 0, 0, 0, 4, c, 0] + ([13, 0, 0, 0] + ([8, 48, 0, ba] + [8, 49, 0, bb]) + [0]) + [0]
  {
    var items := Indexed([Bool(x), Bool(y)]);
    assert items == [Element([48], Bool(x)), Element([49], Bool(y))];
    BoolElement(48, x, ba);
    BoolElement(49, y, bb);
    TwoFields(Element([48], Bool(x)), Element([49], Bool(y)), [8, 48, 0, ba], [8, 49, 0, bb], 13);
    EncoderIsFormat(items, EncodeDoc(items));
    OneField(c, Array(items), EncodeDoc(items), 21);
  }

  lemma EmptyDocument()
    ensures IsDocument([], [5, 0, 0, 0, 0])
  {
    var s: ByteSeq := [5, 0, 0, 0, 0];
    assert s[..4] == [5, 0, 0, 0];
    assert |s[4..|s| - 1]| == 0;
  }

  /** The size counts everything; the code, then the scope. */
  lemma CodeWScopeBytes(c: Byte, x: Byte)
    requires c != 0
    ensures EncodeDoc([Element([c], CodeWScope([x], []))])
         == [23, 0, 0, 0, 15, c, 0] + ([15, 0, 0, 0] + [2, 0, 0, 0, x, 0] + [5, 0, 0, 0, 0]) + [0]
  {
    var empty := [5, 0, 0, 0, 0];
    OneByteText(x);
    EmptyDocument();
    PartsOf([15, 0, 0, 0], [2, 0, 0, 0, x, 0], empty);
    OneField(c, CodeWScope([x], []), [15, 0, 0, 0] + [2, 0, 0, 0, x, 0] + empty, 23);
  }
}
