/**
  The BSON format as bsonspec.org gives it, production by production: which bytes are
  a given document. Type numbers and byte orders are written out here, and the encoder
  of module Bson is shown to produce exactly these bytes.
 */
module BsonFormat {
  import opened Bytes
  import opened Bson

  /** The number in front of each type of element. */
  function TypeNumber(v: Value): int
  {
    match v
    case Double(_) => 1
    case Str(_) => 2
    case Object(_) => 3
    case Array(_) => 4
    case BinData(_, _) => 5
    case Undefined => 6
    case ObjectId(_) => 7
    case Bool(_) => 8
    case Date(_) => 9
    case Null => 10
    case RegEx(_, _) => 11
    case DBRef(_, _) => 12
    case Code(_) => 13
    case Symbol(_) => 14
    case CodeWScope(_, _) => 15
    case Int(_) => 16
    case Timestamp(_, _) => 17
    case Long(_) => 18
    case MaxKey => 127
    case MinKey => 255
  }

  // ------------------------------------------------------------------- numbers

  /** What four bytes spell, the first being the lowest. */
  function Spell4(s: ByteSeq): int
    requires |s| == 4
  {
    (s[0] as int) + 0x100 * (s[1] as int) + 0x1_0000 * (s[2] as int) + 0x100_0000 * (s[3] as int)
  }

  function Spell8(s: ByteSeq): int
    requires |s| == 8
  {
    Spell4(s[..4]) + 0x1_0000_0000 * Spell4(s[4..])
  }

  ghost predicate IsUint32(s: ByteSeq, n: int)
  {
    |s| == 4 && Spell4(s) == n
  }

  /** Two's complement. */
  ghost predicate IsInt32(s: ByteSeq, n: int)
  {
    && -0x8000_0000 <= n < 0x8000_0000
    && IsUint32(s, if n < 0 then n + 0x1_0000_0000 else n)
  }

  ghost predicate IsUint64(s: ByteSeq, n: int)
  {
    |s| == 8 && Spell8(s) == n
  }

  ghost predicate IsInt64(s: ByteSeq, n: int)
  {
    && -0x8000_0000_0000_0000 <= n < 0x8000_0000_0000_0000
    && IsUint64(s, if n < 0 then n + 0x1_0000_0000_0000_0000 else n)
  }

  lemma Spell4IsFromLE(s: ByteSeq)
    requires |s| == 4
    ensures FromLE(s) == Spell4(s)
  {
    assert FromLE(s) == s[0] + 256 * FromLE(s[1..]);
    assert FromLE(s[1..]) == s[1] + 256 * FromLE(s[1..][1..]);
    assert s[1..][1..] == s[2..] && s[2..][1..] == s[3..] && s[3..][1..] == [];
    assert FromLE(s[2..]) == s[2] + 256 * FromLE(s[3..]);
    assert FromLE(s[3..]) == s[3] + 256 * FromLE([]);
  }

  lemma {:induction false} FromLEAppend(a: ByteSeq, b: ByteSeq)
    ensures FromLE(a + b) == FromLE(a) + Range(|a|) * FromLE(b)
  {
    if a == [] {
      assert a + b == b;
    } else {
      FromLEAppend(a[1..], b);
      assert (a + b)[1..] == a[1..] + b;
      Regroup(Range(|a| - 1), FromLE(b));
    }
  }

  lemma Regroup(r: int, n: int)
    ensures 256 * (r * n) == (256 * r) * n
  {
  }

  lemma Spell8IsFromLE(s: ByteSeq)
    requires |s| == 8
    ensures FromLE(s) == Spell8(s)
  {
    Spell4IsFromLE(s[..4]);
    Spell4IsFromLE(s[4..]);
    FromLEAppend(s[..4], s[4..]);
    assert s == s[..4] + s[4..];
    RangeOf4();
  }

  lemma Uint32Is(s: ByteSeq, n: uint32)
    ensures IsUint32(s, n) <==> s == LE(4, n)
  {
    RangeOf4();
    FromLEInvertsLE(4, n);
    Spell4IsFromLE(LE(4, n));
    if |s| == 4 {
      Spell4IsFromLE(s);
      LEInvertsFromLE(s);
    }
  }

  lemma Uint64Is(s: ByteSeq, n: uint64)
    ensures IsUint64(s, n) <==> s == LE(8, n)
  {
    RangeOf8();
    FromLEInvertsLE(8, n);
    Spell8IsFromLE(LE(8, n));
    if |s| == 8 {
      Spell8IsFromLE(s);
      LEInvertsFromLE(s);
    }
  }

  lemma TwosComplement(n: int, m: int)
    requires -m <= n < m
    ensures n % m == if n < 0 then n + m else n
  {
  }

  lemma Int32Is(s: ByteSeq, n: int32)
    ensures IsInt32(s, n) <==> s == Int32LE(n)
  {
    TwosComplement(n, TWO_TO_THE_32);
    Uint32Is(s, n % TWO_TO_THE_32);
  }

  lemma Int64Is(s: ByteSeq, n: int64)
    ensures IsInt64(s, n) <==> s == Int64LE(n)
  {
    TwosComplement(n, TWO_TO_THE_64);
    Uint64Is(s, n % TWO_TO_THE_64);
  }

  /** A length, which has to be below 2^31. */
  lemma LengthIs(s: ByteSeq, n: nat)
    ensures IsInt32(s, n) <==> n < 0x8000_0000 && s == LE(4, n)
  {
    if n < 0x8000_0000 {
      Uint32Is(s, n);
    }
  }

  // --------------------------------------------------------------- productions

  /** string ::= int32 (byte*) "\x00", the number counting the terminator. */
  ghost predicate IsString(s: ByteSeq, text: ByteSeq)
  {
    |s| == 4 + |text| + 1 && IsInt32(s[..4], |text| + 1) && s[4..] == text + [0]
  }

  ghost predicate IsValue(v: Value, s: ByteSeq)
    decreases v, 0
  {
    match v
    case MinKey | MaxKey | Undefined | Null => s == []
    case Double(bits) => IsUint64(s, bits)
    case Str(text) => IsString(s, text)
    case Object(fields) => IsDocument(fields, s)
    case Array(items) => IsDocument(items, s)
    case BinData(subtype, data) =>
      |s| == 4 + 1 + |data| && IsInt32(s[..4], |data|) && s[4] == subtype && s[5..] == data
    case ObjectId(oid) => s == oid
    case Bool(flag) => s == [if flag then 1 else 0]
    case Date(millis) => IsUint64(s, millis)
    case RegEx(pattern, options) => s == pattern + [0] + options + [0]
    case DBRef(ns, ref) => |s| == |ns| + 5 + 12 && IsString(s[..|ns| + 5], ns) && s[|ns| + 5..] == ref
    case Code(code) => IsString(s, code)
    case Symbol(symbol) => IsString(s, symbol)
    case CodeWScope(code, scope) =>
      && |s| >= 4 + (|code| + 5)
      && IsInt32(s[..4], |s|) && IsString(s[4..4 + (|code| + 5)], code) && IsDocument(scope, s[4 + (|code| + 5)..])
    case Int(i) => IsInt32(s, i)
    case Timestamp(seconds, increment) => |s| == 8 && IsUint32(s[..4], increment) && IsUint32(s[4..], seconds)
    case Long(l) => IsInt64(s, l)
  }

  /** element ::= type, cstring, value. */
  ghost predicate IsElement(e: Element, s: ByteSeq)
    decreases e, 1
  {
    var n := |e.name|;
    && |s| >= n + 2
    && s[0] == TypeNumber(e.value) && s[1..n + 1] == e.name && s[n + 1] == 0
    && IsValue(e.value, s[n + 2..])
  }

  /** e_list ::= element e_list, or nothing. */
  ghost predicate IsList(d: Doc, s: ByteSeq)
    decreases d, 2
  {
    if d == [] then s == []
    else exists k :: 0 <= k <= |s| && IsElement(d[0], s[..k]) && IsList(d[1..], s[k..])
  }

  /** document ::= int32 e_list "\x00", the number counting all of it. */
  ghost predicate IsDocument(d: Doc, s: ByteSeq)
    decreases d, 3
  {
    && |s| >= 5
    && IsInt32(s[..4], |s|) && s[|s| - 1] == 0
    && IsList(d, s[4..|s| - 1])
  }

  // --------------------------------------------------- no other bytes than those

  lemma StringIsText(s: ByteSeq, text: ByteSeq)
    requires IsString(s, text)
    ensures s == EncodeText(text)
  {
    LengthIs(s[..4], |text| + 1);
    assert s == s[..4] + s[4..];
  }

  lemma TextIsString(text: ByteSeq)
    requires |text| + 1 < 0x8000_0000
    ensures IsString(EncodeText(text), text)
  {
    var len := LE(4, |text| + 1);
    LengthIs(len, |text| + 1);
    Halves(len, text + [0]);
    assert EncodeText(text) == len + (text + [0]);
  }

  lemma Halves(a: ByteSeq, b: ByteSeq)
    ensures (a + b)[..|a|] == a && (a + b)[|a|..] == b
  {
  }

  lemma TagIsTypeNumber(v: Value)
    ensures Tag(v) == TypeNumber(v)
  {
  }

  lemma {:induction false} OnlyValue(v: Value, s: ByteSeq)
    requires IsValue(v, s)
    ensures s == EncodeValue(v)
    decreases v, 0
  {
    match v
    case Object(fields) => OnlyDocument(fields, s);
    case Array(items) => OnlyDocument(items, s);
    case CodeWScope(code, scope) =>
      OnlyDocument(scope, s[4 + (|code| + 5)..]);
      StringIsText(s[4..4 + (|code| + 5)], code);
      LengthIs(s[..4], |s|);
      OnlyScoped(code, scope, s);
    case _ => OnlyFlat(v, s);
  }

  lemma OnlyScoped(code: ByteSeq, scope: Doc, s: ByteSeq)
    requires |s| >= 4 + (|code| + 5)
    requires s[..4] == LE(4, |s|) && s[4..4 + (|code| + 5)] == EncodeText(code)
    requires s[4 + (|code| + 5)..] == EncodeDoc(scope)
    ensures s == EncodeValue(CodeWScope(code, scope))
  {
    ThreeParts(s, 4, 4 + (|code| + 5));
    ScopedIs(code, scope, |s|);
  }

  lemma ScopedIs(code: ByteSeq, scope: Doc, n: nat)
    requires n == 4 + |EncodeText(code)| + |EncodeDoc(scope)|
    ensures EncodeValue(CodeWScope(code, scope)) == LE(4, n) + EncodeText(code) + EncodeDoc(scope)
  {
  }

  lemma ThreeParts(s: ByteSeq, i: nat, j: nat)
    requires i <= j <= |s|
    ensures s == s[..i] + s[i..j] + s[j..]
  {
  }

  lemma OnlyFlat(v: Value, s: ByteSeq)
    requires IsValue(v, s) && !v.Object? && !v.Array? && !v.CodeWScope?
    ensures s == EncodeValue(v)
  {
    match v
    case Double(bits) => Uint64Is(s, bits);
    case Str(text) => StringIsText(s, text);
    case Code(text) => StringIsText(s, text);
    case Symbol(text) => StringIsText(s, text);
    case BinData(subtype, data) =>
      LengthIs(s[..4], |data|);
      assert s == s[..4] + [s[4]] + s[5..];
    case Date(millis) => Uint64Is(s, millis);
    case DBRef(ns, ref) =>
      StringIsText(s[..|ns| + 5], ns);
      assert s == s[..|ns| + 5] + s[|ns| + 5..];
    case Int(i) => Int32Is(s, i);
    case Timestamp(seconds, increment) =>
      Uint32Is(s[..4], increment);
      Uint32Is(s[4..], seconds);
      assert s == s[..4] + s[4..];
    case Long(l) => Int64Is(s, l);
    case _ =>
  }

  lemma {:induction false} OnlyElement(e: Element, s: ByteSeq)
    requires IsElement(e, s)
    ensures s == EncodeElement(e)
    decreases e, 1
  {
    var n := |e.name|;
    OnlyValue(e.value, s[n + 2..]);
    TagIsTypeNumber(e.value);
    assert s == [s[0]] + s[1..n + 1] + [s[n + 1]] + s[n + 2..];
  }

  lemma {:induction false} OnlyList(d: Doc, s: ByteSeq)
    requires IsList(d, s)
    ensures s == EncodeElements(d)
    decreases d, 2
  {
    if d != [] {
      var k :| 0 <= k <= |s| && IsElement(d[0], s[..k]) && IsList(d[1..], s[k..]);
      OnlyElement(d[0], s[..k]);
      OnlyList(d[1..], s[k..]);
      assert s == s[..k] + s[k..];
    }
  }

  lemma {:induction false} OnlyDocument(d: Doc, s: ByteSeq)
    requires IsDocument(d, s)
    ensures s == EncodeDoc(d)
    decreases d, 3
  {
    var body := s[4..|s| - 1];
    OnlyList(d, body);
    LengthIs(s[..4], |s|);
    assert s == s[..4] + body + [0];
  }

  // ------------------------------------------------------ the encoder writes them

  lemma {:induction false} EncodedValue(v: Value)
    requires |EncodeValue(v)| < 0x8000_0000
    ensures IsValue(v, EncodeValue(v))
    decreases v, 0
  {
    match v
    case Object(fields) => EncodedDocument(fields);
    case Array(items) => EncodedDocument(items);
    case CodeWScope(code, scope) =>
      EncodedDocument(scope);
      EncodedScoped(code, scope);
    case _ => EncodedFlat(v);
  }

  lemma EncodedScoped(code: ByteSeq, scope: Doc)
    requires |EncodeValue(CodeWScope(code, scope))| < 0x8000_0000 && IsDocument(scope, EncodeDoc(scope))
    ensures IsValue(CodeWScope(code, scope), EncodeValue(CodeWScope(code, scope)))
  {
    var n := 4 + |EncodeText(code)| + |EncodeDoc(scope)|;
    ScopedIs(code, scope, n);
    LengthIs(LE(4, n), n);
    TextIsString(code);
    PartsOf(LE(4, n), EncodeText(code), EncodeDoc(scope));
  }

  lemma PartsOf(a: ByteSeq, b: ByteSeq, c: ByteSeq)
    ensures (a + b + c)[..|a|] == a && (a + b + c)[|a|..|a| + |b|] == b && (a + b + c)[|a| + |b|..] == c
  {
  }

  lemma EncodedFlat(v: Value)
    requires |EncodeValue(v)| < 0x8000_0000 && !v.Object? && !v.Array? && !v.CodeWScope?
    ensures IsValue(v, EncodeValue(v))
  {
    match v
    case Double(bits) => Uint64Is(LE(8, bits), bits);
    case Str(text) => TextIsString(text);
    case Code(text) => TextIsString(text);
    case Symbol(text) => TextIsString(text);
    case BinData(subtype, data) =>
      LengthIs(LE(4, |data|), |data|);
      assert EncodeValue(v) == LE(4, |data|) + ([subtype] + data);
      Halves(LE(4, |data|), [subtype] + data);
    case Date(millis) => Uint64Is(LE(8, millis), millis);
    case DBRef(ns, ref) =>
      TextIsString(ns);
      Halves(EncodeText(ns), ref);
    case Int(i) => Int32Is(Int32LE(i), i);
    case Timestamp(seconds, increment) =>
      Uint32Is(LE(4, increment), increment);
      Uint32Is(LE(4, seconds), seconds);
      Halves(LE(4, increment), LE(4, seconds));
    case Long(l) => Int64Is(Int64LE(l), l);
    case _ =>
  }

  lemma {:induction false} EncodedElement(e: Element)
    requires |EncodeElement(e)| < 0x8000_0000
    ensures IsElement(e, EncodeElement(e))
    decreases e, 1
  {
    EncodedValue(e.value);
    TagIsTypeNumber(e.value);
    Halves(Header(Tag(e.value), e.name), EncodeValue(e.value));
    var s := EncodeElement(e);
    assert s[1..|e.name| + 1] == e.name && s[|e.name| + 1] == 0;
  }

  lemma {:induction false} EncodedList(d: Doc)
    requires |EncodeElements(d)| < 0x8000_0000
    ensures IsList(d, EncodeElements(d))
    decreases d, 2
  {
    if d != [] {
      var first, rest := EncodeElement(d[0]), EncodeElements(d[1..]);
      EncodedElement(d[0]);
      EncodedList(d[1..]);
      Halves(first, rest);
      var s := EncodeElements(d);
      assert IsElement(d[0], s[..|first|]) && IsList(d[1..], s[|first|..]);
    }
  }

  lemma {:induction false} EncodedDocument(d: Doc)
    requires |EncodeDoc(d)| < 0x8000_0000
    ensures IsDocument(d, EncodeDoc(d))
    decreases d, 3
  {
    var body := EncodeElements(d);
    EncodedList(d);
    LengthIs(LE(4, |body| + 5), |body| + 5);
    var s := EncodeDoc(d);
    assert s == LE(4, |body| + 5) + (body + [0]);
    Halves(LE(4, |body| + 5), body + [0]);
    assert s[4..|s| - 1] == s[4..][..|body|] == body;
  }

  /** The encoder is the format: the bytes of a document are those it writes, and no others. */
  lemma EncoderIsFormat(d: Doc, s: ByteSeq)
    ensures IsDocument(d, s) <==> s == EncodeDoc(d) && |s| < 0x8000_0000
  {
    if IsDocument(d, s) {
      OnlyDocument(d, s);
    }
    if |EncodeDoc(d)| < 0x8000_0000 {
      EncodedDocument(d);
    }
  }
}
