/**
  The BSON document tree and its encoding (bsonspec.org; restated in
  mongo/bson/bsonobj.h). The encoder here is pure and recursive: it is the
  reference the in-place writer and the reader are measured against.
 */
module Bson {
  import opened Bytes

  /** An ObjectId: twelve uninterpreted bytes. */
  type Oid = s: ByteSeq | |s| == 12 witness [0, 0, 0, 0, 0, 0, 0, 0, 0, 0, 0, 0]

  datatype Value =
    | MinKey
    | Double(bits: uint64)  // the eight payload bytes of the double, uninterpreted
    | Str(text: ByteSeq)
    | Object(fields: Doc)
    | Array(items: Doc)
    | BinData(subtype: Byte, data: ByteSeq)
    | Undefined
    | ObjectId(oid: Oid)
    | Bool(flag: bool)
    | Date(millis: uint64)
    | Null
    | RegEx(pattern: CStr, options: CStr)
    | DBRef(ns: ByteSeq, ref: Oid)
    | Code(code: ByteSeq)
    | Symbol(symbol: ByteSeq)
    | CodeWScope(scopedCode: ByteSeq, scope: Doc)
    | Int(i: int32)
    | Timestamp(seconds: uint32, increment: uint32)
    | Long(l: int64)
    | MaxKey

  datatype Element = Element(name: CStr, value: Value)

  type Doc = seq<Element>

  // enum BSONType, as the byte written by appendNum((char)type)
  const EOO: Byte := 0
  const NUMBER_DOUBLE: Byte := 1
  const STRING: Byte := 2
  const OBJECT: Byte := 3
  const ARRAY: Byte := 4
  const BIN_DATA: Byte := 5
  const UNDEFINED: Byte := 6
  const JST_OID: Byte := 7
  const BOOL: Byte := 8
  const DATE: Byte := 9
  const JST_NULL: Byte := 10
  const REG_EX: Byte := 11
  const DB_REF: Byte := 12
  const CODE: Byte := 13
  const SYMBOL: Byte := 14
  const CODE_W_SCOPE: Byte := 15
  const NUMBER_INT: Byte := 16
  const TIMESTAMP: Byte := 17
  const NUMBER_LONG: Byte := 18
  const MAX_KEY: Byte := 127
  const MIN_KEY: Byte := 255  // (char)-1

  const BYTE_ARRAY_DEPRECATED: Byte := 2

  function Tag(v: Value): (t: Byte)
    ensures t != EOO
  {
    match v
    case MinKey => MIN_KEY
    case Double(_) => NUMBER_DOUBLE
    case Str(_) => STRING
    case Object(_) => OBJECT
    case Array(_) => ARRAY
    case BinData(_, _) => BIN_DATA
    case Undefined => UNDEFINED
    case ObjectId(_) => JST_OID
    case Bool(_) => BOOL
    case Date(_) => DATE
    case Null => JST_NULL
    case RegEx(_, _) => REG_EX
    case DBRef(_, _) => DB_REF
    case Code(_) => CODE
    case Symbol(_) => SYMBOL
    case CodeWScope(_, _) => CODE_W_SCOPE
    case Int(_) => NUMBER_INT
    case Timestamp(_, _) => TIMESTAMP
    case Long(_) => NUMBER_LONG
    case MaxKey => MAX_KEY
  }

  /** A length-prefixed, NUL-terminated string: the layout of String, Code and Symbol. */
  function EncodeText(text: ByteSeq): (s: ByteSeq)
    ensures |s| == 4 + |text| + 1
  {
    LE(4, |text| + 1) + text + [0]
  }

  function EncodeValue(v: Value): ByteSeq
    decreases v, 0
  {
    match v
    case MinKey | MaxKey | Undefined | Null => []
    case Double(bits) => LE(8, bits)
    case Str(text) => EncodeText(text)
    case Object(fields) => EncodeDoc(fields)
    case Array(items) => EncodeDoc(items)
    case BinData(subtype, data) => LE(4, |data|) + [subtype] + data
    case ObjectId(oid) => oid
    case Bool(flag) => [if flag then 1 else 0]
    case Date(millis) => LE(8, millis)
    case RegEx(pattern, options) => pattern + [0] + options + [0]
    case DBRef(ns, ref) => EncodeText(ns) + ref
    case Code(code) => EncodeText(code)
    case Symbol(symbol) => EncodeText(symbol)
    case CodeWScope(code, scope) =>
      LE(4, 4 + |EncodeText(code)| + |EncodeDoc(scope)|) + EncodeText(code) + EncodeDoc(scope)
    case Int(i) => Int32LE(i)
    case Timestamp(seconds, increment) => LE(4, increment) + LE(4, seconds)
    case Long(l) => Int64LE(l)
  }

  /** Type byte, field name and terminator: everything before the value. */
  function Header(tag: Byte, name: ByteSeq): (s: ByteSeq)
    ensures |s| == |name| + 2
  {
    [tag] + name + [0]
  }

  function EncodeElement(e: Element): (s: ByteSeq)
    ensures |s| >= 2 && s[0] == Tag(e.value)
    decreases e, 1
  {
    Header(Tag(e.value), e.name) + EncodeValue(e.value)
  }

  function EncodeElements(d: Doc): ByteSeq
    decreases d, 2
  {
    if d == [] then [] else EncodeElement(d[0]) + EncodeElements(d[1..])
  }

  /** document ::= int32 e_list "\x00"; the length counts itself and the terminator. */
  function EncodeDoc(d: Doc): (s: ByteSeq)
    ensures |s| == |EncodeElements(d)| + 5
    decreases d, 3
  {
    Framed(EncodeElements(d))
  }

  function Framed(body: ByteSeq): (s: ByteSeq)
    ensures |s| == |body| + 5
  {
    LE(4, |body| + 5) + body + [EOO]
  }

  lemma EncodeElementsCons(d: Doc)
    requires d != []
    ensures EncodeElements(d) == EncodeElement(d[0]) + EncodeElements(d[1..])
  {
  }

  lemma {:induction false} EncodeElementsAppend(a: Doc, b: Doc)
    ensures EncodeElements(a + b) == EncodeElements(a) + EncodeElements(b)
  {
    if a == [] {
      assert a + b == b;
    } else {
      EncodeElementsAppend(a[1..], b);
      EncodeElementsCons(a);
      EncodeElementsCons(a + b);
      assert (a + b)[1..] == a[1..] + b && (a + b)[0] == a[0];
      Associative(EncodeElement(a[0]), EncodeElements(a[1..]), EncodeElements(b));
    }
  }

  lemma EncodeElementsOne(e: Element)
    ensures EncodeElements([e]) == EncodeElement(e)
  {
    assert EncodeElements([e]) == EncodeElement(e) + EncodeElements([e][1..]);
    assert [e][1..] == [];
  }

  lemma EncodeElementsSnoc(d: Doc, e: Element)
    ensures EncodeElements(d + [e]) == EncodeElements(d) + EncodeElement(e)
  {
    EncodeElementsAppend(d, [e]);
    EncodeElementsOne(e);
  }

  // -------------------------------------------------------------------- arrays

  /** numStr(): an index in decimal digits. */
  function Decimal(n: nat): (s: CStr)
    ensures s != [] && forall i :: 0 <= i < |s| ==> 48 <= s[i] <= 57
  {
    if n < 10 then [48 + n] else Decimal(n / 10) + [48 + n % 10]
  }

  function ParseDecimal(s: ByteSeq): int
  {
    if s == [] then 0 else 10 * ParseDecimal(s[..|s| - 1]) + s[|s| - 1] - 48
  }

  lemma {:induction false} ParseDecimalBack(n: nat)
    ensures ParseDecimal(Decimal(n)) == n
  {
    if n >= 10 {
      ParseDecimalBack(n / 10);
      assert Decimal(n)[..|Decimal(n)| - 1] == Decimal(n / 10);
    } else {
      assert Decimal(n)[..0] == [];
    }
  }

  /** No leading zeros: a name of several digits starts with another digit. */
  lemma {:induction false} NoLeadingZero(n: nat)
    ensures |Decimal(n)| > 1 ==> Decimal(n)[0] != 48
    ensures |Decimal(n)| == 1 <==> n < 10
  {
    if n >= 10 {
      NoLeadingZero(n / 10);
    }
  }

  /** So the name is the one numeral of the number: digits without a leading zero that count up to it. */
  lemma {:induction false} DecimalIsNumeral(n: nat, s: ByteSeq)
    requires s != [] && (forall i :: 0 <= i < |s| ==> 48 <= s[i] <= 57) && (|s| > 1 ==> s[0] != 48)
    ensures s == Decimal(n) <==> ParseDecimal(s) == n
    decreases |s|
  {
    ParseDecimalBack(n);
    var init, last := s[..|s| - 1], s[|s| - 1];
    if ParseDecimal(s) == n {
      if init == [] {
        assert s == [last];
      } else {
        assert init[0] == s[0];
        NumeralIsPositive(init);
        LastDigit(ParseDecimal(init), last, n);
        DecimalIsNumeral(n / 10, init);
        assert s == init + [last];
      }
    }
  }

  lemma LastDigit(front: int, digit: Byte, n: nat)
    requires front > 0 && 48 <= digit <= 57 && n == 10 * front + digit - 48
    ensures n >= 10 && n / 10 == front && 48 + n % 10 == digit
  {
  }

  lemma {:induction false} NumeralIsPositive(s: ByteSeq)
    requires s != [] && (forall i :: 0 <= i < |s| ==> 48 <= s[i] <= 57) && s[0] != 48
    ensures ParseDecimal(s) > 0
    decreases |s|
  {
    if |s| > 1 {
      NumeralIsPositive(s[..|s| - 1]);
    } else {
      assert s[..0] == [];
    }
  }

  /** An array is a document whose fields are named "0", "1", "2" and so on. */
  function Indexed(items: seq<Value>): (d: Doc)
    ensures |d| == |items|
  {
    seq(|items|, i requires 0 <= i < |items| => Element(Decimal(i), items[i]))
  }

  /** The fields of an array have distinct names. */
  lemma IndexNamesDistinct(items: seq<Value>, i: nat, j: nat)
    requires i < |items| && j < |items|
    ensures Indexed(items)[i].name == Indexed(items)[j].name <==> i == j
  {
    ParseDecimalBack(i);
    ParseDecimalBack(j);
  }

  /** BSONObj::getField: the first field of that name. */
  function GetField(d: Doc, name: ByteSeq): Option<Value>
  {
    if d == [] then None
    else if d[0].name == name then Some(d[0].value)
    else GetField(d[1..], name)
  }
}
