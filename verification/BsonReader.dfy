/**
  Reading BSON back: element sizes, the layout accessors of BSONElement
  (mongo/bson/bsonelement.h) and the iterator over a document
  (mongo/bson/bsonobjiterator.h). A read outside the bytes at hand gives None.
 */
module BsonReader {
  import opened Bytes
  import opened Bson

  /** A 32-bit length, or None when it cannot be read or is negative. */
  function ReadLength(s: ByteSeq): Option<nat>
  {
    if |s| < 4 || ReadInt32(s) < 0 then None else Some(ReadInt32(s))
  }

  predicate HasNoBytes(tag: Byte)
  {
    tag == MIN_KEY || tag == MAX_KEY || tag == UNDEFINED || tag == JST_NULL
  }

  predicate HasEightBytes(tag: Byte)
  {
    tag == NUMBER_DOUBLE || tag == DATE || tag == TIMESTAMP || tag == NUMBER_LONG
  }

  predicate IsText(tag: Byte)
  {
    tag == STRING || tag == CODE || tag == SYMBOL
  }

  predicate IsDocument(tag: Byte)
  {
    tag == OBJECT || tag == ARRAY
  }

  /** The types whose value starts with its own 32-bit length. */
  predicate HasLength(tag: Byte)
  {
    IsText(tag) || IsDocument(tag) || tag == BIN_DATA || tag == DB_REF || tag == CODE_W_SCOPE
  }

  /** The number of bytes a value occupies at the start of `s`, by the layout of its type. */
  function ValueSize(tag: Byte, s: ByteSeq): Option<nat>
  {
    if HasNoBytes(tag) then Some(0)
    else if tag == BOOL then Some(1)
    else if tag == NUMBER_INT then Some(4)
    else if HasEightBytes(tag) then Some(8)
    else if tag == JST_OID then Some(12)
    else if tag == REG_EX then RegExSize(s)
    else if HasLength(tag) then
      match ReadLength(s)
      case None => None
      case Some(n) => Some(n + LengthOverhead(tag))
    else None
  }

  /** What a length prefix leaves out: itself for strings, the subtype, the oid. */
  function LengthOverhead(tag: Byte): nat
  {
    if IsText(tag) then 4
    else if tag == BIN_DATA then 4 + 1
    else if tag == DB_REF then 4 + 12
    else 0
  }

  function RegExSize(s: ByteSeq): Option<nat>
  {
    match StrLen(s)
    case None => None
    case Some(p) =>
      match StrLen(s[p + 1..])
      case None => None
      case Some(q) => Some(p + 1 + q + 1)
  }

  /** BSONElement::size(): type byte, name, terminator and value; an EOO is one byte. */
  function ElementSize(s: ByteSeq): (r: Option<nat>)
    ensures r.Some? ==> 0 < r.value <= |s|
  {
    if s == [] then None
    else if s[0] == EOO then Some(1)
    else
      match StrLen(s[1..])
      case None => None
      case Some(n) =>
        match ValueSize(s[0], s[1 + n + 1..])
        case Some(v) => if 1 + n + 1 + v <= |s| then Some(1 + n + 1 + v) else None
        case None => None
  }

  /** The documents whose encoding a signed 32-bit length can describe. */
  ghost predicate Fits(d: Doc)
  {
    |EncodeDoc(d)| < TWO_TO_THE_31
  }

  ghost predicate ValueFits(v: Value)
  {
    |EncodeValue(v)| < TWO_TO_THE_31
  }

  lemma ReadLengthBack(n: nat, rest: ByteSeq)
    requires n < TWO_TO_THE_31
    ensures ReadLength(LE(4, n) + rest) == Some(n)
  {
    LengthBytes(n);
    ReadLengthFront(LE(4, n), n, rest);
  }

  /** The same for any four bytes that read as `n`. */
  lemma ReadLengthFront(len: ByteSeq, n: nat, rest: ByteSeq)
    requires |len| == 4 && ReadInt32(len) == n
    ensures ReadLength(len + rest) == Some(n)
  {
    ReadInt32Front(len, len + rest);
  }

  lemma RegExSizeBack(pattern: CStr, options: CStr, rest: ByteSeq)
    ensures RegExSize(pattern + [0] + options + [0] + rest) == Some(|pattern| + |options| + 2)
  {
    var s := pattern + [0] + options + [0] + rest;
    assert s == pattern + [0] + (options + [0] + rest);
    StrLenOfCStr(pattern, options + [0] + rest);
    assert s[|pattern| + 1..] == options + [0] + rest;
    StrLenOfCStr(options, rest);
  }

  /** A value that starts with a length: its size is the length and what it leaves out. */
  lemma PrefixedSizeBack(tag: Byte, len: ByteSeq, n: nat, body: ByteSeq)
    requires HasLength(tag) && |len| == 4 && ReadInt32(len) == n
    ensures ValueSize(tag, len + body) == Some(n + LengthOverhead(tag))
  {
    ReadLengthFront(len, n, body);
  }

  lemma TextSizeBack(tag: Byte, text: ByteSeq, rest: ByteSeq)
    requires IsText(tag)
    requires |EncodeText(text)| < TWO_TO_THE_31
    ensures ValueSize(tag, EncodeText(text) + rest) == Some(|EncodeText(text)|)
  {
    LengthBytes(|text| + 1);
    Associative4(LE(4, |text| + 1), text, [0], rest);
    PrefixedSizeBack(tag, LE(4, |text| + 1), |text| + 1, text + [0] + rest);
  }

  lemma DocSizeBack(tag: Byte, body: ByteSeq, rest: ByteSeq)
    requires IsDocument(tag)
    requires |body| + 5 < TWO_TO_THE_31
    ensures ValueSize(tag, Framed(body) + rest) == Some(|Framed(body)|)
  {
    LengthBytes(|body| + 5);
    Associative4(LE(4, |body| + 5), body, [EOO], rest);
    PrefixedSizeBack(tag, LE(4, |body| + 5), |body| + 5, body + [EOO] + rest);
  }

  lemma BinDataSizeBack(len: ByteSeq, subtype: Byte, data: ByteSeq, rest: ByteSeq)
    requires |len| == 4 && ReadInt32(len) == |data|
    ensures ValueSize(BIN_DATA, len + [subtype] + data + rest) == Some(|data| + 5)
  {
    Associative4(len, [subtype], data, rest);
    PrefixedSizeBack(BIN_DATA, len, |data|, [subtype] + data + rest);
  }

  lemma DBRefSizeBack(len: ByteSeq, ns: ByteSeq, ref: Oid, rest: ByteSeq)
    requires |len| == 4 && ReadInt32(len) == |ns| + 1
    ensures ValueSize(DB_REF, len + ns + [0] + ref + rest) == Some(|ns| + 17)
  {
    Associative4(len, ns, [0], ref + rest);
    Associative(len + ns + [0], ref, rest);
    PrefixedSizeBack(DB_REF, len, |ns| + 1, ns + [0] + (ref + rest));
  }

  lemma CodeWScopeSizeBack(len: ByteSeq, text: ByteSeq, scope: ByteSeq, rest: ByteSeq)
    requires |len| == 4 && ReadInt32(len) == 4 + |text| + |scope|
    ensures ValueSize(CODE_W_SCOPE, len + text + scope + rest) == Some(4 + |text| + |scope|)
  {
    Associative4(len, text, scope, rest);
    PrefixedSizeBack(CODE_W_SCOPE, len, 4 + |text| + |scope|, text + scope + rest);
  }

  lemma ScopedSizeBack(v: Value, rest: ByteSeq)
    requires v.CodeWScope? && ValueFits(v)
    ensures ValueSize(Tag(v), EncodeValue(v) + rest) == Some(|EncodeValue(v)|)
  {
    var n := ScopedLayout(v);
    LengthBytes(n);
    CodeWScopeSizeBack(LE(4, n), EncodeText(v.scopedCode), EncodeDoc(v.scope), rest);
  }

  lemma TextValueSizeBack(v: Value, rest: ByteSeq)
    requires IsText(Tag(v)) && ValueFits(v)
    ensures ValueSize(Tag(v), EncodeValue(v) + rest) == Some(|EncodeValue(v)|)
  {
    match v
    case Str(t) => TextSizeBack(STRING, t, rest);
    case Code(t) => TextSizeBack(CODE, t, rest);
    case Symbol(t) => TextSizeBack(SYMBOL, t, rest);
  }

  lemma DocValueSizeBack(v: Value, rest: ByteSeq)
    requires IsDocument(Tag(v)) && ValueFits(v)
    ensures ValueSize(Tag(v), EncodeValue(v) + rest) == Some(|EncodeValue(v)|)
  {
    var d := if v.Object? then v.fields else v.items;
    assert EncodeValue(v) == Framed(EncodeElements(d));
    DocSizeBack(Tag(v), EncodeElements(d), rest);
  }

  lemma OtherSizeBack(v: Value, rest: ByteSeq)
    requires v.RegEx? || v.BinData? || v.DBRef?
    requires ValueFits(v)
    ensures ValueSize(Tag(v), EncodeValue(v) + rest) == Some(|EncodeValue(v)|)
  {
    match v
    case RegEx(p, o) => RegExSizeBack(p, o, rest);
    case BinData(subtype, data) => BinDataValueSizeBack(subtype, data, rest);
    case DBRef(ns, ref) => DBRefValueSizeBack(ns, ref, rest);
  }

  lemma BinDataValueSizeBack(subtype: Byte, data: ByteSeq, rest: ByteSeq)
    requires ValueFits(BinData(subtype, data))
    ensures ValueSize(BIN_DATA, EncodeValue(BinData(subtype, data)) + rest) == Some(|data| + 5)
  {
    LengthBytes(|data|);
    BinDataSizeBack(LE(4, |data|), subtype, data, rest);
  }

  lemma DBRefValueSizeBack(ns: ByteSeq, ref: Oid, rest: ByteSeq)
    requires ValueFits(DBRef(ns, ref))
    ensures ValueSize(DB_REF, EncodeValue(DBRef(ns, ref)) + rest) == Some(|ns| + 17)
  {
    LengthBytes(|ns| + 1);
    DBRefSizeBack(LE(4, |ns| + 1), ns, ref, rest);
  }

  lemma FixedSizeBack(v: Value, rest: ByteSeq)
    requires !HasLength(Tag(v)) && !v.RegEx?
    ensures ValueSize(Tag(v), EncodeValue(v) + rest) == Some(|EncodeValue(v)|)
  {
  }

  /** The size read from an encoded value is its length, whatever follows it. */
  lemma ValueSizeBack(v: Value, rest: ByteSeq)
    requires ValueFits(v)
    ensures ValueSize(Tag(v), EncodeValue(v) + rest) == Some(|EncodeValue(v)|)
  {
    match v
    case Object(_) | Array(_) => DocValueSizeBack(v, rest);
    case Str(_) | Code(_) | Symbol(_) => TextValueSizeBack(v, rest);
    case CodeWScope(_, _) => ScopedSizeBack(v, rest);
    case RegEx(_, _) | BinData(_, _) | DBRef(_, _) => OtherSizeBack(v, rest);
    case _ => FixedSizeBack(v, rest);
  }

  /** Finding the end of the name finds the value. */
  lemma ElementSizeOfHeader(tag: Byte, name: CStr, value: ByteSeq, rest: ByteSeq)
    requires tag != EOO
    requires ValueSize(tag, value + rest) == Some(|value|)
    ensures ElementSize(Header(tag, name) + value + rest) == Some(|Header(tag, name) + value|)
  {
    var s := Header(tag, name) + value + rest;
    assert s[1..] == name + [0] + (value + rest);
    StrLenOfCStr(name, value + rest);
    assert s[1 + |name| + 1..] == value + rest;
  }

  /** size() of an encoded element is exactly its length: the iterator lands on the next one. */
  lemma ElementSizeBack(e: Element, rest: ByteSeq)
    requires ValueFits(e.value)
    ensures ElementSize(EncodeElement(e) + rest) == Some(|EncodeElement(e)|)
  {
    ValueSizeBack(e.value, rest);
    ElementSizeOfHeader(Tag(e.value), e.name, EncodeValue(e.value), rest);
  }

  // ------------------------------------------------------------------ parsing

  /** A length-prefixed string filling `s`: str(), without its terminator. */
  function ParseText(s: ByteSeq): Option<ByteSeq>
  {
    if |s| < 5 || ReadLength(s) != Some(|s| - 4) || s[|s| - 1] != 0 then None
    else Some(s[4..|s| - 1])
  }

  function ParseRegEx(s: ByteSeq): Option<Value>
  {
    match StrLen(s)
    case None => None
    case Some(p) =>
      var t := s[p + 1..];
      match StrLen(t)
      case None => None
      case Some(q) => if q + 1 == |t| then Some(RegEx(s[..p], t[..q])) else None
  }

  function ParseBinData(s: ByteSeq): Option<Value>
  {
    if |s| < 5 || ReadLength(s) != Some(|s| - 5) then None
    else Some(BinData(s[4], s[5..]))
  }

  function ParseDBRef(s: ByteSeq): Option<Value>
  {
    if |s| < 12 then None
    else
      match ParseText(s[..|s| - 12])
      case None => None
      case Some(ns) => Some(DBRef(ns, s[|s| - 12..]))
  }

  /** The types whose value is a fixed number of bytes. */
  function ParseFixed(tag: Byte, s: ByteSeq): Option<Value>
  {
    if HasNoBytes(tag) then
      if s != [] then None
      else Some(if tag == MIN_KEY then MinKey else if tag == MAX_KEY then MaxKey
                else if tag == UNDEFINED then Undefined else Null)
    else if tag == BOOL then
      if |s| == 1 then Some(Bool(s[0] != 0)) else None
    else if tag == NUMBER_INT then
      if |s| == 4 then Some(Int(ReadInt32(s))) else None
    else if tag == JST_OID then
      if |s| == 12 then Some(ObjectId(s)) else None
    else if HasEightBytes(tag) then
      if |s| == 8 then Some(ParseEight(tag, s)) else None
    else None
  }

  /** boolean(): any byte but zero is true. */
  lemma AnyFlagReads(b: Byte)
    ensures ParseFixed(BOOL, [b]) == Some(Bool(b != 0))
  {
  }

  function ParseTextValue(tag: Byte, s: ByteSeq): Option<Value>
    requires IsText(tag)
  {
    match ParseText(s)
    case None => None
    case Some(t) => Some(if tag == STRING then Str(t) else if tag == CODE then Code(t) else Symbol(t))
  }

  /** Every type that does not embed a document. */
  function ParseFlat(tag: Byte, s: ByteSeq): Option<Value>
  {
    if IsText(tag) then ParseTextValue(tag, s)
    else if tag == REG_EX then ParseRegEx(s)
    else if tag == BIN_DATA then ParseBinData(s)
    else if tag == DB_REF then ParseDBRef(s)
    else ParseFixed(tag, s)
  }

  function ParseEight(tag: Byte, s: ByteSeq): Value
    requires |s| == 8
  {
    RangeOf4();
    RangeOf8();
    if tag == NUMBER_DOUBLE then Double(FromLE(s))
    else if tag == DATE then Date(FromLE(s))
    else if tag == NUMBER_LONG then Long(ReadInt64(s))
    else Timestamp(FromLE(s[4..]), FromLE(s[..4]))
  }

  /** The value whose bytes are exactly `s`. */
  function ParseValue(tag: Byte, s: ByteSeq): Option<Value>
    decreases |s|, 1
  {
    if IsDocument(tag) then
      match ParseDoc(s)
      case None => None
      case Some(d) => Some(if tag == OBJECT then Object(d) else Array(d))
    else if tag == CODE_W_SCOPE then ParseCodeWScope(s)
    else ParseFlat(tag, s)
  }

  function ParseCodeWScope(s: ByteSeq): Option<Value>
    decreases |s|, 0
  {
    match SplitScoped(s)
    case None => None
    case Some((code, scope)) =>
      match ParseDoc(scope)
      case None => None
      case Some(d) => Some(CodeWScope(code, d))
  }

  /** The code of a CodeWScope value and the bytes of its scope, by the stored lengths. */
  function SplitScoped(s: ByteSeq): (r: Option<(ByteSeq, ByteSeq)>)
    ensures r.Some? ==> |r.value.1| < |s|
  {
    if |s| < 8 || ReadLength(s) != Some(|s|) then None
    else
      match ReadLength(s[4..])
      case None => None
      case Some(n) =>
        if 4 + 4 + n > |s| then None
        else
          match ParseText(s[4..8 + n])
          case None => None
          case Some(code) => Some((code, s[8 + n..]))
  }

  /** The document whose bytes are exactly `s`. */
  function ParseDoc(s: ByteSeq): Option<Doc>
    decreases |s|, 0
  {
    match DocBody(s)
    case None => None
    case Some(body) => ParseElements(body)
  }

  /** What stands between the length and the terminator of a document. */
  function DocBody(s: ByteSeq): (r: Option<ByteSeq>)
    ensures r.Some? ==> |r.value| < |s|
  {
    if |s| < 5 || ReadLength(s) != Some(|s|) || s[|s| - 1] != EOO then None
    else Some(s[4..|s| - 1])
  }

  function ParseElements(s: ByteSeq): Option<Doc>
    decreases |s|, 2
  {
    if s == [] then Some([])
    else
      match SplitFirst(s)
      case None => None
      case Some(raw) =>
        match (ParseValue(raw.tag, raw.value), ParseElements(s[raw.size..]))
        case (Some(v), Some(d)) => Some([Element(raw.name, v)] + d)
        case _ => None
  }

  /** An element as BSONElement sees it: a type, a name and the bytes of the value. */
  datatype RawElement = RawElement(tag: Byte, name: CStr, value: ByteSeq, size: nat)

  /** The element at the start of `s`; None for an EOO. */
  function SplitFirst(s: ByteSeq): (r: Option<RawElement>)
    ensures r.Some? ==> 0 < r.value.size <= |s| && |r.value.value| < |s|
  {
    match ElementSize(s)
    case None => None
    case Some(n) =>
      if s[0] == EOO then None
      else
        var k := StrLen(s[1..]).value;
        Some(RawElement(s[0], s[1..][..k], s[1 + k + 1..n], n))
  }

  // --------------------------------------------------------------- round trip

  lemma TextLengthBack(text: ByteSeq, rest: ByteSeq)
    requires |EncodeText(text)| < TWO_TO_THE_31
    ensures ReadLength(EncodeText(text) + rest) == Some(|text| + 1)
  {
    assert EncodeText(text) + rest == LE(4, |text| + 1) + (text + [0] + rest);
    ReadLengthBack(|text| + 1, text + [0] + rest);
  }

  lemma ParseTextBack(text: ByteSeq)
    requires |EncodeText(text)| < TWO_TO_THE_31
    ensures ParseText(EncodeText(text)) == Some(text)
  {
    assert EncodeText(text) == LE(4, |text| + 1) + (text + [0]);
    ReadLengthBack(|text| + 1, text + [0]);
  }

  lemma ParseRegExBack(pattern: CStr, options: CStr)
    ensures ParseRegEx(pattern + [0] + options + [0]) == Some(RegEx(pattern, options))
  {
    var s := pattern + [0] + options + [0];
    assert s == pattern + [0] + (options + [0]);
    StrLenOfCStr(pattern, options + [0]);
    assert s[|pattern| + 1..] == options + [0] == options + [0] + [];
    StrLenOfCStr(options, []);
    assert s[..|pattern|] == pattern && (options + [0])[..|options|] == options;
  }

  lemma ParseBinDataBack(subtype: Byte, data: ByteSeq)
    requires |data| < TWO_TO_THE_31
    ensures ParseBinData(LE(4, |data|) + [subtype] + data) == Some(BinData(subtype, data))
  {
    Associative(LE(4, |data|), [subtype], data);
    ReadLengthBack(|data|, [subtype] + data);
  }

  lemma ParseDBRefBack(ns: ByteSeq, ref: Oid)
    requires |EncodeText(ns)| < TWO_TO_THE_31
    ensures ParseDBRef(EncodeText(ns) + ref) == Some(DBRef(ns, ref))
  {
    var s := EncodeText(ns) + ref;
    assert s[..|s| - 12] == EncodeText(ns) && s[|s| - 12..] == ref;
    ParseTextBack(ns);
  }

  lemma ParseEightBack(v: Value)
    requires v.Double? || v.Date? || v.Long? || v.Timestamp?
    ensures |EncodeValue(v)| == 8 && ParseEight(Tag(v), EncodeValue(v)) == v
  {
    RangeOf4();
    RangeOf8();
    match v
    case Double(bits) => FromLEInvertsLE(8, bits);
    case Date(millis) => FromLEInvertsLE(8, millis);
    case Long(l) =>
      ReadInt64Back(l, []);
      assert Int64LE(l) + [] == Int64LE(l);
    case Timestamp(seconds, increment) =>
      FromLEInvertsLE(4, seconds);
      FromLEInvertsLE(4, increment);
      assert EncodeValue(v)[4..] == LE(4, seconds) && EncodeValue(v)[..4] == LE(4, increment);
  }

  ghost predicate Flat(v: Value)
  {
    !v.Object? && !v.Array? && !v.CodeWScope?
  }

  lemma ParseTextValueBack(v: Value)
    requires v.Str? || v.Code? || v.Symbol?
    requires ValueFits(v)
    ensures ParseTextValue(Tag(v), EncodeValue(v)) == Some(v)
  {
    match v
    case Str(t) => ParseTextBack(t);
    case Code(t) => ParseTextBack(t);
    case Symbol(t) => ParseTextBack(t);
  }

  lemma ParseFixedBack(v: Value)
    requires Flat(v) && !HasLength(Tag(v)) && !v.RegEx?
    ensures ParseFixed(Tag(v), EncodeValue(v)) == Some(v)
  {
    match v
    case Int(i) =>
      ReadInt32Back(i, []);
      assert Int32LE(i) + [] == Int32LE(i);
    case Double(_) | Date(_) | Long(_) | Timestamp(_, _) => ParseEightBack(v);
    case _ =>
  }

  lemma ParseFlatBack(v: Value)
    requires Flat(v) && ValueFits(v)
    ensures ParseFlat(Tag(v), EncodeValue(v)) == Some(v)
  {
    if IsText(Tag(v)) {
      ParseTextValueBack(v);
      TextParses(v, EncodeValue(v));
    } else if HasLength(Tag(v)) || v.RegEx? {
      ParsePartedBack(v);
    } else {
      ParseFixedBack(v);
      FixedParses(v, EncodeValue(v));
    }
  }

  lemma ParsePartedBack(v: Value)
    requires (v.RegEx? || v.BinData? || v.DBRef?) && ValueFits(v)
    ensures ParseFlat(Tag(v), EncodeValue(v)) == Some(v)
  {
    match v
    case RegEx(p, o) => RegExFlat(p, o);
    case BinData(subtype, data) => BinDataFlat(subtype, data);
    case DBRef(ns, ref) => DBRefFlat(ns, ref);
  }

  lemma RegExFlat(pattern: CStr, options: CStr)
    ensures ParseFlat(REG_EX, EncodeValue(RegEx(pattern, options))) == Some(RegEx(pattern, options))
  {
    ParseRegExBack(pattern, options);
    PartedFlat(EncodeValue(RegEx(pattern, options)));
  }

  lemma BinDataFlat(subtype: Byte, data: ByteSeq)
    requires ValueFits(BinData(subtype, data))
    ensures ParseFlat(BIN_DATA, EncodeValue(BinData(subtype, data))) == Some(BinData(subtype, data))
  {
    ParseBinDataBack(subtype, data);
    PartedFlat(EncodeValue(BinData(subtype, data)));
  }

  lemma DBRefFlat(ns: ByteSeq, ref: Oid)
    requires ValueFits(DBRef(ns, ref))
    ensures ParseFlat(DB_REF, EncodeValue(DBRef(ns, ref))) == Some(DBRef(ns, ref))
  {
    ParseDBRefBack(ns, ref);
    PartedFlat(EncodeValue(DBRef(ns, ref)));
  }

  /** Which parser the tag selects. */
  lemma PartedFlat(s: ByteSeq)
    ensures ParseFlat(REG_EX, s) == ParseRegEx(s)
    ensures ParseFlat(BIN_DATA, s) == ParseBinData(s)
    ensures ParseFlat(DB_REF, s) == ParseDBRef(s)
  {
  }

  lemma TextParses(v: Value, s: ByteSeq)
    requires IsText(Tag(v)) && ParseTextValue(Tag(v), s) == Some(v)
    ensures ParseFlat(Tag(v), s) == Some(v)
  {
  }

  lemma FixedParses(v: Value, s: ByteSeq)
    requires Flat(v) && !HasLength(Tag(v)) && !v.RegEx? && ParseFixed(Tag(v), s) == Some(v)
    ensures ParseFlat(Tag(v), s) == Some(v)
  {
  }

  lemma {:induction false} ParseValueBack(v: Value)
    requires ValueFits(v)
    ensures ParseValue(Tag(v), EncodeValue(v)) == Some(v)
    decreases v, 0
  {
    match v
    case Object(d) => ParseDocBack(d); DocumentParses(v, EncodeDoc(d), d);
    case Array(d) => ParseDocBack(d); DocumentParses(v, EncodeDoc(d), d);
    case CodeWScope(code, scope) =>
      ParseDocBack(scope);
      ParseScopedBack(v);
      OtherParses(v, EncodeValue(v));
    case _ => ParseFlatBack(v); OtherParses(v, EncodeValue(v));
  }

  lemma DocumentParses(v: Value, s: ByteSeq, d: Doc)
    requires (v == Object(d) || v == Array(d)) && ParseDoc(s) == Some(d)
    ensures ParseValue(Tag(v), s) == Some(v)
  {
  }

  lemma OtherParses(v: Value, s: ByteSeq)
    requires !v.Object? && !v.Array?
    requires if v.CodeWScope? then ParseCodeWScope(s) == Some(v) else ParseFlat(Tag(v), s) == Some(v)
    ensures ParseValue(Tag(v), s) == Some(v)
  {
  }

  lemma ParseScopedBack(v: Value)
    requires v.CodeWScope? && ValueFits(v)
    requires ParseDoc(EncodeDoc(v.scope)) == Some(v.scope)
    ensures ParseCodeWScope(EncodeValue(v)) == Some(v)
  {
    var n := ScopedLayout(v);
    SplitScopedBack(n, v.scopedCode, EncodeDoc(v.scope));
    ScopedParses(EncodeValue(v), v.scopedCode, EncodeDoc(v.scope), v.scope);
  }

  lemma ScopedLayout(v: Value) returns (n: nat)
    requires v.CodeWScope?
    ensures n == 4 + |EncodeText(v.scopedCode)| + |EncodeDoc(v.scope)|
    ensures EncodeValue(v) == LE(4, n) + EncodeText(v.scopedCode) + EncodeDoc(v.scope)
  {
    n := 4 + |EncodeText(v.scopedCode)| + |EncodeDoc(v.scope)|;
  }

  lemma ScopedParses(s: ByteSeq, code: ByteSeq, bytes: ByteSeq, scope: Doc)
    requires SplitScoped(s) == Some((code, bytes)) && ParseDoc(bytes) == Some(scope)
    ensures ParseCodeWScope(s) == Some(CodeWScope(code, scope))
  {
  }

  /** The length-based split is exact for every code, NUL bytes included. */
  lemma SplitScopedBack(n: nat, code: ByteSeq, scope: ByteSeq)
    requires n == 4 + |EncodeText(code)| + |scope| < TWO_TO_THE_31
    ensures SplitScoped(LE(4, n) + EncodeText(code) + scope) == Some((code, scope))
  {
    var text := EncodeText(code);
    var s := LE(4, n) + text + scope;
    assert ReadLength(s) == Some(n) by {
      Associative(LE(4, n), text, scope);
      ReadLengthBack(n, text + scope);
    }
    assert s[4..] == text + scope;
    TextLengthBack(code, scope);
    assert s[4..4 + |text|] == text && s[4 + |text|..] == scope;
    ParseTextBack(code);
  }

  lemma DocBodyBack(body: ByteSeq)
    requires |body| + 5 < TWO_TO_THE_31
    ensures DocBody(Framed(body)) == Some(body)
  {
    var s := Framed(body);
    Associative(LE(4, |s|), body, [EOO]);
    ReadLengthBack(|s|, body + [EOO]);
    assert s[4..|s| - 1] == body;
  }

  /** Parsing an encoded document gives back the document: every field, name and order. */
  lemma {:induction false} ParseDocBack(d: Doc)
    requires Fits(d)
    ensures ParseDoc(EncodeDoc(d)) == Some(d)
    decreases d, 2
  {
    DocBodyBack(EncodeElements(d));
    ParseElementsBack(d);
  }

  lemma {:induction false} ParseElementsBack(d: Doc)
    requires |EncodeElements(d)| < TWO_TO_THE_31
    ensures ParseElements(EncodeElements(d)) == Some(d)
    decreases d, 1
  {
    if d != [] {
      EncodeElementsCons(d);
      var tail := EncodeElements(d[1..]);
      ParseValueBack(d[0].value);
      SplitFirstBack(d[0], tail);
      assert (EncodeElement(d[0]) + tail)[|EncodeElement(d[0])|..] == tail;
      ParseElementsBack(d[1..]);
      assert d == [d[0]] + d[1..];
    }
  }

  /** The first element of a sequence of encoded elements, told apart from the rest. */
  lemma SplitFirstBack(e: Element, tail: ByteSeq)
    requires ValueFits(e.value)
    ensures SplitFirst(EncodeElement(e) + tail)
         == Some(RawElement(Tag(e.value), e.name, EncodeValue(e.value), |EncodeElement(e)|))
  {
    ElementSizeBack(e, tail);
    SplitFirstParts(Tag(e.value), e.name, EncodeValue(e.value), tail);
  }

  lemma SplitFirstParts(tag: Byte, name: CStr, value: ByteSeq, tail: ByteSeq)
    requires tag != EOO
    requires ElementSize(Header(tag, name) + value + tail) == Some(|Header(tag, name) + value|)
    ensures SplitFirst(Header(tag, name) + value + tail)
         == Some(RawElement(tag, name, value, |Header(tag, name) + value|))
  {
    var s := Header(tag, name) + value + tail;
    assert s[1..] == name + [0] + (value + tail);
    StrLenOfCStr(name, value + tail);
    assert s[1 + |name| + 1..|Header(tag, name) + value|] == value;
    assert s[1..][..|name|] == name;
  }

  /** Two documents with the same bytes are the same document. */
  lemma EncodingIsInjective(a: Doc, b: Doc)
    requires Fits(a)
    requires EncodeDoc(a) == EncodeDoc(b)
    ensures a == b
  {
    ParseDocBack(a);
    ParseDocBack(b);
  }
}
