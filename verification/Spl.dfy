/**
  The SPL types the toolkit converts to and from BSON, their values, and what the
  generated encoder (Common/BSONCommon.pm) and decoder (Common/QueryCommon.pm)
  compute, by recursion on the type as the generators emit them.
 */
module Spl {
  import opened Bytes
  import opened Bson

  datatype Width = W8 | W16 | W32 | W64

  datatype Prim =
    | Boolean
    | Enum(names: set<ByteSeq>)
    | Integer(width: Width, signed: bool)
    | Float32
    | Float64
    | RString
    | UString
    | Xml
    | Time
    | Blob

  /** Bounded lists, sets and maps generate the same code as unbounded ones. */
  datatype Type =
    | Prim(prim: Prim)
    | ListOf(elem: Type)
    | SetOf(elem: Type)
    | MapOf(elem: Type)  // keys are strings
    | Tuple(attrs: seq<Attr>)

  datatype Attr = Attr(name: CStr, ty: Type)

  datatype Val =
    | VBool(flag: bool)
    | VEnum(symbol: ByteSeq)
    | VInt(i: int)
    | VFloat32(bits32: uint32)
    | VFloat64(bits64: uint64)
    | VText(text: ByteSeq)  // ustring and xml as the rstring they convert to
    | VTime(seconds: int, nanos: int)
    | VBlob(blob: ByteSeq)
    | VList(items: seq<Val>)
    | VSet(elems: set<Val>)
    | VMap(entries: map<ByteSeq, Val>)
    | VTuple(fields: seq<Val>)

  /**
    What the generated code leaves to its runtime: the order in which sets and maps
    are traversed, and the conversions between number types.
   */
  datatype Env = Env(
    setOrder: set<Val> -> seq<Val>,
    keyOrder: set<ByteSeq> -> seq<ByteSeq>,
    widen: uint32 -> uint64,
    narrow: uint64 -> uint32,
    doubleToInt: (uint64, Width, bool) -> int,
    intToDouble: int -> uint64
  )

  ghost predicate Enumerates<T(!new)>(order: seq<T>, s: set<T>)
  {
    && (forall x :: x in order <==> x in s)
    && (forall i, j :: 0 <= i < j < |order| ==> order[i] != order[j])
  }

  /** Traversals visit every element once, and a widened float32 narrows back. */
  ghost predicate ValidEnv(env: Env)
  {
    && (forall s :: Enumerates(env.setOrder(s), s))
    && (forall s :: Enumerates(env.keyOrder(s), s))
    && (forall f: uint32 :: env.narrow(env.widen(f)) == f)
  }

  // ------------------------------------------------------------------- numbers

  function Modulus(w: Width): (m: int)
    ensures m > 0
  {
    match w
    case W8 => 0x100
    case W16 => 0x1_0000
    case W32 => 0x1_0000_0000
    case W64 => 0x1_0000_0000_0000_0000
  }

  /** Conversion to an integer type of that width and sign. */
  function WrapTo(w: Width, signed: bool, i: int): int
  {
    var u := i % Modulus(w);
    if signed then ToSigned(Modulus(w), u) else u
  }

  predicate InRange(w: Width, signed: bool, i: int)
  {
    if signed then -Modulus(w) <= 2 * i < Modulus(w) else 0 <= i < Modulus(w)
  }

  /** C++ division: towards zero. */
  function DivTrunc(a: int, b: int): int
    requires b > 0
  {
    if a >= 0 then a / b else -(-a / b)
  }

  function ModTrunc(a: int, b: int): int
    requires b > 0
  {
    a - b * DivTrunc(a, b)
  }

  const MILLI: int := 1_000_000  // nanoseconds

  /** getSeconds() * 1000 + getNanoseconds() / 1000000 */
  function ToMillis(seconds: int, nanos: int): int
  {
    seconds * 1000 + DivTrunc(nanos, MILLI)
  }

  /** The arguments of createTimestamp in the decoder. */
  function FromMillis(millis: int): (int, int)
  {
    (DivTrunc(millis, 1000), ModTrunc(millis, 1000) * 1_000_000)
  }

  // ------------------------------------------------------------------- encoder

  /** BSONCommon::handlePrimitive and the overload of append its result selects. */
  function EncodePrim(env: Env, p: Prim, v: Val): Option<Value>
  {
    match p
    case Boolean => if v.VBool? then Some(Bool(v.flag)) else None
    case Enum(_) => if v.VEnum? then Some(Str(v.symbol)) else None
    case Integer(w, _) =>
      if !v.VInt? then None
      else if w == W64 then Some(EncodeLong(v.i))
      else Some(EncodeInt(v.i))
    case Float32 => if v.VFloat32? then Some(Double(env.widen(v.bits32))) else None
    case Float64 => if v.VFloat64? then Some(Double(v.bits64)) else None
    case RString | UString | Xml => if v.VText? then Some(Str(v.text)) else None
    case Time =>
      if v.VTime? then Some(Date(ToMillis(v.seconds, v.nanos) % TWO_TO_THE_64)) else None
    case Blob => if v.VBlob? then Some(BinData(0, v.blob)) else None
  }

  /** append(name, int), reached by promotion, or by a cast from unsigned. */
  function EncodeInt(i: int): Value
  {
    Int(ToSigned(TWO_TO_THE_32, i % TWO_TO_THE_32))
  }

  function EncodeLong(i: int): Value
  {
    Long(ToSigned(TWO_TO_THE_64, i % TWO_TO_THE_64))
  }

  /** BSONCommon::buildBSONObject; None when a map key makes append throw. */
  function Encode(env: Env, t: Type, v: Val): Option<Value>
    decreases t, 0
  {
    match t
    case Prim(p) => EncodePrim(env, p, v)
    case ListOf(e) => if v.VList? then AsArray(EncodeItems(env, e, v.items)) else None
    case SetOf(e) => if v.VSet? then AsArray(EncodeItems(env, e, env.setOrder(v.elems))) else None
    case MapOf(e) =>
      if v.VMap? then AsObject(EncodeEntries(env, e, v.entries, env.keyOrder(v.entries.Keys))) else None
    case Tuple(attrs) => if v.VTuple? then AsObject(EncodeAttrs(env, attrs, v.fields)) else None
  }

  function AsArray(items: Option<seq<Value>>): Option<Value>
  {
    match items
    case None => None
    case Some(vs) => Some(Array(Indexed(vs)))
  }

  function AsObject(fields: Option<Doc>): Option<Value>
  {
    match fields
    case None => None
    case Some(d) => Some(Object(d))
  }

  function EncodeItems(env: Env, e: Type, xs: seq<Val>): Option<seq<Value>>
    decreases e, 1, |xs|
  {
    if xs == [] then Some([])
    else
      match (EncodeItems(env, e, xs[..|xs| - 1]), Encode(env, e, xs[|xs| - 1]))
      case (Some(vs), Some(v)) => Some(vs + [v])
      case _ => None
  }

  function EncodeEntries(env: Env, e: Type, m: map<ByteSeq, Val>, keys: seq<ByteSeq>): Option<Doc>
    decreases e, 1, |keys|
  {
    if keys == [] then Some([])
    else
      match EncodeEntries(env, e, m, keys[..|keys| - 1])
      case None => None
      case Some(d) =>
        var k := keys[|keys| - 1];
        if k !in m || 0 in k then None  // checkFieldName
        else
          match Encode(env, e, m[k])
          case None => None
          case Some(v) => Some(d + [Element(k, v)])
  }

  function EncodeAttrs(env: Env, attrs: seq<Attr>, fields: seq<Val>): Option<Doc>
    decreases attrs, 0
  {
    if |attrs| != |fields| then None
    else if attrs == [] then Some([])
    else
      match (Encode(env, attrs[0].ty, fields[0]), EncodeAttrs(env, attrs[1..], fields[1..]))
      case (Some(v), Some(d)) => Some([Element(attrs[0].name, v)] + d)
      case _ => None
  }

  // ------------------------------------------------------------------- decoder

  /** BSONElement::isSimpleType(): neither BinData nor Timestamp is one. */
  predicate IsSimpleType(v: Value)
  {
    v.Long? || v.Double? || v.Int? || v.Str? || v.Bool? || v.Date? || v.ObjectId?
  }

  /** The value a default-constructed attribute has. */
  function Default(t: Type): Val
    decreases t, 0
  {
    match t
    case Prim(p) => DefaultPrim(p)
    case ListOf(_) => VList([])
    case SetOf(_) => VSet({})
    case MapOf(_) => VMap(map[])
    case Tuple(attrs) => VTuple(DefaultFields(attrs))
  }

  function DefaultPrim(p: Prim): Val
  {
    match p
    case Boolean => VBool(false)
    case Enum(_) => VEnum([])
    case Integer(_, _) => VInt(0)
    case Float32 => VFloat32(0)
    case Float64 => VFloat64(0)
    case RString | UString | Xml => VText([])
    case Time => VTime(0, 0)
    case Blob => VBlob([])
  }

  function DefaultFields(attrs: seq<Attr>): (r: seq<Val>)
    ensures |r| == |attrs|
    decreases attrs, 0
  {
    if attrs == [] then [] else [Default(attrs[0].ty)] + DefaultFields(attrs[1..])
  }

  /** QueryCommon::handlePrimitive: the attribute's new value and `valueApplied`. */
  function DecodePrim(env: Env, p: Prim, attr: Val, be: Value): (Val, bool)
  {
    if !IsSimpleType(be) then (attr, false)
    else
      match p
      case Boolean => if be.Bool? then (VBool(be.flag), true) else (attr, false)
      case Enum(names) => if be.Str? && be.text in names then (VEnum(be.text), true) else (attr, false)
      case Integer(w, signed) =>
        if be.Double? then (VInt(env.doubleToInt(be.bits, w, signed)), true)
        else if be.Int? then (VInt(WrapTo(w, signed, be.i)), true)
        else if be.Long? then (VInt(WrapTo(w, signed, be.l)), true)
        else (attr, false)
      case Float32 => if IsNumber(be) then (VFloat32(env.narrow(Number(env, be))), true) else (attr, false)
      case Float64 => if IsNumber(be) then (VFloat64(Number(env, be)), true) else (attr, false)
      case RString | UString | Xml => if be.Str? then (VText(be.text), true) else (attr, false)
      case Time =>
        if be.Date? then
          var (seconds, nanos) := FromMillis(ToSigned(TWO_TO_THE_64, be.millis));
          (VTime(seconds, nanos), true)
        else if be.Timestamp? then (VTime(be.seconds, be.increment), true)  // never a simple type
        else (attr, false)
      case Blob => if be.BinData? then (VBlob(be.data), true) else (attr, false)  // nor is this
  }

  predicate IsNumber(be: Value)
  {
    be.Long? || be.Double? || be.Int?
  }

  /** BSONElement::number(). */
  function Number(env: Env, be: Value): uint64
    requires IsNumber(be)
  {
    if be.Double? then be.bits else env.intToDouble(if be.Int? then be.i else be.l)
  }

  /** QueryCommon::handleBSONObject on the element `be`, for an attribute holding `attr`. */
  function Decode(env: Env, t: Type, attr: Val, be: Value): (Val, bool)
    decreases t, 0
  {
    match t
    case Prim(p) => DecodePrim(env, p, attr, be)
    case ListOf(e) =>
      if be.Array? && attr.VList? then
        var items := DecodeItems(env, e, attr.items, Values(be.items));
        (VList(items), |items| > 0)
      else (attr, false)
    case SetOf(e) =>
      if be.Array? && attr.VSet? then
        var elems := DecodeElems(env, e, attr.elems, Values(be.items));
        (VSet(elems), |elems| > 0)
      else (attr, false)
    case MapOf(e) =>
      if be.Object? && attr.VMap? then
        var entries := DecodeEntries(env, e, attr.entries, be.fields);
        (VMap(entries), |entries| > 0)
      else (attr, false)
    case Tuple(attrs) =>
      if be.Object? && attr.VTuple? && |attr.fields| == |attrs| then
        (VTuple(DecodeFields(env, attrs, attr.fields, be.fields)), true)
      else (attr, false)
  }

  function Values(d: Doc): (vs: seq<Value>)
    ensures |vs| == |d| && forall i :: 0 <= i < |d| ==> vs[i] == d[i].value
  {
    seq(|d|, i requires 0 <= i < |d| => d[i].value)
  }

  /** The loop of handleBSONArray: an element that is not applied is not added. */
  function DecodeItems(env: Env, e: Type, acc: seq<Val>, bes: seq<Value>): seq<Val>
    decreases e, 1, |bes|
  {
    if bes == [] then acc
    else
      var sofar := DecodeItems(env, e, acc, bes[..|bes| - 1]);
      var (x, applied) := Decode(env, e, Default(e), bes[|bes| - 1]);
      if applied then sofar + [x] else sofar
  }

  function DecodeElems(env: Env, e: Type, acc: set<Val>, bes: seq<Value>): set<Val>
    decreases e, 1, |bes|
  {
    if bes == [] then acc
    else
      var sofar := DecodeElems(env, e, acc, bes[..|bes| - 1]);
      var (x, applied) := Decode(env, e, Default(e), bes[|bes| - 1]);
      if applied then sofar + {x} else sofar
  }

  /** The loop of handleBSONObjectAsMap. */
  function DecodeEntries(env: Env, e: Type, acc: map<ByteSeq, Val>, d: Doc): map<ByteSeq, Val>
    decreases e, 1, |d|
  {
    if d == [] then acc
    else
      var sofar := DecodeEntries(env, e, acc, d[..|d| - 1]);
      var last := d[|d| - 1];
      var (x, applied) := Decode(env, e, Default(e), last.value);
      if applied then sofar[last.name := x] else sofar
  }

  /** The blocks of handleBSONObjectAsTuple: each attribute is looked up by name. */
  function DecodeFields(env: Env, attrs: seq<Attr>, fields: seq<Val>, d: Doc): (r: seq<Val>)
    requires |attrs| == |fields|
    ensures |r| == |fields|
    decreases attrs, 0
  {
    if attrs == [] then []
    else
      var first :=
        match GetField(d, attrs[0].name)
        case None => fields[0]
        case Some(be) => Decode(env, attrs[0].ty, fields[0], be).0;
      [first] + DecodeFields(env, attrs[1..], fields[1..], d)
  }
}
