/**
  What the generated code stores and what it takes, element by element: the encoder of
  Common/BSONCommon.pm without its decoder, and the decoder of Common/QueryCommon.pm on
  any element a query may return. Types are the numbers of bsonspec.org.
 */
module SplStored {
  import opened Bytes
  import opened Bson
  import opened BsonFormat
  import opened BsonIterator
  import opened BsonReader
  import opened Doubles
  import opened Spl
  import opened SplCodec
  import opened SplRoundTrip

  // -------------------------------------------------------------- what is taken

  /** The types of element an attribute takes a value from. A blob takes none. */
  function Taken(p: Prim): set<int>
  {
    match p
    case Boolean => {8}
    case Enum(_) => {2}
    case Integer(_, _) => {1, 16, 18}
    case Float32 => {1, 16, 18}
    case Float64 => {1, 16, 18}
    case RString => {2}
    case UString => {2}
    case Xml => {2}
    case Time => {9}
    case Blob => {}
  }

  /** The flag is set exactly by those; otherwise the attribute keeps what it held. */
  lemma TakenIff(env: Env, p: Prim, attr: Val, be: Value)
    ensures DecodePrim(env, p, attr, be).1
       <==> TypeNumber(be) in Taken(p) && (p.Enum? ==> be.Str? && be.text in p.names)
    ensures !DecodePrim(env, p, attr, be).1 ==> DecodePrim(env, p, attr, be).0 == attr
  {
  }

  lemma Ranges(i: int)
    ensures InRange(W8, true, i) <==> -128 <= i <= 127
    ensures InRange(W16, true, i) <==> -32768 <= i <= 32767
    ensures InRange(W32, true, i) <==> -2147483648 <= i <= 2147483647
    ensures InRange(W64, true, i) <==> -9223372036854775808 <= i <= 9223372036854775807
    ensures InRange(W8, false, i) <==> 0 <= i <= 255
    ensures InRange(W16, false, i) <==> 0 <= i <= 65535
    ensures InRange(W32, false, i) <==> 0 <= i <= 4294967295
    ensures InRange(W64, false, i) <==> 0 <= i <= 18446744073709551615
  {
  }

  /** A number out of range wraps: the one number in range that differs by a multiple of the modulus. */
  lemma WrapIs(w: Width, signed: bool, i: int)
    ensures InRange(w, signed, WrapTo(w, signed, i))
    ensures WrapTo(w, signed, i) % Modulus(w) == i % Modulus(w)
    ensures InRange(w, signed, i) ==> WrapTo(w, signed, i) == i
  {
    match w
    case W8 =>
    case W16 =>
    case W32 =>
    case W64 =>
  }

  lemma FlagTaken(env: Env, attr: Val, flag: bool)
    ensures DecodePrim(env, Boolean, attr, Bool(flag)) == (VBool(flag), true)
  {
  }

  lemma TextTaken(env: Env, attr: Val, text: ByteSeq)
    ensures DecodePrim(env, RString, attr, Str(text)) == (VText(text), true)
    ensures DecodePrim(env, UString, attr, Str(text)) == (VText(text), true)
    ensures DecodePrim(env, Xml, attr, Str(text)) == (VText(text), true)
    ensures forall names :: text in names ==> DecodePrim(env, Enum(names), attr, Str(text)) == (VEnum(text), true)
  {
  }

  /** An integer attribute wraps a stored integer, and has the runtime convert a double. */
  lemma IntegerTaken(env: Env, w: Width, signed: bool, attr: Val, i: int32, l: int64, bits: uint64)
    ensures DecodePrim(env, Integer(w, signed), attr, Int(i)) == (VInt(WrapTo(w, signed, i)), true)
    ensures DecodePrim(env, Integer(w, signed), attr, Long(l)) == (VInt(WrapTo(w, signed, l)), true)
    ensures DecodePrim(env, Integer(w, signed), attr, Double(bits)) == (VInt(env.doubleToInt(bits, w, signed)), true)
  {
  }

  /** A float attribute gets the double, or the double the runtime makes of a stored integer. */
  lemma FloatTaken(env: Env, attr: Val, i: int32, l: int64, bits: uint64)
    ensures DecodePrim(env, Float64, attr, Int(i)) == (VFloat64(env.intToDouble(i)), true)
    ensures DecodePrim(env, Float64, attr, Long(l)) == (VFloat64(env.intToDouble(l)), true)
    ensures DecodePrim(env, Float64, attr, Double(bits)) == (VFloat64(bits), true)
    ensures DecodePrim(env, Float32, attr, Int(i)) == (VFloat32(env.narrow(env.intToDouble(i))), true)
    ensures DecodePrim(env, Float32, attr, Long(l)) == (VFloat32(env.narrow(env.intToDouble(l))), true)
    ensures DecodePrim(env, Float32, attr, Double(bits)) == (VFloat32(env.narrow(bits)), true)
  {
  }

  /** A timestamp gets the instant, to the millisecond, whatever its sign. */
  lemma TimeTaken(env: Env, attr: Val, millis: uint64)
    ensures var (r, applied) := DecodePrim(env, Time, attr, Date(millis));
            applied && r.VTime? && IsInstant(r.seconds, r.nanos, ToSigned(TWO_TO_THE_64, millis))
  {
    InstantOf(ToSigned(TWO_TO_THE_64, millis));
  }

  /** The parts of a time in milliseconds, both of its sign. */
  predicate IsInstant(seconds: int, nanos: int, millis: int)
  {
    && seconds * 1_000_000_000 + nanos == millis * 1_000_000
    && -1_000_000_000 < nanos < 1_000_000_000
    && (millis >= 0 ==> seconds >= 0 && nanos >= 0) && (millis <= 0 ==> seconds <= 0 && nanos <= 0)
  }

  lemma InstantOf(millis: int)
    ensures IsInstant(FromMillis(millis).0, FromMillis(millis).1, millis)
  {
  }

  /** The conversions of the runtime are exact where they can be. */
  ghost predicate ExactEnv(env: Env)
  {
    && (forall i: int :: -0x20_0000_0000_0000 <= i <= 0x20_0000_0000_0000 ==>
          IsFinite(env.intToDouble(i)) && RealOf(env.intToDouble(i)) == i as real)
    && (forall bits: uint64, w: Width, signed: bool ::
          IsFinite(bits) && RealOf(bits) == RealOf(bits).Floor as real && InRange(w, signed, RealOf(bits).Floor) ==>
            env.doubleToInt(bits, w, signed) == RealOf(bits).Floor)
  }

  /** The element is the number `n`, in whichever of the three types. */
  ghost predicate StandsFor(be: Value, n: int)
  {
    match be
    case Int(i) => i == n
    case Long(l) => l == n
    case Double(bits) => IsFinite(bits) && RealOf(bits) == n as real
    case _ => false
  }

  /** A number that an integer attribute can hold arrives, from every type of number. */
  lemma IntegerArrives(env: Env, w: Width, signed: bool, attr: Val, be: Value, n: int)
    requires ExactEnv(env) && StandsFor(be, n) && InRange(w, signed, n)
    ensures DecodePrim(env, Integer(w, signed), attr, be) == (VInt(n), true)
  {
    WrapIs(w, signed, n);
    if be.Double? {
      assert RealOf(be.bits).Floor == n;
    }
  }

  /** A float64 gets every number up to 2^53 as it is, from every type of number. */
  lemma FloatArrives(env: Env, attr: Val, be: Value, n: int)
    requires ExactEnv(env) && StandsFor(be, n) && -0x20_0000_0000_0000 <= n <= 0x20_0000_0000_0000
    ensures var (r, applied) := DecodePrim(env, Float64, attr, be);
            applied && r.VFloat64? && IsFinite(r.bits64) && RealOf(r.bits64) == n as real
  {
    assert IsFinite(env.intToDouble(n));
  }

  // -------------------------------------------------------- collections and tuples

  /** Lists and sets come from arrays only, maps and tuples from objects only. */
  lemma KindTaken(env: Env, t: Type, attr: Val, be: Value)
    requires !t.Prim?
    ensures TypeNumber(be) != (if t.ListOf? || t.SetOf? then 4 else 3) ==> Decode(env, t, attr, be) == (attr, false)
  {
  }

  /** What the items of an array give, in order, those that apply nothing left out. */
  function Given(env: Env, e: Type, bes: seq<Value>): seq<Val>
  {
    if bes == [] then []
    else
      var (x, applied) := Decode(env, e, Default(e), bes[0]);
      (if applied then [x] else []) + Given(env, e, bes[1..])
  }

  lemma {:induction false} GivenSnoc(env: Env, e: Type, bes: seq<Value>)
    requires bes != []
    ensures var last := Decode(env, e, Default(e), bes[|bes| - 1]);
            Given(env, e, bes) == Given(env, e, bes[..|bes| - 1]) + if last.1 then [last.0] else []
    decreases |bes|
  {
    if |bes| > 1 {
      GivenSnoc(env, e, bes[1..]);
      assert bes[1..][..|bes| - 2] == bes[..|bes| - 1][1..];
    } else {
      assert bes[1..] == [] && bes[..0] == [];
    }
  }

  /** A list keeps what it held and gets what the array gives. */
  lemma {:induction false} ListTakes(env: Env, e: Type, held: seq<Val>, bes: seq<Value>)
    ensures DecodeItems(env, e, held, bes) == held + Given(env, e, bes)
    decreases |bes|
  {
    if bes != [] {
      ListTakes(env, e, held, bes[..|bes| - 1]);
      GivenSnoc(env, e, bes);
    }
  }

  /** So does a set. */
  lemma {:induction false} SetTakes(env: Env, e: Type, held: set<Val>, bes: seq<Value>)
    ensures DecodeElems(env, e, held, bes) == held + set x | x in Given(env, e, bes)
    decreases |bes|
  {
    if bes != [] {
      SetTakes(env, e, held, bes[..|bes| - 1]);
      GivenSnoc(env, e, bes);
      assert forall x :: x in Given(env, e, bes) <==>
        x in Given(env, e, bes[..|bes| - 1])
        || (Decode(env, e, Default(e), bes[|bes| - 1]).1 && x == Decode(env, e, Default(e), bes[|bes| - 1]).0);
    }
  }

  /** In a map the last field of a name that applies something decides; other names keep what they held. */
  lemma {:induction false} MapTakes(env: Env, e: Type, held: map<ByteSeq, Val>, d: Doc, k: ByteSeq)
    ensures HeldUnder(DecodeEntries(env, e, held, d), k)
         == match LastGiven(env, e, d, k)
            case Some(x) => Some(x)
            case None => HeldUnder(held, k)
    decreases |d|
  {
    if d != [] {
      MapTakes(env, e, held, d[..|d| - 1], k);
    }
  }

  function HeldUnder(m: map<ByteSeq, Val>, k: ByteSeq): Option<Val>
  {
    if k in m then Some(m[k]) else None
  }

  function LastGiven(env: Env, e: Type, d: Doc, k: ByteSeq): Option<Val>
  {
    if d == [] then None
    else
      var (x, applied) := Decode(env, e, Default(e), d[|d| - 1].value);
      if d[|d| - 1].name == k && applied then Some(x) else LastGiven(env, e, d[..|d| - 1], k)
  }

  /** Each attribute of a tuple takes the first field of its name; without one it keeps what it held. */
  lemma {:induction false} TupleTakes(env: Env, attrs: seq<Attr>, held: seq<Val>, d: Doc, i: nat)
    requires |held| == |attrs| && i < |attrs|
    ensures DecodeFields(env, attrs, held, d)[i]
         == match GetField(d, attrs[i].name)
            case Some(be) => Decode(env, attrs[i].ty, held[i], be).0
            case None => held[i]
    decreases |attrs|
  {
    if i > 0 {
      TupleTakes(env, attrs[1..], held[1..], d, i - 1);
    }
  }

  /** getField finds the first field of a name. */
  lemma {:induction false} FirstField(d: Doc, k: nat)
    requires k < |d| && forall j :: 0 <= j < k ==> d[j].name != d[k].name
    ensures GetField(d, d[k].name) == Some(d[k].value)
  {
    if k > 0 {
      FirstField(d[1..], k - 1);
    }
  }

  /** A value whose numbers are zero and whose texts and collections are empty, at every depth. */
  ghost predicate IsCleared(t: Type, v: Val)
    decreases t
  {
    match t
    case Prim(Boolean) => v == VBool(false)
    case Prim(Enum(_)) => v == VEnum([])
    case Prim(Integer(_, _)) => v == VInt(0)
    case Prim(Float32) => v == VFloat32(0)
    case Prim(Float64) => v == VFloat64(0)
    case Prim(Time) => v == VTime(0, 0)
    case Prim(Blob) => v == VBlob([])
    case Prim(_) => v == VText([])
    case ListOf(_) => v == VList([])
    case SetOf(_) => v == VSet({})
    case MapOf(_) => v == VMap(map[])
    case Tuple(attrs) =>
      v.VTuple? && |v.fields| == |attrs| && forall i :: 0 <= i < |attrs| ==> IsCleared(attrs[i].ty, v.fields[i])
  }

  lemma {:induction false} DefaultFieldsAt(attrs: seq<Attr>, i: nat)
    requires i < |attrs|
    ensures DefaultFields(attrs)[i] == Default(attrs[i].ty)
  {
    if i > 0 {
      DefaultFieldsAt(attrs[1..], i - 1);
    }
  }

  /** Items are decoded into cleared attributes. */
  lemma {:induction false} DefaultIsCleared(t: Type)
    ensures IsCleared(t, Default(t))
  {
    if t.Tuple? {
      forall i | 0 <= i < |t.attrs| ensures IsCleared(t.attrs[i].ty, DefaultFields(t.attrs)[i]) {
        DefaultFieldsAt(t.attrs, i);
        DefaultIsCleared(t.attrs[i].ty);
      }
    }
  }

  // ------------------------------------------------------------- what is stored

  /** What a value of a primitive type is stored as. A blob is told by the bytes that are written. */
  ghost predicate StoresPrim(env: Env, p: Prim, v: Val, be: Value)
  {
    match p
    case Boolean => v.VBool? && be == Bool(v.flag)
    case Enum(_) => v.VEnum? && be == Str(v.symbol)
    case Integer(W64, _) => v.VInt? && be.Long? && (be.l - v.i) % 0x1_0000_0000_0000_0000 == 0
    case Integer(_, _) => v.VInt? && be.Int? && (be.i - v.i) % 0x1_0000_0000 == 0
    case Float32 => v.VFloat32? && be == Double(env.widen(v.bits32))
    case Float64 => v.VFloat64? && be == Double(v.bits64)
    case Time =>
      && v.VTime? && be.Date?
      && (v.nanos >= 0 ==> (be.millis - (v.seconds * 1000 + v.nanos / 1_000_000)) % 0x1_0000_0000_0000_0000 == 0)
    case Blob =>
      && v.VBlob?
      && (|v.blob| < 0x7FFF_0000 ==> TypeNumber(be) == 5 && StoredBlob(EncodeValue(be)) == Some((0, v.blob)))
    case _ => v.VText? && be == Str(v.text)
  }

  /** The subtype and the data that the bytes of a binary value hold. */
  function StoredBlob(value: ByteSeq): Option<(Byte, ByteSeq)>
  {
    match BinDataClean(value)
    case Some(data) => if |value| > 4 then Some((value[4], data)) else None
    case None => None
  }

  /** The same for every type: collections item by item, maps and tuples name by name. */
  ghost predicate Stores(env: Env, t: Type, v: Val, be: Value)
    decreases t, 0
  {
    match t
    case Prim(p) => StoresPrim(env, p, v, be)
    case ListOf(e) => v.VList? && be.Array? && StoresItems(env, e, v.items, be.items)
    case SetOf(e) => v.VSet? && be.Array? && StoresItems(env, e, env.setOrder(v.elems), be.items)
    case MapOf(e) =>
      && v.VMap? && be.Object?
      && (forall i :: 0 <= i < |be.fields| ==>
            be.fields[i].name in v.entries && Stores(env, e, v.entries[be.fields[i].name], be.fields[i].value))
      && (forall k :: k in v.entries ==> exists i :: 0 <= i < |be.fields| && be.fields[i].name == k)
      && |be.fields| == |v.entries|
    case Tuple(attrs) =>
      && v.VTuple? && be.Object? && |v.fields| == |be.fields| == |attrs|
      && forall i :: 0 <= i < |attrs| ==>
           be.fields[i].name == attrs[i].name && Stores(env, attrs[i].ty, v.fields[i], be.fields[i].value)
  }

  ghost predicate StoresItems(env: Env, e: Type, xs: seq<Val>, items: Doc)
    decreases e, 1
  {
    |items| == |xs| && forall i :: 0 <= i < |xs| ==> items[i].name == Decimal(i) && Stores(env, e, xs[i], items[i].value)
  }

  lemma Congruent(i: int, m: int)
    requires m == 0x1_0000_0000 || m == 0x1_0000_0000_0000_0000
    ensures (ToSigned(m, i % m) - i) % m == 0 && (i % m - i) % m == 0
  {
  }

  lemma PrimStores(env: Env, p: Prim, v: Val, be: Value)
    requires EncodePrim(env, p, v) == Some(be)
    ensures StoresPrim(env, p, v, be)
  {
    match p
    case Integer(w, _) => Congruent(v.i, if w == W64 then TWO_TO_THE_64 else TWO_TO_THE_32);
    case Time => Congruent(ToMillis(v.seconds, v.nanos), TWO_TO_THE_64);
    case Blob => if |v.blob| < 0x7FFF_0000 { BlobBytes(v.blob); }
    case _ =>
  }

  /** The data function stores all the bytes of a blob, and says so in subtype and length. */
  lemma BlobBytes(blob: ByteSeq)
    requires |blob| < 0x7FFF_0000
    ensures StoredBlob(EncodeValue(BinData(0, blob))) == Some((0, blob))
  {
    BinDataReadsBack(0, blob);
    BinDataLayout(0, blob);
  }

  /** Whatever is encoded is stored as it should be, at every depth. */
  lemma {:induction false} EncodeStores(env: Env, t: Type, v: Val, be: Value)
    requires ValidEnv(env) && Encode(env, t, v) == Some(be)
    ensures Stores(env, t, v, be)
    decreases t, 0
  {
    match t
    case Prim(p) => PrimStores(env, p, v, be);
    case ListOf(e) => ItemsStored(env, e, v.items, be);
    case SetOf(e) => ItemsStored(env, e, env.setOrder(v.elems), be);
    case MapOf(e) => EntriesStored(env, e, v.entries, be);
    case Tuple(attrs) => AttrsStored(env, attrs, v, be);
  }

  lemma {:induction false} ItemsStored(env: Env, e: Type, xs: seq<Val>, be: Value)
    requires ValidEnv(env) && AsArray(EncodeItems(env, e, xs)) == Some(be)
    ensures be.Array? && StoresItems(env, e, xs, be.items)
    decreases e, 1
  {
    EncodeItemsAt(env, e, xs);
    forall i | 0 <= i < |xs| ensures be.items[i].name == Decimal(i) && Stores(env, e, xs[i], be.items[i].value) {
      EncodeStores(env, e, xs[i], be.items[i].value);
    }
  }

  lemma {:induction false} EntriesStored(env: Env, e: Type, m: map<ByteSeq, Val>, be: Value)
    requires ValidEnv(env) && AsObject(EncodeEntries(env, e, m, env.keyOrder(m.Keys))) == Some(be)
    ensures Stores(env, MapOf(e), VMap(m), be)
    decreases e, 1
  {
    var keys := env.keyOrder(m.Keys);
    assert Enumerates(keys, m.Keys);
    EncodeEntriesAt(env, e, m, keys);
    forall i | 0 <= i < |keys|
      ensures be.fields[i].name in m && Stores(env, e, m[be.fields[i].name], be.fields[i].value)
    {
      assert keys[i] in m.Keys;
      EncodeStores(env, e, m[keys[i]], be.fields[i].value);
    }
    forall k | k in m ensures exists i :: 0 <= i < |be.fields| && be.fields[i].name == k {
      assert k in keys;
      var i :| 0 <= i < |keys| && keys[i] == k;
      assert be.fields[i].name == k;
    }
    EnumerationLength(keys, m.Keys);
  }

  lemma {:induction false} EnumerationLength<T(!new)>(order: seq<T>, s: set<T>)
    requires Enumerates(order, s)
    ensures |order| == |s|
    decreases |order|
  {
    if order == [] {
      assert s == {};
    } else {
      var last, rest := order[|order| - 1], order[..|order| - 1];
      assert order == rest + [last];
      assert last in s;
      forall x ensures x in rest <==> x in s - {last} {
        assert x in order <==> x in rest || x == last;
        if x in rest {
          var i :| 0 <= i < |rest| && rest[i] == x;
          assert order[i] != order[|order| - 1];
        }
      }
      EnumerationLength(rest, s - {last});
    }
  }

  lemma {:induction false} AttrsStored(env: Env, attrs: seq<Attr>, v: Val, be: Value)
    requires ValidEnv(env) && v.VTuple? && AsObject(EncodeAttrs(env, attrs, v.fields)) == Some(be)
    ensures Stores(env, Tuple(attrs), v, be)
    decreases attrs, 1
  {
    EncodeAttrsAt(env, attrs, v.fields);
    forall i | 0 <= i < |attrs|
      ensures be.fields[i].name == attrs[i].name && Stores(env, attrs[i].ty, v.fields[i], be.fields[i].value)
    {
      EncodeStores(env, attrs[i].ty, v.fields[i], be.fields[i].value);
    }
  }

  /**
    Through the bytes of the stored document: the field of an attribute's key holds
    what its value should be stored as, every blob in it with all its bytes.
   */
  lemma StoredIsStored(env: Env, name: CStr, t: Type, v: Val)
    requires ValidEnv(env) && name != [] && Encode(env, t, v).Some?
    requires Fits([Element(name, Encode(env, t, v).value)])
    ensures BuildRoot(env, name, t, v).Some?
    ensures var stored := ParseDoc(EncodeDoc(BuildRoot(env, name, t, v).value));
            && stored.Some? && |stored.value| == 1 && GetField(stored.value, name).Some?
            && Stores(env, t, v, GetField(stored.value, name).value)
  {
    ParseDocBack(BuildRoot(env, name, t, v).value);
    EncodeStores(env, t, v, Encode(env, t, v).value);
  }

  /** A tuple without a key is the document itself, attribute by attribute. */
  lemma StoredTupleIsStored(env: Env, attrs: seq<Attr>, v: Val)
    requires ValidEnv(env) && Encode(env, Tuple(attrs), v).Some?
    requires var be := Encode(env, Tuple(attrs), v).value; be.Object? ==> Fits(be.fields)
    ensures BuildRoot(env, [], Tuple(attrs), v).Some?
    ensures var stored := ParseDoc(EncodeDoc(BuildRoot(env, [], Tuple(attrs), v).value));
            stored.Some? && Stores(env, Tuple(attrs), v, Object(stored.value))
  {
    EncodeStores(env, Tuple(attrs), v, Encode(env, Tuple(attrs), v).value);
    ParseDocBack(BuildRoot(env, [], Tuple(attrs), v).value);
  }
}
