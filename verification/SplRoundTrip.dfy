/**
  What survives a trip from SPL to BSON and back (Common/BSONCommon.pm, then
  Common/QueryCommon.pm): a normal form of the value, which is the value itself
  exactly when it was normal to begin with.
 */
module SplRoundTrip {
  import opened Bytes
  import opened Bson
  import opened Spl

  // ------------------------------------------------------------- typed values

  /**
    The timestamps that survive: their milliseconds fit 64 bits, and before 1970
    there are no whole milliseconds beside the seconds. See TimestampSurvivesIff.
   */
  predicate TimeOk(seconds: int, nanos: int)
  {
    && 0 <= nanos < 1_000_000_000
    && (seconds >= 0 || nanos < MILLI)
    && -TWO_TO_THE_63 <= ToMillis(seconds, nanos) < TWO_TO_THE_63
  }

  predicate TypedPrim(p: Prim, v: Val)
  {
    match p
    case Boolean => v.VBool?
    case Enum(names) => v.VEnum? && v.symbol in names
    case Integer(w, signed) => v.VInt? && InRange(w, signed, v.i)
    case Float32 => v.VFloat32?
    case Float64 => v.VFloat64?
    case RString | UString | Xml => v.VText?
    case Time => v.VTime? && TimeOk(v.seconds, v.nanos)
    case Blob => v.VBlob?
  }

  /** `v` is a value of type `t`, and its timestamps are ones that survive. */
  predicate Typed(t: Type, v: Val)
    decreases t
  {
    match t
    case Prim(p) => TypedPrim(p, v)
    case ListOf(e) => v.VList? && forall i :: 0 <= i < |v.items| ==> Typed(e, v.items[i])
    case SetOf(e) => v.VSet? && forall x :: x in v.elems ==> Typed(e, x)
    case MapOf(e) => v.VMap? && forall k :: k in v.entries ==> Typed(e, v.entries[k])
    case Tuple(attrs) =>
      && v.VTuple? && |v.fields| == |attrs|
      && DistinctNames(attrs)
      && forall i :: 0 <= i < |attrs| ==> Typed(attrs[i].ty, v.fields[i])
  }

  predicate DistinctNames(attrs: seq<Attr>)
  {
    forall i, j :: 0 <= i < j < |attrs| ==> attrs[i].name != attrs[j].name
  }

  /** No map key, at any depth, holds a NUL. */
  predicate KeysOk(t: Type, v: Val)
    decreases t
  {
    match t
    case Prim(_) => true
    case ListOf(e) => v.VList? ==> forall i :: 0 <= i < |v.items| ==> KeysOk(e, v.items[i])
    case SetOf(e) => v.VSet? ==> forall x :: x in v.elems ==> KeysOk(e, x)
    case MapOf(e) => v.VMap? ==> forall k :: k in v.entries ==> 0 !in k && KeysOk(e, v.entries[k])
    case Tuple(attrs) =>
      v.VTuple? && |v.fields| == |attrs| ==> forall i :: 0 <= i < |attrs| ==> KeysOk(attrs[i].ty, v.fields[i])
  }

  // --------------------------------------------------------------- normal form

  function NormPrim(p: Prim, v: Val): Val
  {
    if p.Time? && v.VTime? then VTime(v.seconds, v.nanos - v.nanos % MILLI)
    else if p.Blob? then VBlob([])
    else v
  }

  /**
    The value the decoder rebuilds: timestamps cut to the millisecond, blobs
    dropped, and in lists, sets and maps no entry that decodes to nothing.
   */
  function Norm(t: Type, v: Val): Val
    decreases t, 0
  {
    match t
    case Prim(p) => NormPrim(p, v)
    case ListOf(e) => if v.VList? then VList(NormItems(e, v.items)) else v
    case SetOf(e) => if v.VSet? then VSet(set x | x in v.elems && Visible(e, x) :: Norm(e, x)) else v
    case MapOf(e) =>
      if v.VMap? then VMap(map k | k in v.entries && Visible(e, v.entries[k]) :: Norm(e, v.entries[k])) else v
    case Tuple(attrs) =>
      if v.VTuple? && |v.fields| == |attrs| then VTuple(NormFields(attrs, v.fields)) else v
  }

  function NormItems(e: Type, xs: seq<Val>): seq<Val>
    decreases e, 2, |xs|
  {
    if xs == [] then []
    else
      var last := xs[|xs| - 1];
      NormItems(e, xs[..|xs| - 1]) + if Visible(e, last) then [Norm(e, last)] else []
  }

  function NormFields(attrs: seq<Attr>, fields: seq<Val>): (r: seq<Val>)
    requires |attrs| == |fields|
    ensures |r| == |fields|
    decreases attrs, 0
  {
    if attrs == [] then []
    else [Norm(attrs[0].ty, fields[0])] + NormFields(attrs[1..], fields[1..])
  }

  /** Whether decoding the encoded value sets `valueApplied`. */
  predicate Visible(t: Type, v: Val)
    decreases t, 1
  {
    match t
    case Prim(p) => !p.Blob?
    case ListOf(e) => v.VList? && exists i :: 0 <= i < |v.items| && Visible(e, v.items[i])
    case SetOf(e) => v.VSet? && exists x :: x in v.elems && Visible(e, x)
    case MapOf(e) => v.VMap? && exists k :: k in v.entries && Visible(e, v.entries[k])
    case Tuple(_) => true
  }

  // ------------------------------------------------------- primitive round trip

  lemma WrapToOfInt(w: Width, signed: bool, i: int)
    requires w != W64 && InRange(w, signed, i)
    ensures WrapTo(w, signed, ToSigned(TWO_TO_THE_32, i % TWO_TO_THE_32)) == i
  {
  }

  lemma WrapToOfLong(signed: bool, i: int)
    requires InRange(W64, signed, i)
    ensures WrapTo(W64, signed, ToSigned(TWO_TO_THE_64, i % TWO_TO_THE_64)) == i
  {
  }

  /**
    The decoder divides towards zero, so it gives back the instant, cut to the
    millisecond, exactly when the seconds are not negative or there are no whole
    milliseconds beside them.
   */
  lemma MillisBackIff(seconds: int, nanos: int)
    requires 0 <= nanos < 1_000_000_000
    ensures FromMillis(ToMillis(seconds, nanos)) == (seconds, nanos - nanos % MILLI)
       <==> seconds >= 0 || nanos < MILLI
  {
    var k := nanos / MILLI;
    var millis := seconds * 1000 + k;
    if seconds < 0 && k > 0 {
      assert -millis == (-seconds - 1) * 1000 + (1000 - k);
      assert -millis / 1000 == -seconds - 1;
    } else if seconds < 0 {
      assert -millis / 1000 == -seconds;
    }
  }

  /** The eight bytes of a date hold its milliseconds exactly when 64 signed bits do. */
  lemma DateBackIff(millis: int)
    ensures ToSigned(TWO_TO_THE_64, millis % TWO_TO_THE_64) == millis
       <==> -TWO_TO_THE_63 <= millis < TWO_TO_THE_63
  {
  }

  /**
    Over all timestamps: what the decoder makes of the encoded one is the same
    instant, cut to the millisecond, if and only if its milliseconds fit 64 bits and,
    before 1970, there are no whole milliseconds beside the seconds.
   */
  lemma TimestampSurvivesIff(env: Env, seconds: int, nanos: int)
    requires 0 <= nanos < 1_000_000_000
    ensures EncodePrim(env, Time, VTime(seconds, nanos)).Some?
    ensures DecodePrim(env, Time, VTime(0, 0), EncodePrim(env, Time, VTime(seconds, nanos)).value)
         == (NormPrim(Time, VTime(seconds, nanos)), true)
       <==> (seconds >= 0 || nanos < MILLI) && -TWO_TO_THE_63 <= ToMillis(seconds, nanos) < TWO_TO_THE_63
  {
    var millis := ToMillis(seconds, nanos);
    var stored := ToSigned(TWO_TO_THE_64, millis % TWO_TO_THE_64);
    TimeDecodes(env, seconds, nanos);
    DateBackIff(millis);
    MillisBackIff(seconds, nanos);
    if stored != millis && FromMillis(stored) == (seconds, nanos - nanos % MILLI) {
      WrappedIsFarAway(seconds, nanos, stored);
    }
  }

  /** Encoding, then decoding, in terms of the stored milliseconds. */
  lemma TimeDecodes(env: Env, seconds: int, nanos: int)
    ensures EncodePrim(env, Time, VTime(seconds, nanos)).Some?
    ensures var (s, n) := FromMillis(ToSigned(TWO_TO_THE_64, ToMillis(seconds, nanos) % TWO_TO_THE_64));
            DecodePrim(env, Time, VTime(0, 0), EncodePrim(env, Time, VTime(seconds, nanos)).value) == (VTime(s, n), true)
  {
  }

  /** Milliseconds that wrapped cannot lead back to the seconds they came from. */
  lemma WrappedIsFarAway(seconds: int, nanos: int, stored: int)
    requires 0 <= nanos < 1_000_000_000
    requires FromMillis(stored) == (seconds, nanos - nanos % MILLI)
    ensures stored == ToMillis(seconds, nanos)
  {
    var rest := ModTrunc(stored, 1000);
    assert rest * MILLI == nanos - nanos % MILLI == MILLI * (nanos / MILLI);
    assert rest == nanos / MILLI;
    assert stored == 1000 * DivTrunc(stored, 1000) + rest;
  }

  /** A witness: half a second before 1970 comes back after it, with negative nanoseconds. */
  lemma NegativeTimestampIsLost(env: Env)
    ensures EncodePrim(env, Time, VTime(-1, 500_000_000)).Some?
    ensures DecodePrim(env, Time, VTime(0, 0), EncodePrim(env, Time, VTime(-1, 500_000_000)).value)
         == (VTime(0, -500_000_000), true)
  {
    TimeDecodes(env, -1, 500_000_000);
    assert ToMillis(-1, 500_000_000) == -500;
  }

  lemma IntegerRoundTrip(env: Env, w: Width, signed: bool, v: Val)
    requires TypedPrim(Integer(w, signed), v)
    ensures EncodePrim(env, Integer(w, signed), v).Some?
    ensures DecodePrim(env, Integer(w, signed), VInt(0), EncodePrim(env, Integer(w, signed), v).value) == (v, true)
  {
    if w == W64 { WrapToOfLong(signed, v.i); } else { WrapToOfInt(w, signed, v.i); }
  }

  lemma TimeRoundTrip(env: Env, v: Val)
    requires TypedPrim(Time, v)
    ensures EncodePrim(env, Time, v).Some?
    ensures DecodePrim(env, Time, VTime(0, 0), EncodePrim(env, Time, v).value) == (NormPrim(Time, v), true)
  {
    TimestampSurvivesIff(env, v.seconds, v.nanos);
  }

  lemma PrimRoundTrip(env: Env, p: Prim, v: Val)
    requires ValidEnv(env) && TypedPrim(p, v)
    ensures EncodePrim(env, p, v).Some?
    ensures DecodePrim(env, p, DefaultPrim(p), EncodePrim(env, p, v).value)
         == (NormPrim(p, v), Visible(Prim(p), v))
  {
    match p
    case Integer(w, signed) => IntegerRoundTrip(env, w, signed, v);
    case Time => TimeRoundTrip(env, v);
    case _ =>
  }

  // ------------------------------------------------------------ loops, pointwise

  lemma {:induction false} EncodeItemsAt(env: Env, e: Type, xs: seq<Val>)
    ensures EncodeItems(env, e, xs).Some? <==> forall i :: 0 <= i < |xs| ==> Encode(env, e, xs[i]).Some?
    ensures EncodeItems(env, e, xs).Some? ==>
              var vs := EncodeItems(env, e, xs).value;
              |vs| == |xs| && forall i :: 0 <= i < |xs| ==> Encode(env, e, xs[i]) == Some(vs[i])
    decreases |xs|
  {
    if xs != [] {
      var init := xs[..|xs| - 1];
      EncodeItemsAt(env, e, init);
      assert xs == init + [xs[|xs| - 1]];
    }
  }

  /** Element i of the array decodes to what element i of the list normalises to. */
  ghost predicate ItemsDecode(env: Env, e: Type, xs: seq<Val>, vs: seq<Value>)
  {
    |xs| == |vs|
    && forall i :: 0 <= i < |xs| ==> Decode(env, e, Default(e), vs[i]) == (Norm(e, xs[i]), Visible(e, xs[i]))
  }

  lemma {:induction false} DecodeItemsNorm(env: Env, e: Type, xs: seq<Val>, vs: seq<Value>)
    requires ItemsDecode(env, e, xs, vs)
    ensures DecodeItems(env, e, [], vs) == NormItems(e, xs)
    decreases |xs|
  {
    if xs != [] {
      DecodeItemsNorm(env, e, xs[..|xs| - 1], vs[..|vs| - 1]);
    }
  }

  lemma {:induction false} NormItemsEmptyIff(e: Type, xs: seq<Val>)
    ensures NormItems(e, xs) != [] <==> exists i :: 0 <= i < |xs| && Visible(e, xs[i])
    decreases |xs|
  {
    if xs != [] {
      var init := xs[..|xs| - 1];
      NormItemsEmptyIff(e, init);
      forall i | 0 <= i < |init| ensures xs[i] == init[i] {}
    }
  }

  ghost function NormElems(e: Type, s: set<Val>): set<Val>
  {
    set x | x in s && Visible(e, x) :: Norm(e, x)
  }

  ghost function Members<T>(s: seq<T>): set<T>
  {
    set x | x in s
  }

  ghost function Image<A(!new), B>(p: A -> bool, f: A -> B, s: set<A>): set<B>
  {
    set x | x in s && p(x) :: f(x)
  }

  lemma ImageAdd<A(!new), B>(p: A -> bool, f: A -> B, s: set<A>, x: A)
    ensures Image(p, f, s + {x}) == Image(p, f, s) + (if p(x) then {f(x)} else {})
  {
    if p(x) {
      assert x in s + {x};
    }
  }

  lemma NormElemsIsImage(e: Type, s: set<Val>)
    ensures NormElems(e, s) == Image(x => Visible(e, x), x => Norm(e, x), s)
  {
  }

  lemma NormElemsAdd(e: Type, s: set<Val>, x: Val)
    ensures NormElems(e, s + {x}) == NormElems(e, s) + (if Visible(e, x) then {Norm(e, x)} else {})
  {
    NormElemsIsImage(e, s);
    NormElemsIsImage(e, s + {x});
    ImageAdd(y => Visible(e, y), y => Norm(e, y), s, x);
  }

  lemma MembersSnoc<T>(s: seq<T>)
    requires s != []
    ensures Members(s) == Members(s[..|s| - 1]) + {s[|s| - 1]}
  {
    assert s == s[..|s| - 1] + [s[|s| - 1]];
  }

  lemma {:induction false} DecodeElemsNorm(env: Env, e: Type, xs: seq<Val>, vs: seq<Value>)
    requires ItemsDecode(env, e, xs, vs)
    ensures DecodeElems(env, e, {}, vs) == NormElems(e, Members(xs))
    decreases |xs|
  {
    if xs != [] {
      DecodeElemsNorm(env, e, xs[..|xs| - 1], vs[..|vs| - 1]);
      MembersSnoc(xs);
      NormElemsAdd(e, Members(xs[..|xs| - 1]), xs[|xs| - 1]);
    }
  }

  lemma {:induction false} EncodeEntriesAt(env: Env, e: Type, m: map<ByteSeq, Val>, keys: seq<ByteSeq>)
    requires forall k :: k in keys ==> k in m
    ensures EncodeEntries(env, e, m, keys).Some?
       <==> forall k :: k in keys ==> 0 !in k && Encode(env, e, m[k]).Some?
    ensures EncodeEntries(env, e, m, keys).Some? ==>
              var d := EncodeEntries(env, e, m, keys).value;
              |d| == |keys| && forall i :: 0 <= i < |keys| ==>
                d[i].name == keys[i] && Encode(env, e, m[keys[i]]) == Some(d[i].value)
    decreases |keys|
  {
    if keys != [] {
      var init := keys[..|keys| - 1];
      EncodeEntriesAt(env, e, m, init);
      assert keys == init + [keys[|keys| - 1]];
    }
  }

  /** Field i of the object decodes to what the value under key i normalises to. */
  ghost predicate EntriesDecode(env: Env, e: Type, m: map<ByteSeq, Val>, keys: seq<ByteSeq>, d: Doc)
  {
    && |keys| == |d|
    && (forall k :: k in keys ==> k in m)
    && forall i :: 0 <= i < |keys| ==>
         d[i].name == keys[i]
         && Decode(env, e, Default(e), d[i].value) == (Norm(e, m[keys[i]]), Visible(e, m[keys[i]]))
  }

  ghost function NormEntries(e: Type, m: map<ByteSeq, Val>, keys: set<ByteSeq>): map<ByteSeq, Val>
  {
    map k | k in keys && k in m && Visible(e, m[k]) :: Norm(e, m[k])
  }

  lemma NormEntriesAdd(e: Type, m: map<ByteSeq, Val>, keys: set<ByteSeq>, k: ByteSeq)
    requires k in m
    ensures NormEntries(e, m, keys + {k})
         == if Visible(e, m[k]) then NormEntries(e, m, keys)[k := Norm(e, m[k])] else NormEntries(e, m, keys)
  {
  }

  lemma {:induction false} DecodeEntriesNorm(env: Env, e: Type, m: map<ByteSeq, Val>, keys: seq<ByteSeq>, d: Doc)
    requires EntriesDecode(env, e, m, keys, d)
    ensures DecodeEntries(env, e, map[], d) == NormEntries(e, m, Members(keys))
    decreases |keys|
  {
    if keys != [] {
      var last := keys[|keys| - 1];
      DecodeEntriesNorm(env, e, m, keys[..|keys| - 1], d[..|d| - 1]);
      MembersSnoc(keys);
      assert last in keys;
      NormEntriesAdd(e, m, Members(keys[..|keys| - 1]), last);
    }
  }

  lemma {:induction false} EncodeAttrsAt(env: Env, attrs: seq<Attr>, fields: seq<Val>)
    requires |attrs| == |fields|
    ensures EncodeAttrs(env, attrs, fields).Some?
       <==> forall i :: 0 <= i < |attrs| ==> Encode(env, attrs[i].ty, fields[i]).Some?
    ensures EncodeAttrs(env, attrs, fields).Some? ==>
              var d := EncodeAttrs(env, attrs, fields).value;
              |d| == |attrs| && forall i :: 0 <= i < |attrs| ==>
                d[i].name == attrs[i].name && Encode(env, attrs[i].ty, fields[i]) == Some(d[i].value)
    decreases |attrs|
  {
    if attrs != [] {
      EncodeAttrsAt(env, attrs[1..], fields[1..]);
      forall i | 0 < i < |attrs|
        ensures attrs[i] == attrs[1..][i - 1] && fields[i] == fields[1..][i - 1]
      {
      }
    }
  }

  /** Looking a field up finds it when the names are distinct. */
  lemma {:induction false} GetFieldAt(d: Doc, k: nat)
    requires k < |d|
    requires forall i, j :: 0 <= i < j < |d| ==> d[i].name != d[j].name
    ensures GetField(d, d[k].name) == Some(d[k].value)
  {
    if k > 0 {
      GetFieldAt(d[1..], k - 1);
    }
  }

  lemma {:induction false} DecodeFieldsNorm(env: Env, attrs: seq<Attr>, fields: seq<Val>, d: Doc)
    requires |attrs| == |fields|
    requires forall i :: 0 <= i < |attrs| ==>
               GetField(d, attrs[i].name).Some?
               && Decode(env, attrs[i].ty, Default(attrs[i].ty), GetField(d, attrs[i].name).value).0
               == Norm(attrs[i].ty, fields[i])
    ensures DecodeFields(env, attrs, DefaultFields(attrs), d) == NormFields(attrs, fields)
    decreases |attrs|
  {
    if attrs != [] {
      forall i | 0 < i < |attrs|
        ensures attrs[i] == attrs[1..][i - 1] && fields[i] == fields[1..][i - 1]
      {
      }
      DecodeFieldsNorm(env, attrs[1..], fields[1..], d);
    }
  }

  // ---------------------------------------------------------------- the round trip

  /**
    Encoding throws exactly when a map key holds a NUL. Otherwise decoding what was
    encoded, into a cleared attribute, yields the normal form of the value, and sets
    `valueApplied` exactly when the value is visible.
   */
  lemma {:induction false} RoundTrip(env: Env, t: Type, v: Val)
    requires ValidEnv(env) && Typed(t, v)
    ensures Encode(env, t, v).Some? <==> KeysOk(t, v)
    ensures KeysOk(t, v) ==> Decode(env, t, Default(t), Encode(env, t, v).value) == (Norm(t, v), Visible(t, v))
    decreases t
  {
    match t
    case Prim(p) => PrimRoundTrip(env, p, v);
    case ListOf(e) =>
      forall i | 0 <= i < |v.items| ensures Returns(env, e, v.items[i]) { RoundTrip(env, e, v.items[i]); }
      ListRoundTrip(env, e, v);
    case SetOf(e) =>
      forall x | x in v.elems ensures Returns(env, e, x) { RoundTrip(env, e, x); }
      SetRoundTrip(env, e, v);
    case MapOf(e) =>
      forall k | k in v.entries ensures Returns(env, e, v.entries[k]) { RoundTrip(env, e, v.entries[k]); }
      MapRoundTrip(env, e, v);
    case Tuple(attrs) =>
      forall i | 0 <= i < |attrs| ensures Returns(env, attrs[i].ty, v.fields[i]) {
        RoundTrip(env, attrs[i].ty, v.fields[i]);
      }
      TupleRoundTrip(env, attrs, v);
  }

  /** The claim of RoundTrip for one value. */
  ghost predicate Returns(env: Env, t: Type, v: Val)
  {
    && (Encode(env, t, v).Some? <==> KeysOk(t, v))
    && (KeysOk(t, v) ==>
          Decode(env, t, Default(t), Encode(env, t, v).value) == (Norm(t, v), Visible(t, v)))
  }

  /** The encodings of a sequence of values decode, item by item, to their normal forms. */
  lemma ItemsReturn(env: Env, e: Type, xs: seq<Val>)
    requires forall i :: 0 <= i < |xs| ==> Returns(env, e, xs[i])
    ensures EncodeItems(env, e, xs).Some? <==> forall i :: 0 <= i < |xs| ==> KeysOk(e, xs[i])
    ensures EncodeItems(env, e, xs).Some? ==>
              var vs := EncodeItems(env, e, xs).value;
              ItemsDecode(env, e, xs, vs) && Values(Indexed(vs)) == vs
  {
    EncodeItemsAt(env, e, xs);
  }

  lemma ListRoundTrip(env: Env, e: Type, v: Val)
    requires Typed(ListOf(e), v)
    requires forall i :: 0 <= i < |v.items| ==> Returns(env, e, v.items[i])
    ensures Returns(env, ListOf(e), v)
  {
    ItemsReturn(env, e, v.items);
    var encoded := EncodeItems(env, e, v.items);
    if encoded.Some? {
      ListDecodes(env, e, v.items, encoded.value);
    }
  }

  lemma ListDecodes(env: Env, e: Type, xs: seq<Val>, vs: seq<Value>)
    requires Values(Indexed(vs)) == vs && ItemsDecode(env, e, xs, vs)
    ensures Decode(env, ListOf(e), Default(ListOf(e)), Array(Indexed(vs)))
         == (Norm(ListOf(e), VList(xs)), Visible(ListOf(e), VList(xs)))
  {
    DecodeItemsNorm(env, e, xs, vs);
    NormItemsEmptyIff(e, xs);
  }

  lemma SetRoundTrip(env: Env, e: Type, v: Val)
    requires ValidEnv(env) && Typed(SetOf(e), v)
    requires forall x :: x in v.elems ==> Returns(env, e, x)
    ensures Returns(env, SetOf(e), v)
  {
    var xs := env.setOrder(v.elems);
    assert Enumerates(xs, v.elems);
    SetItemsReturn(env, e, v, xs);
    var encoded := EncodeItems(env, e, xs);
    if encoded.Some? {
      SetDecodes(env, e, v.elems, encoded.value);
    }
  }

  lemma SetItemsReturn(env: Env, e: Type, v: Val, xs: seq<Val>)
    requires v.VSet? && Enumerates(xs, v.elems)
    requires forall x :: x in v.elems ==> Returns(env, e, x)
    ensures EncodeItems(env, e, xs).Some? <==> KeysOk(SetOf(e), v)
    ensures EncodeItems(env, e, xs).Some? ==>
              var vs := EncodeItems(env, e, xs).value;
              Values(Indexed(vs)) == vs && DecodeElems(env, e, {}, vs) == NormElems(e, v.elems)
  {
    forall i | 0 <= i < |xs| ensures Returns(env, e, xs[i]) { assert xs[i] in xs; }
    ItemsReturn(env, e, xs);
    KeysOkInOrder(e, v, xs);
    if EncodeItems(env, e, xs).Some? {
      DecodeElemsNorm(env, e, xs, EncodeItems(env, e, xs).value);
      assert Members(xs) == v.elems;
    }
  }

  lemma SetDecodes(env: Env, e: Type, s: set<Val>, vs: seq<Value>)
    requires Values(Indexed(vs)) == vs && DecodeElems(env, e, {}, vs) == NormElems(e, s)
    ensures Decode(env, SetOf(e), Default(SetOf(e)), Array(Indexed(vs)))
         == (Norm(SetOf(e), VSet(s)), Visible(SetOf(e), VSet(s)))
  {
    NormElemsEmptyIff(e, s);
  }

  lemma KeysOkInOrder(e: Type, v: Val, xs: seq<Val>)
    requires v.VSet? && Enumerates(xs, v.elems)
    ensures KeysOk(SetOf(e), v) <==> forall i :: 0 <= i < |xs| ==> KeysOk(e, xs[i])
  {
    forall i | 0 <= i < |xs| ensures xs[i] in v.elems { assert xs[i] in xs; }
    forall x | x in v.elems ensures exists i :: 0 <= i < |xs| && xs[i] == x { assert x in xs; }
  }

  lemma NormElemsEmptyIff(e: Type, s: set<Val>)
    ensures |NormElems(e, s)| > 0 <==> exists x :: x in s && Visible(e, x)
  {
    if x :| x in s && Visible(e, x) {
      assert Norm(e, x) in NormElems(e, s);
    } else {
      assert NormElems(e, s) == {};
    }
  }

  /** The fields of an encoded map decode, key by key, to the normal forms of its values. */
  lemma EntriesReturn(env: Env, e: Type, m: map<ByteSeq, Val>, keys: seq<ByteSeq>)
    requires Enumerates(keys, m.Keys)
    requires forall k :: k in m ==> Returns(env, e, m[k])
    ensures EncodeEntries(env, e, m, keys).Some? <==> forall k :: k in m ==> 0 !in k && KeysOk(e, m[k])
    ensures EncodeEntries(env, e, m, keys).Some? ==>
              EntriesDecode(env, e, m, keys, EncodeEntries(env, e, m, keys).value)
  {
    assert forall k :: k in keys <==> k in m;
    EncodeEntriesAt(env, e, m, keys);
    forall i | 0 <= i < |keys| ensures keys[i] in m { assert keys[i] in keys; }
  }

  lemma MapRoundTrip(env: Env, e: Type, v: Val)
    requires ValidEnv(env) && Typed(MapOf(e), v)
    requires forall k :: k in v.entries ==> Returns(env, e, v.entries[k])
    ensures Returns(env, MapOf(e), v)
  {
    var m := v.entries;
    var keys := env.keyOrder(m.Keys);
    assert Enumerates(keys, m.Keys);
    EntriesReturn(env, e, m, keys);
    var encoded := EncodeEntries(env, e, m, keys);
    if encoded.Some? {
      DecodeEntriesNorm(env, e, m, keys, encoded.value);
      assert Members(keys) == m.Keys;
      MapDecodes(env, e, m, encoded.value);
    }
  }

  lemma MapDecodes(env: Env, e: Type, m: map<ByteSeq, Val>, d: Doc)
    requires DecodeEntries(env, e, map[], d) == NormEntries(e, m, m.Keys)
    ensures Decode(env, MapOf(e), Default(MapOf(e)), Object(d))
         == (Norm(MapOf(e), VMap(m)), Visible(MapOf(e), VMap(m)))
  {
    assert NormEntries(e, m, m.Keys) == Norm(MapOf(e), VMap(m)).entries;
    NormEntriesEmptyIff(e, m);
  }

  lemma NormEntriesEmptyIff(e: Type, m: map<ByteSeq, Val>)
    ensures |NormEntries(e, m, m.Keys)| > 0 <==> exists k :: k in m && Visible(e, m[k])
  {
    if k :| k in m && Visible(e, m[k]) {
      assert k in NormEntries(e, m, m.Keys);
    } else {
      assert NormEntries(e, m, m.Keys) == map[];
    }
  }

  lemma TupleRoundTrip(env: Env, attrs: seq<Attr>, v: Val)
    requires Typed(Tuple(attrs), v)
    requires forall i :: 0 <= i < |attrs| ==> Returns(env, attrs[i].ty, v.fields[i])
    ensures Returns(env, Tuple(attrs), v)
  {
    EncodeAttrsAt(env, attrs, v.fields);
    if KeysOk(Tuple(attrs), v) {
      var d := EncodeAttrs(env, attrs, v.fields).value;
      forall i | 0 <= i < |attrs|
        ensures GetField(d, attrs[i].name) == Some(d[i].value)
      {
        GetFieldAt(d, i);
      }
      DecodeFieldsNorm(env, attrs, v.fields, d);
    }
  }
}
