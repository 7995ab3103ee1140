/**
  The generated code itself: the loops that fill builders (Common/BSONCommon.pm)
  and the loops that assign attributes and set `valueApplied`
  (Common/QueryCommon.pm), and the two ends put together over stored bytes.
 */
module SplCodec {
  import opened Bytes
  import opened Bson
  import opened BsonReader
  import opened Spl
  import opened SplRoundTrip
  import opened SplFields

  // ------------------------------------------------------------------- encoder

  /** buildBSONObject: a value to hand to append; None when the emitted code throws. */
  method BuildBSONObject(env: Env, t: Type, v: Val) returns (r: Option<Value>)
    ensures r == Encode(env, t, v)
    decreases t, 0
  {
    match t
    case Prim(p) => r := EncodePrim(env, p, v);
    case ListOf(e) =>
      if v.VList? { r := BuildFromListOrSet(env, e, v.items); } else { r := None; }
    case SetOf(e) =>
      if v.VSet? { r := BuildFromListOrSet(env, e, env.setOrder(v.elems)); } else { r := None; }
    case MapOf(e) =>
      if v.VMap? { r := BuildFromMap(env, e, v.entries, env.keyOrder(v.entries.Keys)); } else { r := None; }
    case Tuple(attrs) =>
      if v.VTuple? { r := BuildFromTuple(env, attrs, v.fields); } else { r := None; }
  }

  /** buildBSONObjectFromListOrSet: one append per value, to an array builder. */
  method BuildFromListOrSet(env: Env, e: Type, values: seq<Val>) returns (r: Option<Value>)
    ensures r == AsArray(EncodeItems(env, e, values))
    decreases e, 1
  {
    var b: seq<Value> := [];
    assert values[..0] == [];
    for i := 0 to |values|
      invariant EncodeItems(env, e, values[..i]) == Some(b)
    {
      ItemsStep(env, e, values, i);
      var value := BuildBSONObject(env, e, values[i]);
      if value.None? {
        ItemsFail(env, e, values, i + 1);
        return None;
      }
      b := b + [value.value];
    }
    assert values[..|values|] == values;
    r := Some(Array(Indexed(b)));
  }

  lemma ItemsStep(env: Env, e: Type, xs: seq<Val>, i: nat)
    requires i < |xs|
    ensures EncodeItems(env, e, xs[..i + 1])
         == (match (EncodeItems(env, e, xs[..i]), Encode(env, e, xs[i]))
             case (Some(vs), Some(v)) => Some(vs + [v])
             case _ => None)
  {
    assert xs[..i + 1][..i] == xs[..i];
  }

  lemma {:induction false} ItemsFail(env: Env, e: Type, xs: seq<Val>, i: nat)
    requires i <= |xs| && EncodeItems(env, e, xs[..i]).None?
    ensures EncodeItems(env, e, xs).None?
    decreases |xs| - i
  {
    if i < |xs| {
      ItemsStep(env, e, xs, i);
      ItemsFail(env, e, xs, i + 1);
    } else {
      assert xs[..i] == xs;
    }
  }

  /** buildBSONObjectFromMap: one append per entry, under its key. */
  method BuildFromMap(env: Env, e: Type, m: map<ByteSeq, Val>, keys: seq<ByteSeq>) returns (r: Option<Value>)
    ensures r == AsObject(EncodeEntries(env, e, m, keys))
    decreases e, 1
  {
    var b: Doc := [];
    assert keys[..0] == [];
    for i := 0 to |keys|
      invariant EncodeEntries(env, e, m, keys[..i]) == Some(b)
    {
      EntriesStep(env, e, m, keys, i);
      if keys[i] !in m || 0 in keys[i] {
        EntriesFail(env, e, m, keys, i + 1);
        return None;
      }
      var value := BuildBSONObject(env, e, m[keys[i]]);
      if value.None? {
        EntriesFail(env, e, m, keys, i + 1);
        return None;
      }
      b := b + [Element(keys[i], value.value)];
    }
    assert keys[..|keys|] == keys;
    r := Some(Object(b));
  }

  lemma EntriesStep(env: Env, e: Type, m: map<ByteSeq, Val>, keys: seq<ByteSeq>, i: nat)
    requires i < |keys|
    ensures EncodeEntries(env, e, m, keys[..i + 1])
         == (match EncodeEntries(env, e, m, keys[..i])
             case None => None
             case Some(d) =>
               if keys[i] !in m || 0 in keys[i] then None
               else
                 match Encode(env, e, m[keys[i]])
                 case None => None
                 case Some(v) => Some(d + [Element(keys[i], v)]))
  {
    assert keys[..i + 1][..i] == keys[..i];
  }

  lemma {:induction false} EntriesFail(env: Env, e: Type, m: map<ByteSeq, Val>, keys: seq<ByteSeq>, i: nat)
    requires i <= |keys| && EncodeEntries(env, e, m, keys[..i]).None?
    ensures EncodeEntries(env, e, m, keys).None?
    decreases |keys| - i
  {
    if i < |keys| {
      EntriesStep(env, e, m, keys, i);
      EntriesFail(env, e, m, keys, i + 1);
    } else {
      assert keys[..i] == keys;
    }
  }

  /** buildBSONObjectFromTuple: the generator unrolls the attributes; here it recurs on them. */
  method BuildFromTuple(env: Env, attrs: seq<Attr>, fields: seq<Val>) returns (r: Option<Value>)
    ensures r == AsObject(EncodeAttrs(env, attrs, fields))
    decreases attrs, 1
  {
    if |attrs| != |fields| {
      return None;
    }
    if attrs == [] {
      return Some(Object([]));
    }
    var value := BuildBSONObject(env, attrs[0].ty, fields[0]);
    var rest := BuildFromTuple(env, attrs[1..], fields[1..]);
    if value.Some? && rest.Some? {
      r := Some(Object([Element(attrs[0].name, value.value)] + rest.value.fields));
    } else {
      r := None;
    }
  }

  // ------------------------------------------------------------------- decoder

  /** handleBSONObject without a name: decodes the element `be` into an attribute. */
  method HandleBSONObject(env: Env, t: Type, attr: Val, be: Value) returns (attr': Val, valueApplied: bool)
    ensures (attr', valueApplied) == Decode(env, t, attr, be)
    decreases t, 0
  {
    attr', valueApplied := attr, false;
    match t
    case Prim(p) =>
      var (value, applied) := DecodePrim(env, p, attr, be);
      attr', valueApplied := value, applied;
    case ListOf(e) =>
      if be.Array? && attr.VList? {
        var items := HandleBSONArray(env, e, attr.items, be.items);
        attr', valueApplied := VList(items), |items| > 0;
      }
    case SetOf(e) =>
      if be.Array? && attr.VSet? {
        var elems := HandleBSONArrayAsSet(env, e, attr.elems, be.items);
        attr', valueApplied := VSet(elems), |elems| > 0;
      }
    case MapOf(e) =>
      if be.Object? && attr.VMap? {
        var entries := HandleBSONObjectAsMap(env, e, attr.entries, be.fields);
        attr', valueApplied := VMap(entries), |entries| > 0;
      }
    case Tuple(attrs) =>
      if be.Object? && attr.VTuple? && |attr.fields| == |attrs| {
        var fields := HandleBSONObjectAsTuple(env, attrs, attr.fields, be.fields);
        attr', valueApplied := VTuple(fields), true;
      }
  }

  /** The iterator loop over an array: each element is decoded afresh, and added if applied. */
  method HandleBSONArray(env: Env, e: Type, acc: seq<Val>, d: Doc) returns (items: seq<Val>)
    ensures items == DecodeItems(env, e, acc, Values(d))
    decreases e, 1
  {
    items := acc;
    var bes := Values(d);
    assert bes[..0] == [];
    for i := 0 to |d|
      invariant items == DecodeItems(env, e, acc, bes[..i])
    {
      var x, valueApplied := HandleBSONObject(env, e, Default(e), d[i].value);
      assert bes[..i + 1][..i] == bes[..i];
      if valueApplied {
        items := items + [x];
      }
    }
    assert bes[..|d|] == bes;
  }

  method HandleBSONArrayAsSet(env: Env, e: Type, acc: set<Val>, d: Doc) returns (elems: set<Val>)
    ensures elems == DecodeElems(env, e, acc, Values(d))
    decreases e, 1
  {
    elems := acc;
    var bes := Values(d);
    assert bes[..0] == [];
    for i := 0 to |d|
      invariant elems == DecodeElems(env, e, acc, bes[..i])
    {
      var x, valueApplied := HandleBSONObject(env, e, Default(e), d[i].value);
      assert bes[..i + 1][..i] == bes[..i];
      if valueApplied {
        elems := elems + {x};
      }
    }
    assert bes[..|d|] == bes;
  }

  /** The iterator loop over an object read as a map. */
  method HandleBSONObjectAsMap(env: Env, e: Type, acc: map<ByteSeq, Val>, d: Doc) returns (entries: map<ByteSeq, Val>)
    ensures entries == DecodeEntries(env, e, acc, d)
    decreases e, 1
  {
    entries := acc;
    assert d[..0] == [];
    for i := 0 to |d|
      invariant entries == DecodeEntries(env, e, acc, d[..i])
    {
      var x, valueApplied := HandleBSONObject(env, e, Default(e), d[i].value);
      assert d[..i + 1][..i] == d[..i];
      if valueApplied {
        entries := entries[d[i].name := x];
      }
    }
    assert d[..|d|] == d;
  }

  /** One block per attribute: hasElement, getField, then the attribute's own decoder. */
  method HandleBSONObjectAsTuple(env: Env, attrs: seq<Attr>, fields: seq<Val>, d: Doc) returns (r: seq<Val>)
    requires |attrs| == |fields|
    ensures r == DecodeFields(env, attrs, fields, d)
    decreases attrs, 1
  {
    if attrs == [] {
      return [];
    }
    var first := fields[0];
    var be := GetField(d, attrs[0].name);
    if be.Some? {
      var valueApplied;
      first, valueApplied := HandleBSONObject(env, attrs[0].ty, first, be.value);
    }
    var rest := HandleBSONObjectAsTuple(env, attrs[1..], fields[1..], d);
    r := [first] + rest;
  }

  // ----------------------------------------------------------------- both ends

  /** buildBSONObjectWithKey: a root object with one field; without a name the value is the root. */
  function BuildRoot(env: Env, name: CStr, t: Type, v: Val): Option<Doc>
  {
    match Encode(env, t, v)
    case None => None
    case Some(value) =>
      if name != [] then Some([Element(name, value)])
      else if value.Object? then Some(value.fields)
      else None
  }

  /**
    initBSONObject and handleBSONObject for one output attribute. When the attribute
    is not a field of the query result, the whole result is wrapped under its name.
   */
  function QueryAttribute(env: Env, name: CStr, notInResult: bool, t: Type, attr: Val, result: Doc): Val
  {
    var bo0 := if notInResult then [Element(name, Object(result))] else result;
    match GetField(bo0, name)
    case None => attr
    case Some(be) => Decode(env, t, attr, be).0
  }

  /**
    Insert, then query: an attribute stored under its name is read back from the
    stored bytes in its normal form.
   */
  lemma StoredAttributeComesBack(env: Env, name: CStr, t: Type, v: Val)
    requires ValidEnv(env) && Typed(t, v) && KeysOk(t, v) && name != []
    requires BuildRoot(env, name, t, v).Some? ==> Fits(BuildRoot(env, name, t, v).value)
    ensures BuildRoot(env, name, t, v).Some?
    ensures var stored := EncodeDoc(BuildRoot(env, name, t, v).value);
            ParseDoc(stored).Some?
            && QueryAttribute(env, name, false, t, Default(t), ParseDoc(stored).value) == Norm(t, v)
  {
    RoundTrip(env, t, v);
    ParseDocBack(BuildRoot(env, name, t, v).value);
  }

  /**
    The same for a tuple stored as the root object, even after other fields were put
    around its own, as the server does with "_id".
   */
  lemma StoredTupleComesBack(env: Env, name: CStr, attrs: seq<Attr>, v: Val, before: Doc, after: Doc)
    requires ValidEnv(env) && Typed(Tuple(attrs), v) && KeysOk(Tuple(attrs), v)
    requires BuildRoot(env, [], Tuple(attrs), v).Some? ==>
               var stored := before + BuildRoot(env, [], Tuple(attrs), v).value + after;
               DistinctFields(stored) && Fits(stored)
    requires forall i :: 0 <= i < |attrs| ==> forall e :: e in before + after ==> e.name != attrs[i].name
    ensures BuildRoot(env, [], Tuple(attrs), v).Some?
    ensures var stored := EncodeDoc(before + BuildRoot(env, [], Tuple(attrs), v).value + after);
            ParseDoc(stored).Some?
            && QueryAttribute(env, name, true, Tuple(attrs), Default(Tuple(attrs)), ParseDoc(stored).value)
            == Norm(Tuple(attrs), v)
  {
    RoundTrip(env, Tuple(attrs), v);
    var own := BuildRoot(env, [], Tuple(attrs), v).value;
    var stored := before + own + after;
    ParseDocBack(stored);
    OwnFieldsDistinct(before, own, after);
    SurroundedIsSameNamed(attrs, before, own, after);
    TupleDependsOnNamedFields(env, attrs, Default(Tuple(attrs)), own, stored);
  }

  lemma OwnFieldsDistinct(before: Doc, own: Doc, after: Doc)
    requires DistinctFields(before + own + after)
    ensures DistinctFields(own)
  {
    var all := before + own + after;
    forall i, j | 0 <= i < j < |own| ensures own[i].name != own[j].name {
      assert all[|before| + i] == own[i] && all[|before| + j] == own[j];
    }
  }

  lemma SurroundedIsSameNamed(attrs: seq<Attr>, before: Doc, own: Doc, after: Doc)
    requires forall i :: 0 <= i < |attrs| ==> forall e :: e in before + after ==> e.name != attrs[i].name
    ensures SameNamed(attrs, own, before + own + after)
  {
    forall i, v | 0 <= i < |attrs|
      ensures Element(attrs[i].name, v) in own <==> Element(attrs[i].name, v) in before + own + after
    {
      var e := Element(attrs[i].name, v);
      assert e !in before + after;
      assert e in before + own + after <==> e in before || e in own || e in after;
    }
  }
}
