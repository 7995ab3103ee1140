/**
  What a decode depends on (Common/QueryCommon.pm): a tuple only on the fields it
  names, in whatever order and company they come; and an attribute that nothing
  was applied to keeps its value.
 */
module SplFields {
  import opened Bytes
  import opened Bson
  import opened Spl

  /**
    The decoder for `t` cannot tell the two values apart: nested tuples may differ
    in the order of their fields and in fields `t` does not name, maps in the order
    of distinctly named entries, arrays in the names of their items.
   */
  ghost predicate Alike(t: Type, a: Value, b: Value)
    decreases t, 0
  {
    match t
    case Prim(_) => a == b
    case ListOf(e) => a == b || (a.Array? && b.Array? && ItemwiseAlike(e, a.items, b.items))
    case SetOf(e) => a == b || (a.Array? && b.Array? && ItemwiseAlike(e, a.items, b.items))
    case MapOf(e) =>
      || a == b
      || (a.Object? && b.Object?
          && (|| (ItemwiseAlike(e, a.fields, b.fields)
                  && forall i :: 0 <= i < |a.fields| ==> a.fields[i].name == b.fields[i].name)
              || (&& DistinctFields(a.fields) && DistinctFields(b.fields)
                  && NamewiseAlike(e, a.fields, b.fields))))
    case Tuple(attrs) =>
      || a == b
      || (a.Object? && b.Object?
          && forall i :: 0 <= i < |attrs| ==>
               match (GetField(a.fields, attrs[i].name), GetField(b.fields, attrs[i].name))
               case (None, None) => true
               case (Some(x), Some(y)) => Alike(attrs[i].ty, x, y)
               case _ => false)
  }

  ghost predicate ItemwiseAlike(e: Type, a: Doc, b: Doc)
    decreases e, 1
  {
    |a| == |b| && forall i :: 0 <= i < |a| ==> Alike(e, a[i].value, b[i].value)
  }

  /** The same names, and under each of them values that are alike. */
  ghost predicate NamewiseAlike(e: Type, a: Doc, b: Doc)
    decreases e, 1
  {
    forall k: ByteSeq ::
      match (GetField(a, k), GetField(b, k))
      case (None, None) => true
      case (Some(x), Some(y)) => Alike(e, x, y)
      case _ => false
  }

  /** Values that are alike decode alike, whatever the attribute held before. */
  lemma {:induction false} AlikeDecodeAlike(env: Env, t: Type, attr: Val, a: Value, b: Value)
    requires Alike(t, a, b)
    ensures Decode(env, t, attr, a) == Decode(env, t, attr, b)
    decreases t, 0
  {
    if a != b {
      match t
      case Prim(_) =>
      case ListOf(e) =>
        ItemsAlike(env, e, a.items, b.items);
        if attr.VList? { SameItems(env, e, attr.items, Values(a.items), Values(b.items)); }
      case SetOf(e) =>
        ItemsAlike(env, e, a.items, b.items);
        if attr.VSet? { SameElems(env, e, attr.elems, Values(a.items), Values(b.items)); }
      case MapOf(e) =>
        if attr.VMap? { EntriesAlike(env, e, attr.entries, a, b); }
      case Tuple(attrs) =>
        if attr.VTuple? && |attr.fields| == |attrs| {
          forall i | 0 <= i < |attrs|
            ensures FieldDecodesAlike(env, attrs[i], attr.fields[i], a.fields, b.fields)
          {
            var x, y := GetField(a.fields, attrs[i].name), GetField(b.fields, attrs[i].name);
            if x.Some? {
              AlikeDecodeAlike(env, attrs[i].ty, attr.fields[i], x.value, y.value);
            }
          }
          SameFields(env, attrs, attr.fields, a.fields, b.fields);
        }
    }
  }

  lemma {:induction false} EntriesAlike(env: Env, e: Type, acc: map<ByteSeq, Val>, a: Value, b: Value)
    requires a.Object? && b.Object? && a != b && Alike(MapOf(e), a, b)
    ensures DecodeEntries(env, e, acc, a.fields) == DecodeEntries(env, e, acc, b.fields)
    decreases e, 2
  {
    if ItemwiseAlike(e, a.fields, b.fields)
       && forall i :: 0 <= i < |a.fields| ==> a.fields[i].name == b.fields[i].name {
      ItemsAlike(env, e, a.fields, b.fields);
      SameEntries(env, e, acc, a.fields, b.fields);
    } else {
      forall k: ByteSeq
        ensures EntryDecoded(env, e, acc, GetField(a.fields, k), k) == EntryDecoded(env, e, acc, GetField(b.fields, k), k)
      {
        var x, y := GetField(a.fields, k), GetField(b.fields, k);
        if x.Some? {
          AlikeDecodeAlike(env, e, Default(e), x.value, y.value);
        }
      }
      SameLookups(env, e, acc, a.fields, b.fields);
    }
  }

  /** What a map holds under `k` once an object with (or without) a field of that name is decoded into it. */
  function EntryDecoded(env: Env, e: Type, acc: map<ByteSeq, Val>, field: Option<Value>, k: ByteSeq): Option<Val>
  {
    var held := if k in acc then Some(acc[k]) else None;
    match field
    case None => held
    case Some(v) => if Decode(env, e, Default(e), v).1 then Some(Decode(env, e, Default(e), v).0) else held
  }

  /** With distinct names, what a map holds under a name depends only on the field of that name. */
  lemma {:induction false} DecodedByName(env: Env, e: Type, acc: map<ByteSeq, Val>, d: Doc, k: ByteSeq)
    requires DistinctFields(d)
    ensures var m := DecodeEntries(env, e, acc, d);
            (if k in m then Some(m[k]) else None) == EntryDecoded(env, e, acc, GetField(d, k), k)
    decreases |d|
  {
    if d != [] {
      DecodedByName(env, e, acc, d[..|d| - 1], k);
      LookupSnoc(d, k);
    }
  }

  lemma {:induction false} LookupSnoc(d: Doc, k: ByteSeq)
    requires d != [] && DistinctFields(d)
    ensures var init, last := d[..|d| - 1], d[|d| - 1];
            && GetField(d, k) == (if last.name == k then Some(last.value) else GetField(init, k))
            && (last.name == k ==> GetField(init, k) == None)
    decreases |d|
  {
    if |d| > 1 {
      LookupSnoc(d[1..], k);
      assert d[1..][..|d| - 2] == d[..|d| - 1][1..];
    }
  }

  lemma SameLookups(env: Env, e: Type, acc: map<ByteSeq, Val>, a: Doc, b: Doc)
    requires DistinctFields(a) && DistinctFields(b)
    requires forall k: ByteSeq ::
               EntryDecoded(env, e, acc, GetField(a, k), k) == EntryDecoded(env, e, acc, GetField(b, k), k)
    ensures DecodeEntries(env, e, acc, a) == DecodeEntries(env, e, acc, b)
  {
    var m, n := DecodeEntries(env, e, acc, a), DecodeEntries(env, e, acc, b);
    forall k: ByteSeq
      ensures k in m <==> k in n
      ensures k in m ==> m[k] == n[k]
    {
      DecodedByName(env, e, acc, a, k);
      DecodedByName(env, e, acc, b, k);
      assert EntryDecoded(env, e, acc, GetField(a, k), k) == EntryDecoded(env, e, acc, GetField(b, k), k);
    }
    assert m == n;
  }

  lemma {:induction false} ItemsAlike(env: Env, e: Type, a: Doc, b: Doc)
    requires ItemwiseAlike(e, a, b)
    ensures forall i :: 0 <= i < |a| ==> Decode(env, e, Default(e), a[i].value) == Decode(env, e, Default(e), b[i].value)
    decreases e, 1
  {
    forall i | 0 <= i < |a|
      ensures Decode(env, e, Default(e), a[i].value) == Decode(env, e, Default(e), b[i].value)
    {
      AlikeDecodeAlike(env, e, Default(e), a[i].value, b[i].value);
    }
  }

  lemma {:induction false} SameItems(env: Env, e: Type, acc: seq<Val>, a: seq<Value>, b: seq<Value>)
    requires |a| == |b|
    requires forall i :: 0 <= i < |a| ==> Decode(env, e, Default(e), a[i]) == Decode(env, e, Default(e), b[i])
    ensures DecodeItems(env, e, acc, a) == DecodeItems(env, e, acc, b)
    decreases |a|
  {
    if a != [] {
      SameItems(env, e, acc, a[..|a| - 1], b[..|b| - 1]);
    }
  }

  lemma {:induction false} SameElems(env: Env, e: Type, acc: set<Val>, a: seq<Value>, b: seq<Value>)
    requires |a| == |b|
    requires forall i :: 0 <= i < |a| ==> Decode(env, e, Default(e), a[i]) == Decode(env, e, Default(e), b[i])
    ensures DecodeElems(env, e, acc, a) == DecodeElems(env, e, acc, b)
    decreases |a|
  {
    if a != [] {
      SameElems(env, e, acc, a[..|a| - 1], b[..|b| - 1]);
    }
  }

  lemma {:induction false} SameEntries(env: Env, e: Type, acc: map<ByteSeq, Val>, a: Doc, b: Doc)
    requires |a| == |b|
    requires forall i :: 0 <= i < |a| ==>
               a[i].name == b[i].name
               && Decode(env, e, Default(e), a[i].value) == Decode(env, e, Default(e), b[i].value)
    ensures DecodeEntries(env, e, acc, a) == DecodeEntries(env, e, acc, b)
    decreases |a|
  {
    if a != [] {
      SameEntries(env, e, acc, a[..|a| - 1], b[..|b| - 1]);
    }
  }

  ghost predicate FieldDecodesAlike(env: Env, attr: Attr, held: Val, a: Doc, b: Doc)
  {
    match (GetField(a, attr.name), GetField(b, attr.name))
    case (None, None) => true
    case (Some(x), Some(y)) => Decode(env, attr.ty, held, x) == Decode(env, attr.ty, held, y)
    case _ => false
  }

  lemma {:induction false} SameFields(env: Env, attrs: seq<Attr>, fields: seq<Val>, a: Doc, b: Doc)
    requires |attrs| == |fields|
    requires forall i :: 0 <= i < |attrs| ==> FieldDecodesAlike(env, attrs[i], fields[i], a, b)
    ensures DecodeFields(env, attrs, fields, a) == DecodeFields(env, attrs, fields, b)
    decreases |attrs|
  {
    if attrs != [] {
      forall i | 0 <= i < |attrs| - 1
        ensures FieldDecodesAlike(env, attrs[1..][i], fields[1..][i], a, b)
      {
        assert FieldDecodesAlike(env, attrs[i + 1], fields[i + 1], a, b);
      }
      SameFields(env, attrs[1..], fields[1..], a, b);
      assert FieldDecodesAlike(env, attrs[0], fields[0], a, b);
    }
  }

  // ------------------------------------------------------- reordering and extras

  ghost predicate DistinctFields(d: Doc)
  {
    forall i, j :: 0 <= i < j < |d| ==> d[i].name != d[j].name
  }

  /** With distinct names, a lookup is membership: position does not matter. */
  lemma {:induction false} LookupIsMembership(d: Doc, name: CStr, v: Value)
    requires DistinctFields(d)
    ensures GetField(d, name) == Some(v) <==> Element(name, v) in d
  {
    if d != [] {
      LookupIsMembership(d[1..], name, v);
      assert d == [d[0]] + d[1..];
    }
  }

  /** The same elements under the names the tuple has; anything else may differ. */
  ghost predicate SameNamed(attrs: seq<Attr>, a: Doc, b: Doc)
  {
    forall i, v :: 0 <= i < |attrs| ==> (Element(attrs[i].name, v) in a <==> Element(attrs[i].name, v) in b)
  }

  lemma LookupsAgree(a: Doc, b: Doc, name: CStr)
    requires DistinctFields(a) && DistinctFields(b)
    requires forall v :: Element(name, v) in a <==> Element(name, v) in b
    ensures GetField(a, name) == GetField(b, name)
  {
    var x, y := GetField(a, name), GetField(b, name);
    if x.Some? {
      LookupIsMembership(a, name, x.value);
      LookupIsMembership(b, name, x.value);
    }
    if y.Some? {
      LookupIsMembership(a, name, y.value);
      LookupIsMembership(b, name, y.value);
    }
  }

  lemma {:induction false} AlikeReflexive(t: Type, a: Value)
    ensures Alike(t, a, a)
  {
    match t
    case Prim(_) =>
    case _ =>
  }

  /**
    Permuting the fields of an object, or adding fields the tuple does not name,
    such as "_id", leaves the decoded tuple as it was.
   */
  lemma TupleDependsOnNamedFields(env: Env, attrs: seq<Attr>, attr: Val, a: Doc, b: Doc)
    requires DistinctFields(a) && DistinctFields(b)
    requires SameNamed(attrs, a, b)
    ensures Alike(Tuple(attrs), Object(a), Object(b))
    ensures Decode(env, Tuple(attrs), attr, Object(a)) == Decode(env, Tuple(attrs), attr, Object(b))
  {
    forall i | 0 <= i < |attrs|
      ensures GetField(a, attrs[i].name) == GetField(b, attrs[i].name)
      ensures GetField(a, attrs[i].name).Some? ==>
                Alike(attrs[i].ty, GetField(a, attrs[i].name).value, GetField(b, attrs[i].name).value)
    {
      LookupsAgree(a, b, attrs[i].name);
      if GetField(a, attrs[i].name).Some? {
        AlikeReflexive(attrs[i].ty, GetField(a, attrs[i].name).value);
      }
    }
    AlikeDecodeAlike(env, Tuple(attrs), attr, Object(a), Object(b));
  }

  /** A permutation is a special case. */
  lemma PermutationIsSameNamed(attrs: seq<Attr>, a: Doc, b: Doc)
    requires DistinctFields(a) && multiset(a) == multiset(b)
    ensures DistinctFields(b) && SameNamed(attrs, a, b)
  {
    forall e: Element ensures e in a <==> e in b {
      assert e in a <==> e in multiset(a);
      assert e in b <==> e in multiset(b);
    }
    forall i, j | 0 <= i < j < |b| ensures b[i].name != b[j].name {
      if b[i].name == b[j].name {
        SameNameSameElement(a, b[i], b[j]);
        RepeatCounts(b, i, j);
        DistinctCounts(a, b[i]);
      }
    }
  }

  lemma LookupNamed(d: Doc, k: ByteSeq)
    requires GetField(d, k).Some?
    ensures 0 !in k
  {
  }

  /** Permuting the distinctly named entries of a map leaves the decoded map as it was. */
  lemma MapDependsOnEntries(env: Env, e: Type, attr: Val, a: Doc, b: Doc)
    requires DistinctFields(a) && multiset(a) == multiset(b)
    ensures Alike(MapOf(e), Object(a), Object(b))
    ensures Decode(env, MapOf(e), attr, Object(a)) == Decode(env, MapOf(e), attr, Object(b))
  {
    PermutationIsSameNamed([], a, b);
    forall x: Element ensures x in a <==> x in b {
      assert x in a <==> x in multiset(a);
      assert x in b <==> x in multiset(b);
    }
    forall k: ByteSeq
      ensures GetField(a, k) == GetField(b, k)
      ensures GetField(a, k).Some? ==> Alike(e, GetField(a, k).value, GetField(b, k).value)
    {
      if 0 in k {
        if GetField(a, k).Some? { LookupNamed(a, k); }
        if GetField(b, k).Some? { LookupNamed(b, k); }
      } else {
        LookupsAgree(a, b, k);
      }
      if GetField(a, k).Some? {
        AlikeReflexive(e, GetField(a, k).value);
      }
    }
    AlikeDecodeAlike(env, MapOf(e), attr, Object(a), Object(b));
  }

  lemma SameNameSameElement(a: Doc, x: Element, y: Element)
    requires DistinctFields(a) && x in a && y in a && x.name == y.name
    ensures x == y
  {
  }

  lemma RepeatCounts(d: Doc, i: nat, j: nat)
    requires i < j < |d| && d[i] == d[j]
    ensures multiset(d)[d[i]] >= 2
  {
    assert d == d[..j] + [d[j]] + d[j + 1..];
    assert d[i] in d[..j];
    assert multiset(d[..j])[d[i]] >= 1;
  }

  lemma {:induction false} DistinctCounts(d: Doc, e: Element)
    requires DistinctFields(d)
    ensures multiset(d)[e] <= 1
  {
    if d != [] {
      DistinctCounts(d[1..], e);
      assert d == [d[0]] + d[1..];
    }
  }

  // ------------------------------------------------------------ nothing applied

  lemma {:induction false} ItemsOnlyGrow(env: Env, e: Type, acc: seq<Val>, bes: seq<Value>)
    ensures acc <= DecodeItems(env, e, acc, bes)
    decreases |bes|
  {
    if bes != [] {
      ItemsOnlyGrow(env, e, acc, bes[..|bes| - 1]);
    }
  }

  lemma {:induction false} ElemsOnlyGrow(env: Env, e: Type, acc: set<Val>, bes: seq<Value>)
    ensures acc <= DecodeElems(env, e, acc, bes)
    decreases |bes|
  {
    if bes != [] {
      ElemsOnlyGrow(env, e, acc, bes[..|bes| - 1]);
    }
  }

  lemma {:induction false} EntriesOnlyGrow(env: Env, e: Type, acc: map<ByteSeq, Val>, d: Doc)
    ensures acc.Keys <= DecodeEntries(env, e, acc, d).Keys
    decreases |d|
  {
    if d != [] {
      EntriesOnlyGrow(env, e, acc, d[..|d| - 1]);
    }
  }

  /** When `valueApplied` stays false, the attribute keeps what it held. */
  lemma NotAppliedKeepsAttribute(env: Env, t: Type, attr: Val, be: Value)
    requires !Decode(env, t, attr, be).1
    ensures Decode(env, t, attr, be).0 == attr
  {
    match t
    case ListOf(e) =>
      if be.Array? && attr.VList? { ItemsOnlyGrow(env, e, attr.items, Values(be.items)); }
    case SetOf(e) =>
      if be.Array? && attr.VSet? {
        ElemsOnlyGrow(env, e, attr.elems, Values(be.items));
        assert DecodeElems(env, e, attr.elems, Values(be.items)) == {};
      }
    case MapOf(e) =>
      if be.Object? && attr.VMap? {
        EntriesOnlyGrow(env, e, attr.entries, be.fields);
        assert DecodeEntries(env, e, attr.entries, be.fields) == map[];
        assert attr.entries.Keys == {};
        assert attr.entries == map[];
      }
    case _ =>
  }
}
