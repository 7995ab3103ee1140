/**
  Which SPL values survive the trip to BSON unchanged (Common/BSONCommon.pm and
  Common/QueryCommon.pm): the normal ones, and no others.
 */
module SplNormal {
  import opened Bytes
  import opened Bson
  import opened Spl
  import opened SplRoundTrip

  /** A blob, or a collection with nothing in it: decoding it applies nothing. */
  predicate Blank(t: Type, v: Val)
  {
    match t
    case Prim(p) => p.Blob?
    case ListOf(_) => v.VList? && v.items == []
    case SetOf(_) => v.VSet? && v.elems == {}
    case MapOf(_) => v.VMap? && v.entries == map[]
    case Tuple(_) => false
  }

  /**
    Normal, said without the codec: whole milliseconds, no blob contents, and no
    blank entries inside lists, sets and maps, at any depth. A tuple may hold blanks.
   */
  predicate IsNormal(t: Type, v: Val)
    decreases t
  {
    match t
    case Prim(p) => (p.Time? && v.VTime? ==> v.nanos % MILLI == 0) && (p.Blob? ==> v == VBlob([]))
    case ListOf(e) =>
      v.VList? && forall i :: 0 <= i < |v.items| ==> IsNormal(e, v.items[i]) && !Blank(e, v.items[i])
    case SetOf(e) => v.VSet? && forall x :: x in v.elems ==> IsNormal(e, x) && !Blank(e, x)
    case MapOf(e) =>
      v.VMap? && forall k :: k in v.entries ==> IsNormal(e, v.entries[k]) && !Blank(e, v.entries[k])
    case Tuple(attrs) =>
      v.VTuple? && |v.fields| == |attrs|
      && forall i :: 0 <= i < |attrs| ==> IsNormal(attrs[i].ty, v.fields[i])
  }

  lemma {:induction false} NormFieldsAt(attrs: seq<Attr>, fields: seq<Val>, i: nat)
    requires |attrs| == |fields| && i < |attrs|
    ensures NormFields(attrs, fields)[i] == Norm(attrs[i].ty, fields[i])
    decreases |attrs|
  {
    if i > 0 {
      NormFieldsAt(attrs[1..], fields[1..], i - 1);
    }
  }

  /** Every item of a normalised list comes from a visible item. */
  lemma {:induction false} NormItemsFrom(e: Type, xs: seq<Val>, k: nat) returns (i: nat)
    requires k < |NormItems(e, xs)|
    ensures i < |xs| && Visible(e, xs[i]) && NormItems(e, xs)[k] == Norm(e, xs[i])
    decreases |xs|
  {
    var init := xs[..|xs| - 1];
    if k < |NormItems(e, init)| {
      i := NormItemsFrom(e, init, k);
    } else {
      i := |xs| - 1;
    }
  }

  /** What Norm makes of a value of one type. */
  ghost predicate Normalises(t: Type, v: Val)
  {
    Typed(t, Norm(t, v)) && IsNormal(t, Norm(t, v)) && (Visible(t, v) <==> !Blank(t, Norm(t, v)))
  }

  /**
    The normal form is normal, and still of the type; a value is visible exactly
    when its normal form is not blank.
   */
  lemma {:induction false} NormIsNormal(t: Type, v: Val)
    requires Typed(t, v)
    ensures Typed(t, Norm(t, v)) && IsNormal(t, Norm(t, v))
    ensures Visible(t, v) <==> !Blank(t, Norm(t, v))
    decreases t
  {
    match t
    case Prim(p) =>
    case ListOf(e) =>
      forall i | 0 <= i < |v.items| ensures Normalises(e, v.items[i]) { NormIsNormal(e, v.items[i]); }
      ListNormalises(e, v.items);
    case SetOf(e) =>
      forall x | x in v.elems ensures Normalises(e, x) { NormIsNormal(e, x); }
      SetNormalises(e, v.elems);
    case MapOf(e) =>
      forall k | k in v.entries ensures Normalises(e, v.entries[k]) { NormIsNormal(e, v.entries[k]); }
      MapNormalises(e, v.entries);
    case Tuple(attrs) =>
      forall i | 0 <= i < |attrs|
        ensures NormFields(attrs, v.fields)[i] == Norm(attrs[i].ty, v.fields[i])
        ensures Normalises(attrs[i].ty, v.fields[i])
      {
        NormFieldsAt(attrs, v.fields, i);
        NormIsNormal(attrs[i].ty, v.fields[i]);
      }
  }

  lemma ListNormalises(e: Type, xs: seq<Val>)
    requires forall i :: 0 <= i < |xs| ==> Normalises(e, xs[i])
    ensures Normalises(ListOf(e), VList(xs))
  {
    var ys := NormItems(e, xs);
    forall k | 0 <= k < |ys| ensures Typed(e, ys[k]) && IsNormal(e, ys[k]) && !Blank(e, ys[k]) {
      var i := NormItemsFrom(e, xs, k);
      assert Normalises(e, xs[i]);
    }
    NormItemsEmptyIff(e, xs);
  }

  lemma SetNormalises(e: Type, s: set<Val>)
    requires forall x :: x in s ==> Normalises(e, x)
    ensures Normalises(SetOf(e), VSet(s))
  {
    var t := NormElems(e, s);
    forall y | y in t ensures Typed(e, y) && IsNormal(e, y) && !Blank(e, y) {
      var x :| x in s && Visible(e, x) && y == Norm(e, x);
      assert Normalises(e, x);
    }
    NormElemsEmptyIff(e, s);
    assert Norm(SetOf(e), VSet(s)) == VSet(t);
  }

  lemma NormOfMap(e: Type, m: map<ByteSeq, Val>)
    ensures Norm(MapOf(e), VMap(m)) == VMap(NormEntries(e, m, m.Keys))
    ensures Visible(MapOf(e), VMap(m)) <==> exists k :: k in m && Visible(e, m[k])
  {
  }

  lemma EntryNormalises(e: Type, m: map<ByteSeq, Val>, k: ByteSeq)
    requires k in m && Normalises(e, m[k]) && k in NormEntries(e, m, m.Keys)
    ensures var x := NormEntries(e, m, m.Keys)[k]; Typed(e, x) && IsNormal(e, x) && !Blank(e, x)
  {
  }

  lemma MapNormalises(e: Type, m: map<ByteSeq, Val>)
    requires forall k :: k in m ==> Normalises(e, m[k])
    ensures Normalises(MapOf(e), VMap(m))
  {
    var n := NormEntries(e, m, m.Keys);
    forall k | k in n ensures Typed(e, n[k]) && IsNormal(e, n[k]) && !Blank(e, n[k]) {
      EntryNormalises(e, m, k);
    }
    NormEntriesEmptyIff(e, m);
    NormOfMap(e, m);
    MapIsNormal(e, m, n);
  }

  lemma MapIsNormal(e: Type, m: map<ByteSeq, Val>, n: map<ByteSeq, Val>)
    requires Norm(MapOf(e), VMap(m)) == VMap(n)
    requires forall k :: k in n ==> Typed(e, n[k]) && IsNormal(e, n[k]) && !Blank(e, n[k])
    requires Visible(MapOf(e), VMap(m)) <==> |n| > 0
    ensures Normalises(MapOf(e), VMap(m))
  {
  }

  /** A normal value is its own normal form. */
  lemma {:induction false} NormalIsFixed(t: Type, v: Val)
    requires Typed(t, v) && IsNormal(t, v)
    ensures Norm(t, v) == v && (Visible(t, v) <==> !Blank(t, v))
    decreases t
  {
    match t
    case Prim(_) =>
    case ListOf(e) =>
      forall i | 0 <= i < |v.items| ensures Norm(e, v.items[i]) == v.items[i] && Visible(e, v.items[i]) {
        NormalIsFixed(e, v.items[i]);
      }
      NormItemsOfFixed(e, v.items);
    case SetOf(e) =>
      forall x | x in v.elems ensures Norm(e, x) == x && Visible(e, x) { NormalIsFixed(e, x); }
      NormElemsOfFixed(e, v.elems);
    case MapOf(e) =>
      forall k | k in v.entries ensures Norm(e, v.entries[k]) == v.entries[k] && Visible(e, v.entries[k]) {
        NormalIsFixed(e, v.entries[k]);
      }
      NormEntriesOfFixed(e, v.entries);
    case Tuple(attrs) =>
      forall i | 0 <= i < |attrs| ensures NormFields(attrs, v.fields)[i] == v.fields[i] {
        NormFieldsAt(attrs, v.fields, i);
        NormalIsFixed(attrs[i].ty, v.fields[i]);
      }
      assert NormFields(attrs, v.fields) == v.fields;
  }

  function FilterMap<A>(p: A -> bool, f: A -> A, xs: seq<A>): seq<A>
  {
    if xs == [] then []
    else
      var last := xs[|xs| - 1];
      FilterMap(p, f, xs[..|xs| - 1]) + if p(last) then [f(last)] else []
  }

  lemma {:induction false} FilterMapOfFixed<A>(p: A -> bool, f: A -> A, xs: seq<A>)
    requires forall i :: 0 <= i < |xs| ==> p(xs[i]) && f(xs[i]) == xs[i]
    ensures FilterMap(p, f, xs) == xs
  {
    if xs != [] {
      FilterMapOfFixed(p, f, xs[..|xs| - 1]);
    }
  }

  lemma {:induction false} NormItemsIsFilterMap(e: Type, xs: seq<Val>)
    ensures NormItems(e, xs) == FilterMap(x => Visible(e, x), x => Norm(e, x), xs)
    decreases |xs|
  {
    if xs != [] {
      NormItemsIsFilterMap(e, xs[..|xs| - 1]);
    }
  }

  lemma NormItemsOfFixed(e: Type, xs: seq<Val>)
    requires forall i :: 0 <= i < |xs| ==> Norm(e, xs[i]) == xs[i] && Visible(e, xs[i])
    ensures NormItems(e, xs) == xs
  {
    NormItemsIsFilterMap(e, xs);
    FilterMapOfFixed(x => Visible(e, x), x => Norm(e, x), xs);
  }

  lemma NormElemsOfFixed(e: Type, s: set<Val>)
    requires forall x :: x in s ==> Norm(e, x) == x && Visible(e, x)
    ensures Norm(SetOf(e), VSet(s)) == VSet(s)
    ensures Visible(SetOf(e), VSet(s)) <==> s != {}
  {
    assert Norm(SetOf(e), VSet(s)) == VSet(NormElems(e, s));
    assert forall x :: x in s ==> Norm(e, x) in NormElems(e, s);
    assert NormElems(e, s) == s;
    NormElemsEmptyIff(e, s);
  }

  lemma NormEntriesOfFixed(e: Type, m: map<ByteSeq, Val>)
    requires forall k :: k in m ==> Norm(e, m[k]) == m[k] && Visible(e, m[k])
    ensures Norm(MapOf(e), VMap(m)) == VMap(m)
    ensures Visible(MapOf(e), VMap(m)) <==> m != map[]
  {
    NormOfMap(e, m);
    EntriesOfFixed(e, m);
    NormEntriesEmptyIff(e, m);
  }

  lemma EntriesOfFixed(e: Type, m: map<ByteSeq, Val>)
    requires forall k :: k in m ==> Norm(e, m[k]) == m[k] && Visible(e, m[k])
    ensures NormEntries(e, m, m.Keys) == m
  {
  }

  /** Normalising twice is normalising once. */
  lemma NormIsIdempotent(t: Type, v: Val)
    requires Typed(t, v)
    ensures Norm(t, Norm(t, v)) == Norm(t, v)
    ensures Visible(t, Norm(t, v)) <==> Visible(t, v)
  {
    NormIsNormal(t, v);
    NormalIsFixed(t, Norm(t, v));
  }

  lemma {:induction false} KeysStayOk(t: Type, v: Val)
    requires Typed(t, v) && KeysOk(t, v)
    ensures KeysOk(t, Norm(t, v))
    decreases t
  {
    match t
    case Prim(_) =>
    case ListOf(e) =>
      var ys := NormItems(e, v.items);
      forall k | 0 <= k < |ys| ensures KeysOk(e, ys[k]) {
        var i := NormItemsFrom(e, v.items, k);
        KeysStayOk(e, v.items[i]);
      }
    case SetOf(e) =>
      forall x | x in v.elems ensures KeysOk(e, Norm(e, x)) { KeysStayOk(e, x); }
    case MapOf(e) =>
      forall k | k in v.entries ensures KeysOk(e, Norm(e, v.entries[k])) { KeysStayOk(e, v.entries[k]); }
    case Tuple(attrs) =>
      forall i | 0 <= i < |attrs| ensures KeysOk(attrs[i].ty, NormFields(attrs, v.fields)[i]) {
        NormFieldsAt(attrs, v.fields, i);
        KeysStayOk(attrs[i].ty, v.fields[i]);
      }
  }

  /**
    The round trip is the identity exactly on the normal values: a value that can be
    encoded comes back as it was if and only if it is normal. What comes back
    can be sent again, and then comes back unchanged.
   */
  lemma RoundTripIsIdentityIffNormal(env: Env, t: Type, v: Val)
    requires ValidEnv(env) && Typed(t, v) && KeysOk(t, v)
    ensures Encode(env, t, v).Some?
    ensures var back := Decode(env, t, Default(t), Encode(env, t, v).value).0;
            && (back == v <==> IsNormal(t, v))
            && Encode(env, t, back).Some?
            && Decode(env, t, Default(t), Encode(env, t, back).value).0 == back
  {
    RoundTrip(env, t, v);
    NormIsNormal(t, v);
    KeysStayOk(t, v);
    RoundTrip(env, t, Norm(t, v));
    NormIsIdempotent(t, v);
    if IsNormal(t, v) {
      NormalIsFixed(t, v);
    }
  }
}
