/**
  BSONObjBuilder and BSONArrayBuilder (mongo/bson/bsonobjbuilder.h): builders
  that write into a buffer they may share with their parent builder. Each call is
  tied to the pure steps of module BuilderMachine.
 */
module ObjBuilders {
  import opened Bytes
  import opened Bson
  import opened BsonIterator
  import opened BufferState
  import opened BufBuilders
  import opened BuilderMachine
  import opened BuilderRuns

  /** How a call ends: normally, or with one of the exceptions. */
  datatype Status = Ok | BadFieldName | BadRegex | TooLarge

  lemma AppendAllSplit(b: Buffer, first: seq<ByteSeq>, rest: seq<ByteSeq>)
    ensures AppendAll(b, first + rest)
         == (var (g, ok) := AppendAll(b, first); if ok then AppendAll(g, rest) else (g, false))
    decreases |first|
  {
    if first == [] {
      assert first + rest == rest;
    } else {
      assert (first + rest)[1..] == first[1..] + rest;
      var one := Append(b, first[0]);
      if one.Some? {
        AppendAllSplit(one.value, first[1..], rest);
      }
    }
  }

  /** The writes of a sub-builder's constructor; `slot` is what its skip left behind. */
  function OpenSub(b: Buffer, slot: ByteSeq): Option<Buffer>
  {
    match Append(b, slot)
    case None => None
    case Some(g) => Reserve(g, 1)
  }

  /** A header followed by the constructor is the step that opens a sub-builder. */
  lemma OpenSubIsBegin(b: Buffer, tag: Byte, name: ByteSeq, slot: ByteSeq)
    ensures var (g, ok) := AppendAll(b, HeaderChunks(tag, name));
            BeginSub(b, tag, name, slot) == if ok then OpenSub(g, slot) else None
  {
    AppendAllSplit(b, HeaderChunks(tag, name), [slot]);
  }

  /** The values that go out in one write. */
  predicate IsWhole(v: Value)
  {
    !IsBare(v) && !(v.Str? || v.Code? || v.Symbol? || v.BinData? || v.RegEx? || v.DBRef? || v.CodeWScope?)
  }

  predicate IsBare(v: Value)
  {
    v.Null? || v.Undefined? || v.MinKey? || v.MaxKey?
  }

  /** The terminator's write fits the byte just claimed, and the length patch follows. */
  lemma CloseInSteps(b: Buffer, offset: nat)
    requires b.Valid() && b.reserved >= 1 && offset + 4 <= |b.bytes|
    ensures var g := Claim(b, 1).(bytes := b.bytes + [EOO]);
            && Append(Claim(b, 1), [EOO]) == Some(g)
            && Close(b, offset) == g.(bytes := Patch(g.bytes, offset, LE(4, |g.bytes| - offset)))
  {
  }

  /** Whether the whole of an append, unless refused, can be asked of the buffer without overflowing an int. */
  ghost predicate Room(b: BufBuilder, name: ByteSeq, v: Value)
    reads b
  {
    0 in name || b.CanAsk(|name| + 2 + |EncodeValue(v)|)
  }

  /** What an append does to the buffer, and how it ends. */
  ghost predicate Appended(before: Buffer, after: Buffer, name: ByteSeq, v: Value, st: Status)
  {
    if 0 in name then st == BadFieldName && after == before
    else (after, st) == Writes(before, Chunks(name, v))
  }

  ghost function Writes(b: Buffer, chunks: seq<ByteSeq>): (Buffer, Status)
  {
    var (g, ok) := AppendAll(b, chunks);
    (g, if ok then Ok else TooLarge)
  }

  /**
    The meaning of a successful append: the bytes of the element are added, and
    nothing written before changes; it succeeds exactly when the element fits.
   */
  lemma AppendedIsElement(before: Buffer, after: Buffer, name: ByteSeq, v: Value, st: Status)
    requires before.Valid() && Appended(before, after, name, v, st)
    ensures st == BadFieldName <==> 0 in name
    ensures st == BadFieldName ==> after == before
    ensures 0 !in name ==> Landed(before, after, EncodeElement(Element(name, v)), st)
  {
    if 0 !in name {
      FlattenChunks(name, v);
      WritesLand(before, Chunks(name, v));
    }
  }

  /** `e` was added whole, exactly if it fits; otherwise at most a part of it was. */
  ghost predicate Landed(before: Buffer, after: Buffer, e: ByteSeq, st: Status)
  {
    && (st == Ok <==> |before.bytes| + |e| + before.reserved <= Limit(before))
    && (st == Ok ==> after.bytes == before.bytes + e)
    && before.bytes <= after.bytes <= before.bytes + e
    && after.Valid() && after.reserved == before.reserved
  }

  lemma WritesLand(before: Buffer, chunks: seq<ByteSeq>)
    requires before.Valid()
    ensures var (after, st) := Writes(before, chunks); Landed(before, after, Flatten(chunks), st)
  {
    AppendAllWorks(before, chunks);
  }

  /** One write, then the rest. */
  lemma WriteThen(b: Buffer, first: ByteSeq, rest: seq<ByteSeq>)
    ensures AppendAll(b, [first] + rest)
         == (match Append(b, first) case None => (b, false) case Some(g) => AppendAll(g, rest))
  {
    assert ([first] + rest)[1..] == rest;
  }

  lemma OneWrite(b: Buffer, only: ByteSeq)
    ensures AppendAll(b, [only]) == (match Append(b, only) case None => (b, false) case Some(g) => (g, true))
  {
    assert [only] == [only] + [];
    WriteThen(b, only, []);
  }

  lemma TwoWrites(b: Buffer, first: ByteSeq, second: ByteSeq)
    ensures AppendAll(b, [first, second])
         == (match Append(b, first)
             case None => (b, false)
             case Some(g) => match Append(g, second) case None => (g, false) case Some(h) => (h, true))
  {
    assert [first, second] == [first] + [second];
    WriteThen(b, first, [second]);
    if Append(b, first).Some? {
      OneWrite(Append(b, first).value, second);
    }
  }

  lemma FieldThenValue(before: Buffer, mid: Buffer, after: Buffer, name: ByteSeq, v: Value, ok: bool)
    requires 0 !in name
    requires (mid, true) == AppendAll(before, HeaderChunks(Tag(v), name))
    requires (after, ok) == AppendAll(mid, ValueChunks(v))
    ensures Appended(before, after, name, v, if ok then Ok else TooLarge)
  {
    AppendAllSplit(before, HeaderChunks(Tag(v), name), ValueChunks(v));
  }

  lemma FieldFailed(before: Buffer, after: Buffer, name: ByteSeq, v: Value, st: Status)
    requires st != Ok
    requires 0 in name ==> st == BadFieldName && after == before
    requires 0 !in name ==> (after, st) == Writes(before, HeaderChunks(Tag(v), name))
    ensures Appended(before, after, name, v, st)
  {
    AppendAllSplit(before, HeaderChunks(Tag(v), name), ValueChunks(v));
  }

  /** Length, string, terminator. */
  method WriteText(b: BufBuilder, text: ByteSeq) returns (ok: bool)
    requires b.Valid() && b.CanAsk(4 + |text| + 1)
    modifies b, b.data
    ensures b.Valid() && (b.data == old(b.data) || fresh(b.data))
    ensures b.l >= old(b.l)
    ensures ok == AppendAll(old(b.State()), TextChunks(text)).1
    ensures b.State() == AppendAll(old(b.State()), TextChunks(text)).0
    ensures ok ==> b.l == old(b.l) + 4 + |text| + 1
  {
    TwoWrites(b.State(), LE(4, |text| + 1), text + [0]);
    ok := b.AppendLength(|text| + 1);
    if ok {
      ok := b.AppendStr(text);
    }
  }

  method WriteRegEx(b: BufBuilder, pattern: CStr, options: CStr) returns (ok: bool)
    requires b.Valid() && b.CanAsk(|pattern| + 1 + |options| + 1)
    modifies b, b.data
    ensures b.Valid() && (b.data == old(b.data) || fresh(b.data))
    ensures b.l >= old(b.l)
    ensures ok == AppendAll(old(b.State()), [pattern + [0], options + [0]]).1
    ensures b.State() == AppendAll(old(b.State()), [pattern + [0], options + [0]]).0
  {
    TwoWrites(b.State(), pattern + [0], options + [0]);
    ok := b.AppendStr(pattern);
    if ok {
      ok := b.AppendStr(options);
    }
  }

  method WriteSubtypeAndData(b: BufBuilder, subtype: Byte, data: ByteSeq) returns (ok: bool)
    requires b.Valid() && b.CanAsk(1 + |data|)
    modifies b, b.data
    ensures b.Valid() && (b.data == old(b.data) || fresh(b.data))
    ensures b.l >= old(b.l)
    ensures ok == AppendAll(old(b.State()), [[subtype], data]).1
    ensures b.State() == AppendAll(old(b.State()), [[subtype], data]).0
  {
    TwoWrites(b.State(), [subtype], data);
    ok := b.AppendChar(subtype);
    if ok {
      ok := b.AppendBuf(data);
    }
  }

  method WriteBinData(b: BufBuilder, subtype: Byte, data: ByteSeq) returns (ok: bool)
    requires b.Valid() && b.CanAsk(4 + 1 + |data|)
    modifies b, b.data
    ensures b.Valid() && (b.data == old(b.data) || fresh(b.data))
    ensures b.l >= old(b.l)
    ensures ok == AppendAll(old(b.State()), [LE(4, |data|), [subtype], data]).1
    ensures b.State() == AppendAll(old(b.State()), [LE(4, |data|), [subtype], data]).0
  {
    WriteThen(b.State(), LE(4, |data|), [[subtype], data]);
    assert [LE(4, |data|), [subtype], data] == [LE(4, |data|)] + [[subtype], data];
    ok := b.AppendLength(|data|);
    if ok {
      ok := WriteSubtypeAndData(b, subtype, data);
    }
  }

  /** A string, then bytes as they are: the layout of a DBRef. */
  method WriteTextAndBytes(b: BufBuilder, text: ByteSeq, bytes: ByteSeq) returns (ok: bool)
    requires b.Valid() && b.CanAsk(4 + |text| + 1 + |bytes|)
    modifies b, b.data
    ensures b.Valid() && (b.data == old(b.data) || fresh(b.data))
    ensures b.l >= old(b.l)
    ensures ok == AppendAll(old(b.State()), TextChunks(text) + [bytes]).1
    ensures b.State() == AppendAll(old(b.State()), TextChunks(text) + [bytes]).0
  {
    AppendAllSplit(b.State(), TextChunks(text), [bytes]);
    AppendAllWorks(b.State(), TextChunks(text));
    FlattenText(text);
    ok := WriteText(b, text);
    if ok {
      OneWrite(b.State(), bytes);
      ok := b.AppendBuf(bytes);
    }
  }

  method WriteScoped(b: BufBuilder, code: ByteSeq, scope: Doc) returns (ok: bool)
    requires b.Valid() && b.CanAsk(4 + |EncodeText(code)| + |EncodeDoc(scope)|)
    modifies b, b.data
    ensures b.Valid() && (b.data == old(b.data) || fresh(b.data))
    ensures b.l >= old(b.l)
    ensures ok == AppendAll(old(b.State()), ValueChunks(CodeWScope(code, scope))).1
    ensures b.State() == AppendAll(old(b.State()), ValueChunks(CodeWScope(code, scope))).0
  {
    var bytes := EncodeDoc(scope);
    var total: int32 := 4 + (4 + |code| + 1) + |bytes|;
    ScopedInSteps(b.State(), total, code, scope);
    ok := b.AppendLength(total);
    if ok {
      ok := WriteTextAndBytes(b, code, bytes);
    }
  }

  lemma ScopedInSteps(b: Buffer, total: nat, code: ByteSeq, scope: Doc)
    requires total == 4 + |EncodeText(code)| + |EncodeDoc(scope)|
    ensures AppendAll(b, ValueChunks(CodeWScope(code, scope)))
         == (match Append(b, LE(4, total))
             case None => (b, false)
             case Some(g) => AppendAll(g, TextChunks(code) + [EncodeDoc(scope)]))
  {
    var rest := TextChunks(code) + [EncodeDoc(scope)];
    assert ValueChunks(CodeWScope(code, scope)) == [LE(4, total)] + rest;
    WriteThen(b, LE(4, total), rest);
  }

  /** The writes of appendBinDataArrayDeprecated after the header. */
  function DeprecatedChunks(data: ByteSeq): seq<ByteSeq>
  {
    [LE(4, |data| + 4), [BYTE_ARRAY_DEPRECATED]] + [LE(4, |data|), data]
  }

  method WriteTotalAndSubtype(b: BufBuilder, total: nat, subtype: Byte) returns (ok: bool)
    requires b.Valid() && b.CanAsk(4 + 1) && total < TWO_TO_THE_31
    modifies b, b.data
    ensures b.Valid() && (b.data == old(b.data) || fresh(b.data))
    ensures b.l == old(b.l) + 5 || !ok
    ensures b.l >= old(b.l)
    ensures ok == AppendAll(old(b.State()), [LE(4, total), [subtype]]).1
    ensures b.State() == AppendAll(old(b.State()), [LE(4, total), [subtype]]).0
  {
    TwoWrites(b.State(), LE(4, total), [subtype]);
    ok := b.AppendLength(total);
    if ok {
      ok := b.AppendChar(subtype);
    }
  }

  method WriteLengthAndData(b: BufBuilder, data: ByteSeq) returns (ok: bool)
    requires b.Valid() && b.CanAsk(4 + |data|)
    modifies b, b.data
    ensures b.Valid() && (b.data == old(b.data) || fresh(b.data))
    ensures b.l >= old(b.l)
    ensures ok == AppendAll(old(b.State()), [LE(4, |data|), data]).1
    ensures b.State() == AppendAll(old(b.State()), [LE(4, |data|), data]).0
  {
    TwoWrites(b.State(), LE(4, |data|), data);
    ok := b.AppendLength(|data|);
    if ok {
      ok := b.AppendBuf(data);
    }
  }

  method WriteDeprecated(b: BufBuilder, data: ByteSeq) returns (ok: bool)
    requires b.Valid() && b.CanAsk(4 + 1 + 4 + |data|)
    modifies b, b.data
    ensures b.Valid() && (b.data == old(b.data) || fresh(b.data))
    ensures b.l >= old(b.l)
    ensures ok == AppendAll(old(b.State()), DeprecatedChunks(data)).1
    ensures b.State() == AppendAll(old(b.State()), DeprecatedChunks(data)).0
  {
    AppendAllSplit(b.State(), [LE(4, |data| + 4), [BYTE_ARRAY_DEPRECATED]], [LE(4, |data|), data]);
    AppendAllWorks(b.State(), [LE(4, |data| + 4), [BYTE_ARRAY_DEPRECATED]]);
    ok := WriteTotalAndSubtype(b, |data| + 4, BYTE_ARRAY_DEPRECATED);
    if ok {
      ok := WriteLengthAndData(b, data);
    }
  }

  /** Those writes, after the header, are the element with the inner length in its payload. */
  lemma DeprecatedIsElement(name: CStr, data: ByteSeq)
    ensures Flatten(HeaderChunks(BIN_DATA, name) + DeprecatedChunks(data))
         == EncodeElement(Element(name, DeprecatedByteArray(data)))
  {
    var total, inner := [LE(4, |data| + 4), [BYTE_ARRAY_DEPRECATED]], [LE(4, |data|), data];
    FlattenHeader(BIN_DATA, name);
    FlattenTwo(LE(4, |data| + 4), [BYTE_ARRAY_DEPRECATED]);
    FlattenTwo(LE(4, |data|), data);
    FlattenAppend(total, inner);
    FlattenAppend(HeaderChunks(BIN_DATA, name), total + inner);
    BinDataIs(BYTE_ARRAY_DEPRECATED, LE(4, |data|) + data, |data| + 4);
  }

  lemma BinDataIs(subtype: Byte, payload: ByteSeq, n: nat)
    requires n == |payload|
    ensures EncodeValue(BinData(subtype, payload)) == LE(4, n) + [subtype] + payload
  {
  }

  /** The end of a document: its terminator, then its length. */
  method WriteEnd(b: BufBuilder, offset: int32)
    requires b.Valid() && b.reservedBytes >= 1 && 0 <= offset && offset + 4 <= b.l
    modifies b, b.data
    ensures b.Valid() && b.data == old(b.data) && b.size == old(b.size)
    ensures b.l == old(b.l) + 1
    ensures b.State() == Close(old(b.State()), offset)
  {
    ghost var before := b.State();
    ghost var ended := Claim(before, 1).(bytes := before.bytes + [EOO]);
    CloseInSteps(before, offset);
    b.ClaimReservedBytes(1);  // the byte the terminator goes into
    var ok := b.AppendChar(EOO);
    assert b.State() == ended;
    var size: int32 := b.l - offset;
    LengthAsInt32(size);
    b.WriteIntAt(offset, size);
  }

  /** The first bytes of a root builder's own buffer: the holder, the length, the terminator's place. */
  method StartRoot(b: BufBuilder)
    requires b.Valid() && b.bytes == [] && b.reservedBytes == 0 && b.size <= HOLDER_SIZE + MAX_REQUEST
    modifies b
    ensures b.Valid() && (b.data == old(b.data) || fresh(b.data))
    ensures b.l == HOLDER_SIZE + 4 && b.reservedBytes == 1
    ensures Limit(b.State()) == Limit(old(b.State()))
  {
    ghost var garbage;
    var ok;
    EnsureWorks(b.State(), HOLDER_SIZE);
    ok, garbage := b.Skip(HOLDER_SIZE);
    EnsureWorks(b.State(), HOLDER_SIZE + 4);
    ok, garbage := b.Skip(4);
    EnsureWorks(b.State(), HOLDER_SIZE + 4 + 1);
    ok := b.ReserveBytes(1);
  }

  /** Takes the terminator back: the next append overwrites it, its byte is reserved again. */
  method TakeBackEnd(b: BufBuilder)
    requires b.Valid() && b.l >= 1
    modifies b
    ensures b.Valid() && b.data == old(b.data) && b.size == old(b.size)
    ensures b.l == old(b.l) - 1
    ensures b.State() == Reopen(old(b.State()))
  {
    b.SetLen(b.l - 1);
    var ok := b.ReserveBytes(1);
  }

  class ObjBuilder {
    const b: BufBuilder
    const owned: bool
    var offset: int32
    var doneCalled: bool

    ghost predicate Valid()
      reads this, b, b.data
    {
      b.Valid() && 0 <= offset && offset + 4 <= b.l
    }

    /** A root builder with a buffer of its own. */
    constructor (initsize: int32 := 512)
      requires 0 <= initsize <= MAX_REQUEST
      ensures Valid() && owned && !doneCalled && fresh(b)
      ensures b.data == null || fresh(b.data)
      ensures FreshRoot(Machine(b.State(), [offset]))
      ensures Limit(b.State()) == Limit(Buffer([], HOLDER_SIZE + initsize, 0, 0))
    {
      b := new BufBuilder(HOLDER_SIZE + initsize);
      owned, offset, doneCalled := true, HOLDER_SIZE, false;
      new;
      StartRoot(b);
    }

    constructor Inner(base: BufBuilder, offset: int32)
      ensures b == base && this.offset == offset && !owned && !doneCalled
    {
      b, owned, this.offset, doneCalled := base, false, offset, false;
    }

    /**
      The constructor over an existing buffer: remembers where it starts, skips the
      length, whose bytes are the `slot`, and reserves the terminator. Returns null
      when that throws, after the skip or before it.
     */
    static method NewSub(base: BufBuilder) returns (sub: ObjBuilder?, ghost slot: ByteSeq)
      requires base.Valid() && base.CanAsk(5)
      modifies base
      ensures base.Valid() && (base.data == old(base.data) || fresh(base.data))
      ensures |slot| == 4 && (sub != null <==> OpenSub(old(base.State()), slot).Some?)
      ensures sub != null ==>
                && fresh(sub) && sub.b == base && sub.Valid() && !sub.owned && !sub.doneCalled
                && sub.offset == old(base.l) && base.l == old(base.l) + 4
                && OpenSub(old(base.State()), slot) == Some(base.State())
      ensures sub == null ==> base.State() == AppendAll(old(base.State()), [slot]).0
    {
      var offset := base.l;
      sub := null;
      var ok;
      ok, slot := base.Skip(4);
      OneWrite(old(base.State()), slot);
      if ok {
        ok := base.ReserveBytes(1);
        if ok {
          sub := new ObjBuilder.Inner(base, offset);
        }
      }
    }

    /** checkFieldName, type byte, name: how every append starts. */
    method Field(tag: Byte, name: ByteSeq) returns (st: Status)
      requires Valid() && (0 in name || b.CanAsk(|name| + 2))
      modifies b, b.data
      ensures Valid() && (b.data == old(b.data) || fresh(b.data))
      ensures 0 in name ==> st == BadFieldName && b.State() == old(b.State())
      ensures 0 !in name ==> (b.State(), st) == Writes(old(b.State()), HeaderChunks(tag, name))
      ensures st != BadRegex
      ensures st == Ok ==> b.l == old(b.l) + |name| + 2
      ensures b.reservedBytes == old(b.reservedBytes) && b.size >= old(b.size)
    {
      if 0 in name {
        return BadFieldName;
      }
      TwoWrites(b.State(), [tag], name + [0]);
      var ok := b.AppendChar(tag);
      if ok {
        ok := b.AppendStr(name);
      }
      st := if ok then Ok else TooLarge;
    }

    /**
      The appends whose value is a single write: numbers, booleans, dates, ids,
      timestamps, and whole objects and arrays already encoded.
     */
    method AppendWhole(name: ByteSeq, v: Value) returns (st: Status)
      requires Valid() && Room(b, name, v) && IsWhole(v)
      modifies b, b.data
      ensures Valid() && (b.data == old(b.data) || fresh(b.data))
      ensures Appended(old(b.State()), b.State(), name, v, st)
    {
      ghost var before := b.State();
      st := Field(Tag(v), name);
      if st != Ok {
        FieldFailed(before, b.State(), name, v, st);
        return;
      }
      ghost var mid := b.State();
      OneWrite(mid, EncodeValue(v));
      var ok := b.AppendBuf(EncodeValue(v));
      st := if ok then Ok else TooLarge;
      FieldThenValue(before, mid, b.State(), name, v, ok);
    }

    /**
      appendNull, appendUndefined, appendMinKey, appendMaxKey: a header and nothing
      else. appendUndefined does not check the name, so its caller has to.
     */
    method AppendBare(name: ByteSeq, v: Value) returns (st: Status)
      requires Valid() && Room(b, name, v) && IsBare(v)
      requires v.Undefined? ==> 0 !in name
      modifies b, b.data
      ensures Valid() && (b.data == old(b.data) || fresh(b.data))
      ensures Appended(old(b.State()), b.State(), name, v, st)
    {
      ghost var before := b.State();
      st := Field(Tag(v), name);
      if st != Ok {
        FieldFailed(before, b.State(), name, v, st);
      } else {
        FieldThenValue(before, b.State(), b.State(), name, v, true);
      }
    }

    /** append(name, string), appendCode, appendSymbol: the length counts the terminator. */
    method AppendText(name: ByteSeq, v: Value, text: ByteSeq) returns (st: Status)
      requires Valid() && Room(b, name, v)
      requires v == Str(text) || v == Code(text) || v == Symbol(text)
      modifies b, b.data
      ensures Valid() && (b.data == old(b.data) || fresh(b.data))
      ensures Appended(old(b.State()), b.State(), name, v, st)
    {
      ghost var before := b.State();
      st := Field(Tag(v), name);
      if st != Ok {
        FieldFailed(before, b.State(), name, v, st);
        return;
      }
      ghost var mid := b.State();
      var ok := WriteText(b, text);
      st := if ok then Ok else TooLarge;
      FieldThenValue(before, mid, b.State(), name, v, ok);
    }

    /**
      appendRegex: two terminated strings. The pattern is checked like a name, after
      it; the options are not, so their caller has to.
     */
    method AppendRegex(name: ByteSeq, pattern: ByteSeq, options: CStr) returns (st: Status)
      requires Valid() && (0 in name || 0 in pattern || b.CanAsk(|name| + 2 + |pattern| + |options| + 2))
      modifies b, b.data
      ensures Valid() && (b.data == old(b.data) || fresh(b.data))
      ensures st == BadRegex <==> 0 !in name && 0 in pattern
      ensures st == BadRegex ==> b.State() == old(b.State())
      ensures 0 in name ==> st == BadFieldName && b.State() == old(b.State())
      ensures 0 !in pattern ==> Appended(old(b.State()), b.State(), name, RegEx(pattern, options), st)
    {
      if 0 in name {
        return BadFieldName;
      }
      if 0 in pattern {
        return BadRegex;
      }
      ghost var before := b.State();
      st := Field(REG_EX, name);
      if st != Ok {
        FieldFailed(before, b.State(), name, RegEx(pattern, options), st);
        return;
      }
      ghost var mid := b.State();
      var ok := WriteRegEx(b, pattern, options);
      st := if ok then Ok else TooLarge;
      FieldThenValue(before, mid, b.State(), name, RegEx(pattern, options), ok);
    }

    /** appendBinData: length, subtype, bytes. */
    method AppendBinData(name: ByteSeq, subtype: Byte, bytes: ByteSeq) returns (st: Status)
      requires Valid() && Room(b, name, BinData(subtype, bytes))
      modifies b, b.data
      ensures Valid() && (b.data == old(b.data) || fresh(b.data))
      ensures Appended(old(b.State()), b.State(), name, BinData(subtype, bytes), st)
    {
      ghost var before := b.State();
      st := Field(BIN_DATA, name);
      if st != Ok {
        FieldFailed(before, b.State(), name, BinData(subtype, bytes), st);
        return;
      }
      ghost var mid := b.State();
      var ok := WriteBinData(b, subtype, bytes);
      st := if ok then Ok else TooLarge;
      FieldThenValue(before, mid, b.State(), name, BinData(subtype, bytes), ok);
    }

    /** appendDBRef: the namespace as a string, then the id. */
    method AppendDBRef(name: ByteSeq, ns: ByteSeq, ref: Oid) returns (st: Status)
      requires Valid() && Room(b, name, DBRef(ns, ref))
      modifies b, b.data
      ensures Valid() && (b.data == old(b.data) || fresh(b.data))
      ensures Appended(old(b.State()), b.State(), name, DBRef(ns, ref), st)
    {
      ghost var before := b.State();
      st := Field(DB_REF, name);
      if st != Ok {
        FieldFailed(before, b.State(), name, DBRef(ns, ref), st);
        return;
      }
      ghost var mid := b.State();
      var ok := WriteTextAndBytes(b, ns, ref);
      st := if ok then Ok else TooLarge;
      FieldThenValue(before, mid, b.State(), name, DBRef(ns, ref), ok);
    }

    /** appendCodeWScope: total size, code as a string, the scope's bytes. */
    method AppendCodeWScope(name: ByteSeq, code: ByteSeq, scope: Doc) returns (st: Status)
      requires Valid() && Room(b, name, CodeWScope(code, scope))
      modifies b, b.data
      ensures Valid() && (b.data == old(b.data) || fresh(b.data))
      ensures Appended(old(b.State()), b.State(), name, CodeWScope(code, scope), st)
    {
      ghost var before := b.State();
      st := Field(CODE_W_SCOPE, name);
      if st != Ok {
        FieldFailed(before, b.State(), name, CodeWScope(code, scope), st);
        return;
      }
      ghost var mid := b.State();
      var ok := WriteScoped(b, code, scope);
      st := if ok then Ok else TooLarge;
      FieldThenValue(before, mid, b.State(), name, CodeWScope(code, scope), ok);
    }

    /** appendBinDataArrayDeprecated: subtype 2, with a second length inside the payload. */
    method AppendBinDataArrayDeprecated(name: ByteSeq, bytes: ByteSeq) returns (st: Status)
      requires Valid() && (0 in name || b.CanAsk(|name| + 2 + 4 + 1 + 4 + |bytes|))
      modifies b, b.data
      ensures Valid() && (b.data == old(b.data) || fresh(b.data))
      ensures 0 in name ==> st == BadFieldName && b.State() == old(b.State())
      ensures 0 !in name ==>
                Landed(old(b.State()), b.State(), EncodeElement(Element(name, DeprecatedByteArray(bytes))), st)
    {
      ghost var before := b.State();
      st := Field(BIN_DATA, name);
      if 0 in name {
        return;
      }
      DeprecatedIsElement(name, bytes);
      WritesLand(before, HeaderChunks(BIN_DATA, name) + DeprecatedChunks(bytes));
      AppendAllSplit(before, HeaderChunks(BIN_DATA, name), DeprecatedChunks(bytes));
      if st != Ok {
        return;
      }
      var ok := WriteDeprecated(b, bytes);
      st := if ok then Ok else TooLarge;
    }

    /** The overloads of append, chosen by the type of the value. */
    method Append(name: ByteSeq, v: Value) returns (st: Status)
      requires Valid() && Room(b, name, v)
      requires v.Undefined? ==> 0 !in name
      modifies b, b.data
      ensures Valid() && (b.data == old(b.data) || fresh(b.data))
      ensures Appended(old(b.State()), b.State(), name, v, st)
    {
      match v
      case Null | Undefined | MinKey | MaxKey => st := AppendBare(name, v);
      case Str(text) => st := AppendText(name, v, text);
      case Code(text) => st := AppendText(name, v, text);
      case Symbol(text) => st := AppendText(name, v, text);
      case RegEx(pattern, options) => st := AppendRegex(name, pattern, options);
      case BinData(subtype, bytes) => st := AppendBinData(name, subtype, bytes);
      case DBRef(ns, ref) => st := AppendDBRef(name, ns, ref);
      case CodeWScope(code, scope) => st := AppendCodeWScope(name, code, scope);
      case _ => st := AppendWhole(name, v);
    }

    /** append(name, BSONObj) and appendArray: the bytes of a finished object. */
    method AppendObject(isArray: bool, name: ByteSeq, objdata: ByteSeq, ghost d: Doc) returns (st: Status)
      requires Valid() && (0 in name || b.CanAsk(|name| + 2 + |objdata|))
      requires objdata == EncodeDoc(d)
      modifies b, b.data
      ensures Valid() && (b.data == old(b.data) || fresh(b.data))
      ensures Appended(old(b.State()), b.State(), name, SubValue(isArray, d), st)
    {
      ghost var before := b.State();
      ghost var v := SubValue(isArray, d);
      st := Field(SubTag(isArray), name);
      if st != Ok {
        FieldFailed(before, b.State(), name, v, st);
        return;
      }
      ghost var mid := b.State();
      OneWrite(mid, objdata);
      var ok := b.AppendBuf(objdata);
      st := if ok then Ok else TooLarge;
      FieldThenValue(before, mid, b.State(), name, v, ok);
    }

    /**
      append(name, vector): builds the array in a buffer of its own, its elements
      named by position, and appends the finished object.
     */
    method AppendVector(name: ByteSeq, vals: seq<Value>) returns (st: Status)
      requires Valid() && Room(b, name, Array(Indexed(vals)))
      requires HOLDER_SIZE + |EncodeDoc(Indexed(vals))| <= MAX_REQUEST
      modifies b, b.data
      ensures Valid() && (b.data == old(b.data) || fresh(b.data))
      ensures HOLDER_SIZE + |EncodeDoc(Indexed(vals))| > BUFFER_MAX_SIZE ==>
                st == TooLarge && b.State() == old(b.State())
      ensures HOLDER_SIZE + |EncodeDoc(Indexed(vals))| <= BUFFER_MAX_SIZE ==>
                Appended(old(b.State()), b.State(), name, Array(Indexed(vals)), st)
    {
      var objdata, ok := BuildArray(vals);
      if !ok {
        return TooLarge;
      }
      st := AppendObject(true, name, objdata, Indexed(vals));
    }

    /** subobjStart and subarrayStart: the header of a sub-document whose body comes next. */
    method SubStart(isArray: bool, name: ByteSeq) returns (st: Status)
      requires Valid() && (0 in name || b.CanAsk(|name| + 2))
      modifies b, b.data
      ensures Valid() && (b.data == old(b.data) || fresh(b.data))
      ensures 0 in name ==> st == BadFieldName && b.State() == old(b.State())
      ensures 0 !in name ==> (b.State(), st) == Writes(old(b.State()), HeaderChunks(SubTag(isArray), name))
      ensures st == Ok ==> b.l == old(b.l) + |name| + 2
      ensures b.reservedBytes == old(b.reservedBytes) && b.size >= old(b.size)
    {
      st := Field(SubTag(isArray), name);
    }

    /** _done(): writes the terminator and the length, once. */
    method Done()
      requires Valid() && (!doneCalled ==> b.reservedBytes >= 1)
      modifies this`doneCalled, b, b.data
      ensures Valid() && doneCalled
      ensures b.data == old(b.data) && b.size == old(b.size)
      ensures b.l == old(b.l) + if old(doneCalled) then 0 else 1
      ensures old(doneCalled) ==> b.State() == old(b.State())
      ensures !old(doneCalled) ==> b.State() == Close(old(b.State()), offset)
    {
      if doneCalled {
        return;
      }
      doneCalled := true;
      WriteEnd(b, offset);
    }

    /**
      asTempObj(): done, then open again with the terminator's byte reserved once more.
      The buffer does not move, so the object handed out stays where it is.
     */
    method AsTempObj() returns (temp: ByteSeq)
      requires Valid() && (if doneCalled then b.l >= offset + 5 else b.reservedBytes >= 1)
      modifies this`doneCalled, b, b.data
      ensures Valid() && !doneCalled
      ensures b.data == old(b.data) && b.size == old(b.size)
      ensures var closed := if old(doneCalled) then old(b.State()) else Close(old(b.State()), offset);
              temp == closed.bytes[offset..] && b.State() == Reopen(closed)
    {
      Done();
      temp := b.View(offset);
      TakeBackEnd(b);
      doneCalled := false;
    }

    /** ~BSONObjBuilder: a sub-builder that was not closed closes itself. */
    method Destroy()
      requires Valid() && (!doneCalled && !owned ==> b.reservedBytes >= 1)
      modifies this`doneCalled, b, b.data
      ensures Valid() && b.data == old(b.data) && b.size == old(b.size)
      ensures !old(doneCalled) && !owned ==> b.State() == Close(old(b.State()), offset)
      ensures old(doneCalled) || owned ==> b.State() == old(b.State())
    {
      if !doneCalled && !owned {
        Done();
      }
    }
  }

  lemma IndexedSnoc(vals: seq<Value>, k: nat)
    requires k < |vals|
    ensures Indexed(vals[..k + 1]) == Indexed(vals[..k]) + [Element(Decimal(k), vals[k])]
    ensures |EncodeElements(Indexed(vals[..k + 1]))|
         == |EncodeElements(Indexed(vals[..k]))| + |EncodeElement(Element(Decimal(k), vals[k]))|
  {
    EncodeElementsSnoc(Indexed(vals[..k]), Element(Decimal(k), vals[k]));
  }

  lemma IndexedPrefix(vals: seq<Value>, k: nat)
    requires k <= |vals|
    ensures |EncodeElements(Indexed(vals[..k]))| <= |EncodeElements(Indexed(vals))|
  {
    assert Indexed(vals) == Indexed(vals[..k]) + Indexed(vals)[k..];
    EncodeElementsAppend(Indexed(vals[..k]), Indexed(vals)[k..]);
  }

  lemma RootLength(pre: ByteSeq, elems: Doc, m: Machine)
    requires Inv(pre, Root(elems), m)
    ensures |m.b.bytes| == |pre| + 4 + |EncodeElements(elems)| && m.b.reserved == 1
  {
  }

  /** One append to a root builder adds one element to the document it describes. */
  lemma AppendToRoot(pre: ByteSeq, elems: Doc, m: Machine, after: Buffer, e: Element, st: Status)
    requires Inv(pre, Root(elems), m)
    requires Appended(m.b, after, e.name, e.value, st)
    ensures st == Ok <==> |m.b.bytes| + |EncodeElement(e)| + 1 <= Limit(m.b)
    ensures st == Ok ==> Inv(pre, Root(elems + [e]), m.(b := after)) && Limit(after) == Limit(m.b)
  {
    StepKeepsInv(pre, Root(elems), m, Put(e.name, e.value));
  }

  /** done() of a root builder: the object handed out is the bytes from its offset on. */
  method FinishedObj(root: ObjBuilder, ghost pre: ByteSeq, ghost elems: Doc) returns (objdata: ByteSeq)
    requires root.Valid() && !root.doneCalled
    requires Inv(pre, Root(elems), Machine(root.b.State(), [root.offset]))
    modifies root`doneCalled, root.b, root.b.data
    ensures root.Valid() && root.b.data == old(root.b.data)
    ensures objdata == EncodeDoc(elems)
  {
    CloseIsEncoding(root.b.State(), root.offset, elems);
    root.Done();
    objdata := root.b.View(root.offset);
  }

  /**
    The loop behind append of a vector, list or set: a root builder, one append per
    value under its index, done. It fails exactly when the object passes the limit.
   */
  method BuildArray(vals: seq<Value>) returns (objdata: ByteSeq, ok: bool)
    requires HOLDER_SIZE + |EncodeDoc(Indexed(vals))| <= MAX_REQUEST
    ensures ok <==> 4 + |EncodeDoc(Indexed(vals))| <= 67_108_864  // holder and limit
    ensures ok ==> objdata == EncodeDoc(Indexed(vals))
  {
    var arrBuilder := new ObjBuilder();
    ghost var pre := arrBuilder.b.bytes[..HOLDER_SIZE];
    FreshRootInv(Machine(arrBuilder.b.State(), [arrBuilder.offset]));
    assert vals[..0] == [];
    for i := 0 to |vals|
      invariant arrBuilder.Valid() && fresh(arrBuilder) && fresh(arrBuilder.b) && !arrBuilder.doneCalled
      invariant arrBuilder.b.data == null || fresh(arrBuilder.b.data)
      invariant |pre| == HOLDER_SIZE == arrBuilder.offset
      invariant Inv(pre, Root(Indexed(vals[..i])), Machine(arrBuilder.b.State(), [HOLDER_SIZE]))
      invariant Limit(arrBuilder.b.State()) == BUFFER_MAX_SIZE
    {
      ghost var m := Machine(arrBuilder.b.State(), [HOLDER_SIZE]);
      RootLength(pre, Indexed(vals[..i]), m);
      IndexedSnoc(vals, i);
      IndexedPrefix(vals, i + 1);
      var st := arrBuilder.Append(Decimal(i), vals[i]);
      AppendToRoot(pre, Indexed(vals[..i]), m, arrBuilder.b.State(), Element(Decimal(i), vals[i]), st);
      if st != Ok {
        return [], false;
      }
    }
    assert vals[..|vals|] == vals;
    RootLength(pre, Indexed(vals), Machine(arrBuilder.b.State(), [HOLDER_SIZE]));
    objdata := FinishedObj(arrBuilder, pre, Indexed(vals));
    ok := true;
  }

  /** BSONArrayBuilder: an object builder that names its fields by counting. */
  class ArrayBuilder {
    const inner: ObjBuilder
    var i: nat

    constructor (inner: ObjBuilder)
      ensures this.inner == inner && i == 0
    {
      this.inner, i := inner, 0;
    }

    /** num(): the next index, used up whether or not the append succeeds. */
    method Num() returns (name: CStr)
      modifies this`i
      ensures name == Decimal(old(i)) && i == old(i) + 1
    {
      name := Decimal(i);
      i := i + 1;
    }

    method Append(v: Value) returns (st: Status)
      requires inner.Valid() && Room(inner.b, Decimal(i), v)
      modifies this`i, inner.b, inner.b.data
      ensures inner.Valid() && i == old(i) + 1
      ensures inner.b.data == old(inner.b.data) || fresh(inner.b.data)
      ensures Appended(old(inner.b.State()), inner.b.State(), Decimal(old(i)), v, st)
    {
      var name := Num();
      st := inner.Append(name, v);
    }

    method SubStart(isArray: bool) returns (st: Status)
      requires inner.Valid() && inner.b.CanAsk(|Decimal(i)| + 2)
      modifies this`i, inner.b, inner.b.data
      ensures inner.Valid() && i == old(i) + 1
      ensures (inner.b.State(), st) == Writes(old(inner.b.State()), HeaderChunks(SubTag(isArray), Decimal(old(i))))
    {
      var name := Num();
      st := inner.SubStart(isArray, name);
    }
  }
}
