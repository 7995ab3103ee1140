/**
  The scatter/gather Message (mongo/util/net/message.h): one buffer or a list of
  buffers, the first starting with a header that holds the total length, and the
  duty to free what was handed over.
 */
module MessagePieces {
  import opened Bytes
  import opened BufferState

  const HEADER_SIZE: nat := 16   // sizeof(MSGHEADER::Layout)
  const OPCODE_OFFSET: nat := 12

  /** The bytes of a message: its buffers, one after the other. */
  type Pieces = seq<ByteSeq>

  /** header().getLen(). */
  function HeaderLength(p: Pieces): int32
    requires p != [] && |p[0]| >= 4
  {
    ReadInt32(p[0])
  }

  /** header().getOperation(). */
  function Operation(s: ByteSeq): int32
    requires |s| >= HEADER_SIZE
  {
    ReadInt32(s[OPCODE_OFFSET..])
  }

  /** A full header in the first buffer, holding the number of bytes of all of them. */
  predicate WellFormed(p: Pieces)
  {
    p != [] ==> |p[0]| >= HEADER_SIZE && |Flatten(p)| < TWO_TO_THE_31 && HeaderLength(p) == |Flatten(p)|
  }

  function SetLength(s: ByteSeq, n: int32): (r: ByteSeq)
    requires |s| >= 4
    ensures |r| == |s|
  {
    Patch(s, 0, Int32LE(n))
  }

  /** appendData(): a first buffer gets its own length, a later one adds to the header's. */
  function AppendPiece(p: Pieces, d: ByteSeq): Pieces
    requires WellFormed(p) && |Flatten(p)| + |d| < TWO_TO_THE_31
    requires p == [] && d != [] ==> |d| >= HEADER_SIZE
  {
    if d == [] then p
    else if p == [] then [SetLength(d, |d|)]
    else [SetLength(p[0], HeaderLength(p) + |d|)] + p[1..] + [d]
  }

  /** concat(): all buffers copied into one. */
  function Concat(p: Pieces): Pieces
  {
    if |p| < 2 then p else [Flatten(p)]
  }

  /** Where the header keeps its fields: the length in bytes 0 to 3, the opcode in bytes 12 to 15 of 16. */
  lemma HeaderLayout(s: ByteSeq, p: Pieces)
    requires |s| >= 16 && p != [] && p[0] == s
    ensures HEADER_SIZE == 16
    ensures HeaderLength(p) == ReadInt32(s[0..4]) && Operation(s) == ReadInt32(s[12..16])
  {
    assert s[0..4] == s[..4] == s[0..4][..4];
    assert s[12..16] == s[12..][..4] == s[12..16][..4];
  }

  lemma SetLengthReadsBack(s: ByteSeq, n: int32)
    requires |s| >= HEADER_SIZE
    ensures ReadInt32(SetLength(s, n)) == n
    ensures SetLength(s, n)[4..] == s[4..]
    ensures Operation(SetLength(s, n)) == Operation(s)
  {
    var r := SetLength(s, n);
    assert r == Int32LE(n) + s[4..];
    ReadInt32Back(n, s[4..]);
    assert r[4..] == s[4..];
    assert r[OPCODE_OFFSET..] == r[4..][OPCODE_OFFSET - 4..] == s[4..][OPCODE_OFFSET - 4..] == s[OPCODE_OFFSET..];
  }

  /** The same bytes, but for the length field at the front. */
  ghost predicate OnlyLengthDiffers(a: ByteSeq, b: ByteSeq)
  {
    a == b || (|a| == |b| >= 4 && a[4..] == b[4..])
  }

  lemma SameOperation(a: ByteSeq, b: ByteSeq)
    requires OnlyLengthDiffers(a, b) && |a| >= HEADER_SIZE
    ensures |b| >= HEADER_SIZE && Operation(a) == Operation(b)
  {
    assert a[OPCODE_OFFSET..] == a[4..][OPCODE_OFFSET - 4..];
    assert b[OPCODE_OFFSET..] == b[4..][OPCODE_OFFSET - 4..];
  }

  lemma DiffersThenMore(a: ByteSeq, b: ByteSeq, c: ByteSeq, more: ByteSeq)
    requires OnlyLengthDiffers(a, b + c)
    ensures OnlyLengthDiffers(a + more, b + (c + more))
  {
    Associative(b, c, more);
    if |a| >= 4 {
      DropFromFirst(a, more);
      DropFromFirst(b + c, more);
    }
  }

  lemma DiffersTwice(a: ByteSeq, b: ByteSeq, c: ByteSeq)
    requires OnlyLengthDiffers(a, b) && OnlyLengthDiffers(b, c)
    ensures OnlyLengthDiffers(a, c)
  {
  }

  /**
    Appending keeps the header in step: its length is again the number of all bytes,
    which are the old ones but for that length field, followed by the new ones. The
    opcode stays.
   */
  lemma AppendKeepsHeader(p: Pieces, d: ByteSeq)
    requires WellFormed(p) && |Flatten(p)| + |d| < TWO_TO_THE_31
    requires p == [] && d != [] ==> |d| >= HEADER_SIZE
    ensures WellFormed(AppendPiece(p, d))
    ensures OnlyLengthDiffers(Flatten(AppendPiece(p, d)), Flatten(p) + d)
    ensures p != [] ==>
              var n := Flatten(AppendPiece(p, d));
              && n[4..] == Flatten(p)[4..] + d
              && Operation(n) == Operation(Flatten(p))
  {
    if d == [] {
      assert Flatten(p) + d == Flatten(p);
    } else if p == [] {
      FlattenOne(SetLength(d, |d|));
      SetLengthReadsBack(d, |d|);
      assert [] + d == d;
    } else {
      var first := SetLength(p[0], HeaderLength(p) + |d|);
      SetLengthReadsBack(p[0], HeaderLength(p) + |d|);
      FlattenFirst(p, first, d);
      DropFromFirst(Flatten(p), d);
    }
  }

  lemma DropFromFirst(a: ByteSeq, b: ByteSeq)
    requires |a| >= 4
    ensures (a + b)[4..] == a[4..] + b
  {
  }

  lemma HeaderOf(a: ByteSeq, rest: ByteSeq)
    requires |a| >= HEADER_SIZE
    ensures (a + rest)[4..] == a[4..] + rest
    ensures ReadInt32(a + rest) == ReadInt32(a)
    ensures Operation(a + rest) == Operation(a)
  {
    assert (a + rest)[..4] == a[..4];
    assert (a + rest)[OPCODE_OFFSET..][..4] == a[OPCODE_OFFSET..][..4];
  }

  lemma FlattenFirst(p: Pieces, first: ByteSeq, d: ByteSeq)
    requires p != [] && |first| == |p[0]| >= HEADER_SIZE && first[4..] == p[0][4..]
    requires Operation(first) == Operation(p[0])
    ensures var n := Flatten([first] + p[1..] + [d]);
            && |n| == |Flatten(p)| + |d|
            && |n| >= HEADER_SIZE && |Flatten(p)| >= HEADER_SIZE
            && n[4..] == Flatten(p)[4..] + d
            && Operation(n) == Operation(Flatten(p))
            && ReadInt32(n) == ReadInt32(first)
  {
    var rest := Flatten(p[1..]);
    FlattenOne(d);
    FlattenOne(first);
    FlattenAppend([first], p[1..]);
    FlattenAppend([first] + p[1..], [d]);
    Associative(first, rest, d);
    HeaderOf(first, rest + d);
    HeaderOf(p[0], rest);
    Associative(p[0][4..], rest, d);
  }

  /** Concatenation keeps every byte, the length and the opcode, and doing it again does nothing. */
  lemma ConcatKeepsBytes(p: Pieces)
    requires WellFormed(p)
    ensures WellFormed(Concat(p)) && Flatten(Concat(p)) == Flatten(p)
    ensures Concat(Concat(p)) == Concat(p) && |Concat(p)| <= 1
  {
    if |p| >= 2 {
      FlattenOne(Flatten(p));
      HeaderOf(p[0], Flatten(p[1..]));
    }
  }

  // ------------------------------------------------------------------------ runs

  datatype Op = AppendData(d: ByteSeq) | ConcatAll

  function Appended(ops: seq<Op>): ByteSeq
  {
    if ops == [] then []
    else (if ops[0].AppendData? then ops[0].d else []) + Appended(ops[1..])
  }

  function RunOps(p: Pieces, ops: seq<Op>): Pieces
    requires WellFormed(p) && |Flatten(p)| + |Appended(ops)| < TWO_TO_THE_31
    requires p == [] ==> FirstIsHeader(ops)
    ensures WellFormed(RunOps(p, ops))
    decreases |ops|
  {
    if ops == [] then p
    else
      match ops[0]
      case AppendData(d) => AppendKeepsHeader(p, d); RunOps(AppendPiece(p, d), ops[1..])
      case ConcatAll => ConcatKeepsBytes(p); RunOps(Concat(p), ops[1..])
  }

  /** The first buffer that is not empty has room for a header. */
  predicate FirstIsHeader(ops: seq<Op>)
  {
    ops == []
    || (if ops[0].AppendData? && ops[0].d != [] then |ops[0].d| >= HEADER_SIZE else FirstIsHeader(ops[1..]))
  }

  /**
    Over any run of appends and concats, also from the empty message: it holds what
    it held and everything appended, in order, but for the length field, which
    always gives the number of bytes held; so the opcode is the first buffer's.
   */
  lemma RunKeepsBytes(p: Pieces, ops: seq<Op>)
    requires WellFormed(p) && |Flatten(p)| + |Appended(ops)| < TWO_TO_THE_31
    requires p == [] ==> FirstIsHeader(ops)
    ensures var n := RunOps(p, ops);
            && OnlyLengthDiffers(Flatten(n), Flatten(p) + Appended(ops))
            && (n == [] <==> Flatten(p) + Appended(ops) == [])
            && (n != [] ==>
                  && |n[0]| >= HEADER_SIZE && HeaderLength(n) == |Flatten(n)|
                  && |Flatten(n)| >= HEADER_SIZE && |Flatten(p) + Appended(ops)| >= HEADER_SIZE
                  && Operation(Flatten(n)) == Operation(Flatten(p) + Appended(ops)))
    decreases |ops|
  {
    var n := RunOps(p, ops);
    RunKeepsAll(p, ops);
    if n != [] {
      assert |Flatten(n)| >= |n[0]|;
      SameOperation(Flatten(n), Flatten(p) + Appended(ops));
    }
  }

  lemma {:induction false} RunKeepsAll(p: Pieces, ops: seq<Op>)
    requires WellFormed(p) && |Flatten(p)| + |Appended(ops)| < TWO_TO_THE_31
    requires p == [] ==> FirstIsHeader(ops)
    ensures OnlyLengthDiffers(Flatten(RunOps(p, ops)), Flatten(p) + Appended(ops))
    decreases |ops|
  {
    if ops == [] {
      assert Flatten(p) + [] == Flatten(p);
    } else {
      var rest := Appended(ops[1..]);
      match ops[0]
      case AppendData(d) =>
        AppendKeepsHeader(p, d);
        var q := AppendPiece(p, d);
        RunKeepsAll(q, ops[1..]);
        DiffersThenMore(Flatten(q), Flatten(p), d, rest);
        DiffersTwice(Flatten(RunOps(q, ops[1..])), Flatten(q) + rest, Flatten(p) + (d + rest));
      case ConcatAll =>
        ConcatKeepsBytes(p);
        RunKeepsAll(Concat(p), ops[1..]);
        assert [] + rest == rest;
    }
  }
}
