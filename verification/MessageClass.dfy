/**
  class Message (mongo/util/net/message.h) over real buffers, with the heap they
  are returned to. Freeing demands that the buffer was not freed before, so every
  method below also shows that no buffer is freed twice.
 */
module Messages {
  import opened Bytes
  import opened BufferState
  import opened MessagePieces

  /** malloc and free, for the record. */
  class Heap {
    ghost var freed: set<array<Byte>>

    constructor ()
      ensures freed == {}
    {
      freed := {};
    }

    method Free(p: array<Byte>)
      requires p !in freed
      modifies this
      ensures freed == old(freed) + {p}
    {
      freed := freed + {p};
    }
  }

  // ------------------------------------------------------------ the vector _data

  /** A buffer and how much of it belongs to the message. */
  datatype Chunk = Chunk(buffer: array<Byte>, size: int32)

  ghost function BuffersOf(data: seq<Chunk>): set<array<Byte>>
  {
    set c | c in data :: c.buffer
  }

  ghost predicate Distinct(data: seq<Chunk>)
  {
    forall i, j :: 0 <= i < j < |data| ==> data[i].buffer != data[j].buffer
  }

  ghost predicate Matches(c: Chunk, piece: ByteSeq)
    reads c.buffer
  {
    0 < c.size == |piece| <= c.buffer.Length && c.buffer[..|piece|] == piece
  }

  ghost predicate AllMatch(data: seq<Chunk>, pieces: Pieces)
    reads BuffersOf(data)
  {
    && |data| == |pieces|
    && forall i :: 0 <= i < |data| ==> data[i] in data && Matches(data[i], pieces[i])
  }

  lemma BuffersOfSnoc(data: seq<Chunk>, c: Chunk)
    ensures BuffersOf(data + [c]) == BuffersOf(data) + {c.buffer}
  {
    assert c in data + [c];
  }

  /** The two loops of concat(): add up the sizes, then copy buffer after buffer. */
  method Gather(data: seq<Chunk>, ghost pieces: Pieces) returns (all: array<Byte>)
    requires AllMatch(data, pieces) && |Flatten(pieces)| < TWO_TO_THE_31
    ensures fresh(all) && all[..] == Flatten(pieces)
  {
    var totalSize := SumOfSizes(data, pieces);
    all := new Byte[totalSize];
    var p: int32 := 0;
    for i := 0 to |data|
      invariant p == |Flatten(pieces[..i])| <= totalSize
      invariant all[..p] == Flatten(pieces[..i])
    {
      FlattenSnoc(pieces, i);
      assert Matches(data[i], pieces[i]);
      CopyInto(all, p, data[i].buffer, data[i].size);
      p := p + data[i].size;
    }
    assert pieces[..|data|] == pieces;
    assert all[..p] == all[..];
  }

  method SumOfSizes(data: seq<Chunk>, ghost pieces: Pieces) returns (sum: int32)
    requires AllMatch(data, pieces) && |Flatten(pieces)| < TWO_TO_THE_31
    ensures sum == |Flatten(pieces)|
  {
    sum := 0;
    for i := 0 to |data|
      invariant sum == |Flatten(pieces[..i])| <= |Flatten(pieces)|
    {
      FlattenSnoc(pieces, i);
      assert Matches(data[i], pieces[i]);
      sum := sum + data[i].size;
    }
    assert pieces[..|data|] == pieces;
  }

  /** The loop of reset(). */
  method FreeAll(heap: Heap, data: seq<Chunk>)
    requires Distinct(data) && BuffersOf(data) !! heap.freed
    modifies heap
    ensures heap.freed == old(heap.freed) + BuffersOf(data)
  {
    for i := 0 to |data|
      invariant heap.freed == old(heap.freed) + BuffersOf(data[..i])
    {
      assert data[..i + 1] == data[..i] + [data[i]];
      BuffersOfSnoc(data[..i], data[i]);
      assert data[i].buffer in BuffersOf(data);
      heap.Free(data[i].buffer);
    }
    assert data[..|data|] == data;
  }

  /** memcpy(to + at, from, n). */
  method CopyInto(to: array<Byte>, at: int32, from: array<Byte>, n: int32)
    requires to != from && 0 <= at && 0 <= n <= from.Length && at + n <= to.Length
    modifies to
    ensures to[..at + n] == old(to[..at]) + from[..n]
  {
    forall i | 0 <= i < n {
      to[at + i] := from[i];
    }
    assert to[..at + n] == to[..at] + to[at..at + n];
    assert to[at..at + n] == from[..n];
  }

  /** header().setLen(n) on a buffer of which `size` bytes count. */
  method WriteLength(a: array<Byte>, ghost size: int, n: int32)
    requires 4 <= size <= a.Length
    modifies a
    ensures a[..size] == SetLength(old(a[..size]), n)
  {
    var le := Int32LE(n);
    forall i | 0 <= i < 4 {
      a[i] := le[i];
    }
  }

  /** header().setLen(n) on a list: no other buffer notices. */
  method WriteFirstLength(data: seq<Chunk>, ghost pieces: Pieces, n: int32)
    requires AllMatch(data, pieces) && Distinct(data) && data != [] && |pieces[0]| >= 4
    modifies data[0].buffer
    ensures AllMatch(data, [SetLength(pieces[0], n)] + pieces[1..])
  {
    assert Matches(data[0], pieces[0]);
    WriteLength(data[0].buffer, data[0].size, n);
    forall i | 0 < i < |data| ensures Matches(data[i], pieces[i]) {
      assert old(Matches(data[i], pieces[i]));
    }
  }

  /** push_back, and header().setLen(n) on the list so extended. */
  method PushBack(data: seq<Chunk>, ghost pieces: Pieces, d: array<Byte>, size: int32, n: int32) returns (r: seq<Chunk>)
    requires AllMatch(data, pieces) && Distinct(data) && data != [] && WellFormed(pieces)
    requires d !in BuffersOf(data) && 0 < size <= d.Length
    requires n == HeaderLength(pieces) + size && |Flatten(pieces)| + size < TWO_TO_THE_31
    modifies data[0].buffer
    ensures r == data + [Chunk(d, size)] && Distinct(r) && BuffersOf(r) == BuffersOf(data) + {d}
    ensures AllMatch(r, AppendPiece(pieces, old(d[..size]))) && WellFormed(AppendPiece(pieces, old(d[..size])))
  {
    AppendKeepsHeader(pieces, d[..size]);
    forall i | 0 <= i < |data| ensures data[i].buffer in BuffersOf(data) && data[i].buffer != d {
      assert data[i] in data;
    }
    WriteFirstLength(data, pieces, n);
    r := data + [Chunk(d, size)];
    BuffersOfSnoc(data, Chunk(d, size));
    AllMatchSnoc(data, [SetLength(pieces[0], n)] + pieces[1..], Chunk(d, size), d[..size]);
  }

  // --------------------------------------------------------------------- Message

  class Message {
    const heap: Heap
    var buf: array?<Byte>
    var data: seq<Chunk>
    var freeIt: bool

    ghost var pieces: Pieces
    ghost var buffers: set<array<Byte>>  // the buffers this message refers to

    ghost predicate Valid()
      reads this, heap, buffers
    {
      && WellFormed(pieces)
      && buffers !! heap.freed
      && Distinct(data)
      && (buf != null ==>
            data == [] && buffers == {buf} && |pieces| == 1
            && |pieces[0]| <= buf.Length && buf[..|pieces[0]|] == pieces[0])
      && (buf == null ==> buffers == BuffersOf(data) && AllMatch(data, pieces))
      && (data != [] ==> freeIt)
    }

    predicate Empty()
      reads this
    {
      buf == null && data == []
    }

    constructor (heap: Heap)
      ensures Valid() && Empty() && this.heap == heap && pieces == [] && !freeIt
    {
      this.heap := heap;
      buf, data, freeIt := null, [], false;
      pieces, buffers := [], {};
    }

    /** header().getLen(). */
    method GetLen() returns (n: int32)
      requires Valid() && !Empty()
      ensures n == HeaderLength(pieces)
    {
      var header := if buf != null then buf else data[0].buffer;
      assert buf == null ==> Matches(data[0], pieces[0]);
      n := ReadInt32(header[..4]);
      assert header[..4][..4] == header[..|pieces[0]|][..4] == pieces[0][..4];
    }

    /** size(): the header's length for a single buffer, the sum of the sizes for a list. */
    method Size() returns (res: int32)
      requires Valid()
      ensures res == |Flatten(pieces)|
    {
      if buf != null {
        res := GetLen();
      } else {
        res := SumOfSizes(data, pieces);
      }
    }

    /** setData(d, freeIt): takes a buffer that already carries its header. */
    method SetData(d: array<Byte>, freeIt: bool) returns (ok: bool)
      requires Valid() && d !in heap.freed
      requires HEADER_SIZE <= d.Length && HEADER_SIZE <= ReadInt32(d[..4]) <= d.Length
      modifies this
      ensures Valid()
      ensures ok <==> old(Empty())
      ensures ok ==> pieces == [d[..ReadInt32(d[..4])]] && buffers == {d} && this.freeIt == freeIt
      ensures !ok ==> unchanged(this)
    {
      if !Empty() {
        return false;
      }
      buf, this.freeIt := d, freeIt;
      ghost var s := d[..ReadInt32(d[..4])];
      pieces, buffers := [s], {d};
      assert s[..4] == d[..4] == d[..4][..4];
      FlattenOne(s);
      ok := true;
    }

    /**
      setData(operation, msgdata, len): a header and a copy of `msgdata` in a buffer of
      its own. The two identifiers of the header are not set.
     */
    method SetDataCopy(operation: int32, msgdata: ByteSeq) returns (ok: bool)
      requires Valid() && HEADER_SIZE + |msgdata| < TWO_TO_THE_31
      modifies this
      ensures Valid()
      ensures ok <==> old(Empty())
      ensures ok ==>
                && freeIt && fresh(buffers) && |pieces| == 1
                && |pieces[0]| == HEADER_SIZE + |msgdata|
                && Operation(pieces[0]) == operation && pieces[0][HEADER_SIZE..] == msgdata
      ensures !ok ==> unchanged(this)
    {
      if !Empty() {
        return false;
      }
      var dataLen := HEADER_SIZE + |msgdata|;
      var d := new Byte[dataLen];
      FillMessage(d, operation, msgdata);
      assert d[..dataLen] == d[..];
      ok := SetData(d, true);
    }

    /**
      appendData(): the first buffer's header counts its own bytes; a later buffer joins
      the list, and the first one's header counts it too.
     */
    method AppendData(d: array<Byte>, size: int32) returns (ok: bool)
      requires Valid() && d !in heap.freed && d !in buffers
      requires size > 0 ==> size <= d.Length && |Flatten(pieces)| + size < TWO_TO_THE_31
      requires size > 0 && Empty() ==> size >= HEADER_SIZE
      modifies this, d, buffers
      ensures Valid()
      ensures ok <==> size <= 0 || old(Empty()) || old(freeIt)
      ensures ok && size > 0 ==>
                pieces == AppendPiece(old(pieces), old(d[..size])) && buffers == old(buffers) + {d} && freeIt
      ensures !ok || size <= 0 ==> unchanged(this)
    {
      if size <= 0 {
        return true;
      }
      if Empty() {
        First(d, size);
        return true;
      }
      if !freeIt {
        return false;
      }
      if buf != null {
        IntoList();
      }
      AddChunk(d, size);
      ok := true;
    }

    /** The buffer an empty message starts with. */
    method First(d: array<Byte>, size: int32)
      requires Valid() && Empty() && d !in heap.freed
      requires HEADER_SIZE <= size <= d.Length
      modifies this, d
      ensures Valid() && freeIt && buffers == {d}
      ensures pieces == AppendPiece([], old(d[..size]))
    {
      ghost var piece := d[..size];
      AppendKeepsHeader([], piece);
      WriteLength(d, size, size);
      buf, freeIt := d, true;
      pieces, buffers := AppendPiece([], piece), {d};
    }

    /** The step from one buffer to a list of one. */
    method IntoList()
      requires Valid() && buf != null && freeIt
      modifies this`buf, this`data
      ensures Valid() && buf == null && data != []
    {
      var n := GetLen();
      assert pieces == [pieces[0]];
      FlattenOne(pieces[0]);
      data := [Chunk(buf, n)];
      assert buffers == BuffersOf(data) by { assert data[0].buffer == buf; }
      buf := null;
    }

    /** A buffer more in the list, counted in the header of the first. */
    method AddChunk(d: array<Byte>, size: int32)
      requires Valid() && d !in heap.freed && d !in buffers && buf == null && data != [] && freeIt
      requires 0 < size <= d.Length && |Flatten(pieces)| + size < TWO_TO_THE_31
      modifies this`data, this`pieces, this`buffers, buffers
      ensures Valid() && freeIt
      ensures pieces == AppendPiece(old(pieces), old(d[..size])) && buffers == old(buffers) + {d}
    {
      ghost var before, piece := pieces, d[..size];
      var len := GetLen();
      var more := PushBack(data, before, d, size, len + size);
      ghost var after := AppendPiece(before, piece);
      data, pieces, buffers := more, after, buffers + {d};
    }

    /** concat(): copies a list of buffers into one, and frees them. */
    method ConcatBuffers()
      requires Valid()
      modifies this, heap
      ensures Valid()
      ensures Flatten(pieces) == Flatten(old(pieces)) && |pieces| <= 1
      ensures old(buf != null || Empty()) ==> unchanged(this) && unchanged(heap)
      ensures !old(buf != null || Empty()) ==>
                && pieces == [Flatten(old(pieces))] && buf != null && fresh(buf) && buffers == {buf} && freeIt
                && heap.freed == old(heap.freed) + old(buffers)
    {
      if buf != null || Empty() {
        return;
      }
      ghost var bytes := Flatten(pieces);
      FlattenOne(bytes);
      assert WellFormed([bytes]) by {
        HeaderOf(pieces[0], Flatten(pieces[1..]));
      }
      var all := Gather(data, pieces);
      Reset();
      buf, freeIt := all, true;
      pieces, buffers := [bytes], {all};
      assert all[..|bytes|] == all[..];
    }

    /** reset(), and the destructor: frees what the message owns and forgets the rest. */
    method Reset()
      requires Valid()
      modifies this, heap
      ensures Valid() && Empty() && pieces == [] && buffers == {} && !freeIt
      ensures heap.freed == old(heap.freed) + if old(freeIt) then old(buffers) else {}
    {
      if freeIt {
        if buf != null {
          heap.Free(buf);
        }
        FreeAll(heap, data);
      }
      buf, data, freeIt := null, [], false;
      pieces, buffers := [], {};
    }

    /** operator=: takes everything from `r`, which keeps nothing and frees nothing. */
    method Assign(r: Message) returns (ok: bool)
      requires Valid() && r.Valid() && this != r && heap == r.heap
      modifies this, r
      ensures Valid() && r.Valid()
      ensures ok <==> old(Empty()) && old(r.freeIt)
      ensures ok ==>
                && pieces == old(r.pieces) && buffers == old(r.buffers) && freeIt
                && r.Empty() && r.pieces == [] && r.buffers == {} && !r.freeIt
      ensures !ok ==> unchanged(this) && unchanged(r)
    {
      if !Empty() || !r.freeIt {
        return false;
      }
      assert data == [] && (r.data != [] ==> r.buf == null);
      buf := r.buf;
      r.buf := null;
      if |r.data| > 0 {
        data, r.data := r.data, data;
      }
      r.freeIt := false;
      freeIt := true;
      pieces, buffers := r.pieces, r.buffers;
      r.pieces, r.buffers := [], {};
      ok := true;
    }
  }

  /** The header fields and the payload of a message that was just allocated. */
  method FillMessage(d: array<Byte>, operation: int32, msgdata: ByteSeq)
    requires d.Length == HEADER_SIZE + |msgdata| < TWO_TO_THE_31
    modifies d
    ensures ReadInt32(d[..4]) == d.Length
    ensures Operation(d[..]) == operation && d[HEADER_SIZE..] == msgdata
  {
    var len, op := Int32LE(d.Length), Int32LE(operation);
    forall i | 0 <= i < |msgdata| {
      d[HEADER_SIZE + i] := msgdata[i];
    }
    forall i | 0 <= i < 4 {
      d[i] := len[i];
    }
    forall i | 0 <= i < 4 {
      d[OPCODE_OFFSET + i] := op[i];
    }
    assert d[..4] == len + [];
    ReadInt32Back(d.Length, []);
    assert d[..][OPCODE_OFFSET..] == op + msgdata;
    ReadInt32Back(operation, msgdata);
  }

  lemma AllMatchSnoc(data: seq<Chunk>, pieces: Pieces, c: Chunk, piece: ByteSeq)
    requires AllMatch(data, pieces) && Matches(c, piece)
    ensures AllMatch(data + [c], pieces + [piece])
  {
    forall i | 0 <= i < |data| + 1 ensures Matches((data + [c])[i], (pieces + [piece])[i]) {
      if i < |data| {
        assert Matches(data[i], pieces[i]);
      }
    }
  }
}
