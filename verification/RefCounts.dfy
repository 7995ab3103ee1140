/**
  Shared ownership by counting (mongo/util/shared_buffer.h; the same discipline in
  Status, mongo/base/status-inl.h): handles of several threads over counted
  blocks, in every interleaving. Adding a reference is one atomic increment;
  dropping one is unlinking the handle, an atomic decrement, and, for whoever
  reaches zero, freeing the block.
 */
module RefCounts {
  import opened Bytes

  /** What a handle is doing: nothing, owning a block, or part way through dropping it. */
  datatype Handle = Null | Live(block: nat) | Dropping(block: nat) | Freeing(block: nat)

  /** The counter of a block, a 32-bit word, and how often the block was freed. */
  datatype Block = Block(count: uint32, frees: nat)

  /** `owner[h]` is the thread that may act on handle `h`. */
  datatype State = State(handles: seq<Handle>, owner: seq<nat>, blocks: seq<Block>)

  datatype Step =
    | TakeOwnership(tid: nat, h: nat)
    | Copy(tid: nat, from: nat, to: nat)
    | Swap(tid: nat, h: nat, k: nat)
    | Unlink(tid: nat, h: nat)
    | Decrement(tid: nat, h: nat)
    | Free(tid: nat, h: nat)
    | HandOver(tid: nat, h: nat, to: nat)

  predicate Owns(s: State, tid: nat, h: nat)
  {
    h < |s.handles| && h < |s.owner| && s.owner[h] == tid
  }

  predicate Enabled(s: State, step: Step)
  {
    match step
    case TakeOwnership(tid, h) => Owns(s, tid, h) && s.handles[h].Null?
    case Copy(tid, from, to) =>
      Owns(s, tid, from) && Owns(s, tid, to) && s.handles[from].Live? && s.handles[to].Null?
      && s.handles[from].block < |s.blocks|
    case Swap(tid, h, k) =>
      Owns(s, tid, h) && Owns(s, tid, k)
      && (s.handles[h].Null? || s.handles[h].Live?) && (s.handles[k].Null? || s.handles[k].Live?)
    case Unlink(tid, h) => Owns(s, tid, h) && s.handles[h].Live?
    case Decrement(tid, h) => Owns(s, tid, h) && s.handles[h].Dropping? && s.handles[h].block < |s.blocks|
    case Free(tid, h) => Owns(s, tid, h) && s.handles[h].Freeing? && s.handles[h].block < |s.blocks|
    case HandOver(tid, h, _) => Owns(s, tid, h)
  }

  function Next(s: State, step: Step): State
    requires Enabled(s, step)
  {
    match step
    case TakeOwnership(_, h) =>
      s.(handles := s.handles[h := Live(|s.blocks|)], blocks := s.blocks + [Block(1, 0)])
    case Copy(_, from, to) =>
      var b := s.handles[from].block;
      s.(handles := s.handles[to := Live(b)],
         blocks := s.blocks[b := s.blocks[b].(count := (s.blocks[b].count + 1) % TWO_TO_THE_32)])
    case Swap(_, h, k) => s.(handles := s.handles[h := s.handles[k]][k := s.handles[h]])
    case Unlink(_, h) => s.(handles := s.handles[h := Dropping(s.handles[h].block)])
    case Decrement(_, h) =>
      var b := s.handles[h].block;
      var count := (s.blocks[b].count - 1) % TWO_TO_THE_32;
      s.(handles := s.handles[h := if count == 0 then Freeing(b) else Null],
         blocks := s.blocks[b := s.blocks[b].(count := count)])
    case Free(_, h) =>
      var b := s.handles[h].block;
      s.(handles := s.handles[h := Null], blocks := s.blocks[b := s.blocks[b].(frees := s.blocks[b].frees + 1)])
    case HandOver(_, h, to) => s.(owner := s.owner[h := to])
  }

  /** Any scheduling of any threads: steps that are not enabled are skipped. */
  function Run(s: State, steps: seq<Step>): State
    decreases |steps|
  {
    if steps == [] then s
    else Run(if Enabled(s, steps[0]) then Next(s, steps[0]) else s, steps[1..])
  }

  ghost predicate Initial(s: State)
  {
    s.blocks == [] && |s.owner| == |s.handles| && forall h :: 0 <= h < |s.handles| ==> s.handles[h].Null?
  }

  // ------------------------------------------------------------------- counting

  function Ref(x: Handle, b: nat): nat
  {
    if x == Live(b) || x == Dropping(b) then 1 else 0
  }

  function Pending(x: Handle, b: nat): nat
  {
    if x == Freeing(b) then 1 else 0
  }

  /** Live handles of block `b`, plus drops whose decrement is still to come. */
  function Refs(handles: seq<Handle>, b: nat): (n: nat)
    ensures n <= |handles|
  {
    if handles == [] then 0 else Ref(handles[0], b) + Refs(handles[1..], b)
  }

  /** Frees of block `b` that are still to come. */
  function Pendings(handles: seq<Handle>, b: nat): nat
  {
    if handles == [] then 0 else Pending(handles[0], b) + Pendings(handles[1..], b)
  }

  lemma {:induction false} UpdateCounts(handles: seq<Handle>, h: nat, x: Handle, b: nat)
    requires h < |handles|
    ensures Refs(handles[h := x], b) == Refs(handles, b) - Ref(handles[h], b) + Ref(x, b)
    ensures Pendings(handles[h := x], b) == Pendings(handles, b) - Pending(handles[h], b) + Pending(x, b)
    decreases |handles|
  {
    var n := handles[h := x];
    if h > 0 {
      UpdateCounts(handles[1..], h - 1, x, b);
      assert n[1..] == handles[1..][h - 1 := x];
    } else {
      assert n[1..] == handles[1..];
    }
  }

  lemma {:induction false} SomeRef(handles: seq<Handle>, h: nat, b: nat)
    requires h < |handles|
    ensures Refs(handles, b) >= Ref(handles[h], b)
    ensures Pendings(handles, b) >= Pending(handles[h], b)
    decreases |handles|
  {
    if h > 0 {
      SomeRef(handles[1..], h - 1, b);
    }
  }

  lemma {:induction false} NoRefs(handles: seq<Handle>, b: nat)
    requires forall h :: 0 <= h < |handles| ==> handles[h].Null? || handles[h].block != b
    ensures Refs(handles, b) == 0 && Pendings(handles, b) == 0
    decreases |handles|
  {
    if handles != [] {
      NoRefs(handles[1..], b);
    }
  }

  // ------------------------------------------------------------------ invariant

  /**
    The account of one block: its counter is the number of references, and it has
    been freed, or is about to be, once if there are none and not at all otherwise.
   */
  ghost predicate Accounted(handles: seq<Handle>, blocks: seq<Block>, b: nat)
    requires b < |blocks|
  {
    && blocks[b].count == Refs(handles, b)
    && blocks[b].frees + Pendings(handles, b) == if Refs(handles, b) == 0 then 1 else 0
  }

  /** Fewer than 2^32 handles exist at a time, so the counter cannot wrap. */
  ghost predicate Inv(s: State)
  {
    && |s.owner| == |s.handles| < TWO_TO_THE_32
    && (forall h :: 0 <= h < |s.handles| && !s.handles[h].Null? ==> s.handles[h].block < |s.blocks|)
    && (forall b :: 0 <= b < |s.blocks| ==> Accounted(s.handles, s.blocks, b))
  }

  lemma InitialInv(s: State)
    requires Initial(s) && |s.handles| < TWO_TO_THE_32
    ensures Inv(s)
  {
  }

  lemma TakeKeepsInv(s: State, h: nat)
    requires Inv(s) && h < |s.handles| && s.handles[h].Null?
    ensures Inv(s.(handles := s.handles[h := Live(|s.blocks|)], blocks := s.blocks + [Block(1, 0)]))
  {
    var n := s.(handles := s.handles[h := Live(|s.blocks|)], blocks := s.blocks + [Block(1, 0)]);
    forall b | 0 <= b < |n.blocks| ensures Accounted(n.handles, n.blocks, b) {
      UpdateCounts(s.handles, h, Live(|s.blocks|), b);
      if b < |s.blocks| {
        assert Accounted(s.handles, s.blocks, b);
      } else {
        NoRefs(s.handles, b);
      }
    }
  }

  lemma CopyKeepsInv(s: State, from: nat, to: nat)
    requires Inv(s) && from < |s.handles| && to < |s.handles|
    requires s.handles[from].Live? && s.handles[to].Null?
    ensures var b := s.handles[from].block;
            Inv(s.(handles := s.handles[to := Live(b)],
                   blocks := s.blocks[b := s.blocks[b].(count := (s.blocks[b].count + 1) % TWO_TO_THE_32)]))
  {
    var b := s.handles[from].block;
    var handles := s.handles[to := Live(b)];
    var blocks := s.blocks[b := s.blocks[b].(count := (s.blocks[b].count + 1) % TWO_TO_THE_32)];
    SomeRef(s.handles, from, b);
    forall c | 0 <= c < |blocks| ensures Accounted(handles, blocks, c) {
      UpdateCounts(s.handles, to, Live(b), c);
      assert Accounted(s.handles, s.blocks, c);
      assert Refs(handles, c) <= |handles|;
    }
  }

  lemma SwapKeepsInv(s: State, h: nat, k: nat)
    requires Inv(s) && h < |s.handles| && k < |s.handles|
    ensures Inv(s.(handles := s.handles[h := s.handles[k]][k := s.handles[h]]))
  {
    var one := s.handles[h := s.handles[k]];
    var two := one[k := s.handles[h]];
    forall b | 0 <= b < |s.blocks| ensures Accounted(two, s.blocks, b) {
      UpdateCounts(s.handles, h, s.handles[k], b);
      UpdateCounts(one, k, s.handles[h], b);
      assert Accounted(s.handles, s.blocks, b);
    }
  }

  lemma UnlinkKeepsInv(s: State, h: nat)
    requires Inv(s) && h < |s.handles| && s.handles[h].Live?
    ensures Inv(s.(handles := s.handles[h := Dropping(s.handles[h].block)]))
  {
    var handles := s.handles[h := Dropping(s.handles[h].block)];
    forall b | 0 <= b < |s.blocks| ensures Accounted(handles, s.blocks, b) {
      UpdateCounts(s.handles, h, Dropping(s.handles[h].block), b);
      assert Accounted(s.handles, s.blocks, b);
    }
  }

  lemma DecrementKeepsInv(s: State, h: nat)
    requires Inv(s) && h < |s.handles| && s.handles[h].Dropping?
    ensures var b := s.handles[h].block;
            var count := (s.blocks[b].count - 1) % TWO_TO_THE_32;
            Inv(s.(handles := s.handles[h := if count == 0 then Freeing(b) else Null],
                   blocks := s.blocks[b := s.blocks[b].(count := count)]))
  {
    var b := s.handles[h].block;
    SomeRef(s.handles, h, b);
    assert Accounted(s.handles, s.blocks, b);
    var count := (s.blocks[b].count - 1) % TWO_TO_THE_32;
    assert count == s.blocks[b].count - 1;
    var x := if count == 0 then Freeing(b) else Null;
    var handles := s.handles[h := x];
    var blocks := s.blocks[b := s.blocks[b].(count := count)];
    forall c | 0 <= c < |blocks| ensures Accounted(handles, blocks, c) {
      UpdateCounts(s.handles, h, x, c);
      assert Accounted(s.handles, s.blocks, c);
    }
  }

  lemma FreeKeepsInv(s: State, h: nat)
    requires Inv(s) && h < |s.handles| && s.handles[h].Freeing?
    ensures var b := s.handles[h].block;
            Inv(s.(handles := s.handles[h := Null],
                   blocks := s.blocks[b := s.blocks[b].(frees := s.blocks[b].frees + 1)]))
  {
    var b := s.handles[h].block;
    var handles := s.handles[h := Null];
    var blocks := s.blocks[b := s.blocks[b].(frees := s.blocks[b].frees + 1)];
    forall c | 0 <= c < |blocks| ensures Accounted(handles, blocks, c) {
      UpdateCounts(s.handles, h, Null, c);
      assert Accounted(s.handles, s.blocks, c);
    }
  }

  lemma StepKeepsInv(s: State, step: Step)
    requires Inv(s) && Enabled(s, step)
    ensures Inv(Next(s, step))
  {
    match step
    case TakeOwnership(_, h) => TakeKeepsInv(s, h);
    case Copy(_, from, to) => CopyKeepsInv(s, from, to);
    case Swap(_, h, k) => SwapKeepsInv(s, h, k);
    case Unlink(_, h) => UnlinkKeepsInv(s, h);
    case Decrement(_, h) => DecrementKeepsInv(s, h);
    case Free(_, h) => FreeKeepsInv(s, h);
    case HandOver(_, _, _) =>
  }

  lemma {:induction false} RunKeepsInv(s: State, steps: seq<Step>)
    requires Inv(s)
    ensures Inv(Run(s, steps))
    decreases |steps|
  {
    if steps != [] {
      if Enabled(s, steps[0]) {
        StepKeepsInv(s, steps[0]);
        RunKeepsInv(Next(s, steps[0]), steps[1..]);
      } else {
        RunKeepsInv(s, steps[1..]);
      }
    }
  }

  /**
    Safety over every interleaving: the counter is the number of live handles plus
    pending decrements; a block somebody still refers to has not been freed and
    nobody is about to; no block is freed twice; and once no reference and no drop
    in progress is left, it has been freed exactly once.
   */
  lemma SharingIsSafe(s: State, steps: seq<Step>)
    requires Initial(s) && |s.handles| < TWO_TO_THE_32
    ensures var n := Run(s, steps);
            && (forall b :: 0 <= b < |n.blocks| ==> n.blocks[b].count == Refs(n.handles, b) && n.blocks[b].frees <= 1)
            && (forall h :: 0 <= h < |n.handles| && (n.handles[h].Live? || n.handles[h].Dropping?) ==>
                  n.handles[h].block < |n.blocks|
                  && n.blocks[n.handles[h].block].frees == 0 && Pendings(n.handles, n.handles[h].block) == 0)
            && (forall b :: 0 <= b < |n.blocks| && (forall h :: 0 <= h < |n.handles| ==> Unrelated(n.handles[h], b)) ==>
                  n.blocks[b].frees == 1)
  {
    InitialInv(s);
    RunKeepsInv(s, steps);
    var n := Run(s, steps);
    forall b | 0 <= b < |n.blocks|
      ensures n.blocks[b].count == Refs(n.handles, b) && n.blocks[b].frees <= 1
    {
      assert Accounted(n.handles, n.blocks, b);
    }
    forall h | 0 <= h < |n.handles| && (n.handles[h].Live? || n.handles[h].Dropping?)
      ensures n.handles[h].block < |n.blocks|
      ensures n.blocks[n.handles[h].block].frees == 0 && Pendings(n.handles, n.handles[h].block) == 0
    {
      SomeRef(n.handles, h, n.handles[h].block);
      assert Accounted(n.handles, n.blocks, n.handles[h].block);
    }
    forall b | 0 <= b < |n.blocks| && (forall h :: 0 <= h < |n.handles| ==> Unrelated(n.handles[h], b))
      ensures n.blocks[b].frees == 1
    {
      forall h | 0 <= h < |n.handles| ensures n.handles[h].Null? || n.handles[h].block != b {
        assert Unrelated(n.handles[h], b);
      }
      NoRefs(n.handles, b);
      assert Accounted(n.handles, n.blocks, b);
    }
  }

  predicate Unrelated(x: Handle, b: nat)
  {
    x.Null? || x.block != b
  }

  // ----------------------------------------------------- what one thread may write

  /** ~SharedBuffer, ~Status: unlink, decrement, and free if that was the last reference. */
  function Drop(tid: nat, h: nat): seq<Step>
  {
    [Unlink(tid, h), Decrement(tid, h), Free(tid, h)]
  }

  /** Status::operator=(const Status&): ref the other, unref the own, then assign. */
  function CopyAssign(tid: nat, this_: nat, other: nat, tmp: nat): seq<Step>
  {
    [Copy(tid, other, tmp)] + Drop(tid, this_) + [Swap(tid, this_, tmp)]
  }

  /** Status::operator=(Status&&): unref the own, take the other's pointer, clear it. */
  function MoveAssign(tid: nat, this_: nat, other: nat): seq<Step>
  {
    Drop(tid, this_) + [Swap(tid, this_, other)]
  }

  function Do(s: State, step: Step): State
  {
    if Enabled(s, step) then Next(s, step) else s
  }

  lemma {:induction false} RunInTwo(s: State, a: seq<Step>, b: seq<Step>)
    ensures Run(s, a + b) == Run(Run(s, a), b)
    decreases |a|
  {
    if a == [] {
      assert a + b == b;
    } else {
      assert (a + b)[1..] == a[1..] + b;
      RunInTwo(Do(s, a[0]), a[1..], b);
    }
  }

  lemma RunThree(s: State, x: Step, y: Step, z: Step)
    ensures Run(s, [x, y, z]) == Do(Do(Do(s, x), y), z)
  {
    assert [x, y, z][1..] == [y, z] && [y, z][1..] == [z] && [z][1..] == [];
    assert Run(s, [x, y, z]) == Run(Do(s, x), [y, z]);
    assert Run(Do(s, x), [y, z]) == Run(Do(Do(s, x), y), [z]);
    assert Run(Do(Do(s, x), y), [z]) == Run(Do(Do(Do(s, x), y), z), []);
  }

  lemma RunOne(s: State, x: Step)
    ensures Run(s, [x]) == Do(s, x)
  {
    assert [x][1..] == [];
  }

  /** A quiet handle of a thread: nothing, or a block. */
  ghost predicate Quiet(s: State, tid: nat, h: nat)
  {
    Owns(s, tid, h) && (s.handles[h].Null? || s.handles[h].Live?)
  }

  /** takeOwnership(): an empty handle becomes the one reference of a new block; no other block notices. */
  lemma TakeLands(s: State, tid: nat, h: nat)
    requires Inv(s) && Owns(s, tid, h) && s.handles[h].Null?
    ensures var n := Run(s, [TakeOwnership(tid, h)]);
            && Inv(n) && n.handles == s.handles[h := Live(|s.blocks|)] && n.owner == s.owner
            && n.blocks == s.blocks + [Block(1, 0)]
            && Refs(n.handles, |s.blocks|) == 1
  {
    RunOne(s, TakeOwnership(tid, h));
    RunKeepsInv(s, [TakeOwnership(tid, h)]);
    var n := Run(s, [TakeOwnership(tid, h)]);
    assert Accounted(n.handles, n.blocks, |s.blocks|);
  }

  /** A handle given to another thread is that thread's to act on, and nobody else's. */
  lemma HandOverLands(s: State, tid: nat, h: nat, to: nat)
    requires Owns(s, tid, h)
    ensures var n := Run(s, [HandOver(tid, h, to)]);
            && n.handles == s.handles && n.blocks == s.blocks && n.owner == s.owner[h := to]
            && Owns(n, to, h) && (to != tid ==> !Owns(n, tid, h))
  {
    RunOne(s, HandOver(tid, h, to));
  }

  /** A thread cannot act on a handle it does not own. */
  lemma OthersMayNot(s: State, tid: nat, h: nat, to: nat, k: nat)
    requires !Owns(s, tid, h)
    ensures Run(s, [TakeOwnership(tid, h)]) == Run(s, Drop(tid, h)) == Run(s, [HandOver(tid, h, to)]) == s
    ensures Run(s, [Copy(tid, h, k)]) == Run(s, [Copy(tid, k, h)]) == s
    ensures Run(s, [Swap(tid, h, k)]) == Run(s, [Swap(tid, k, h)]) == s
  {
    RunOne(s, TakeOwnership(tid, h));
    RunOne(s, HandOver(tid, h, to));
    RunOne(s, Copy(tid, h, k));
    RunOne(s, Copy(tid, k, h));
    RunOne(s, Swap(tid, h, k));
    RunOne(s, Swap(tid, k, h));
    RunThree(s, Unlink(tid, h), Decrement(tid, h), Free(tid, h));
  }

  /** Dropping empties the handle, and frees the block exactly if the handle was the last reference. */
  lemma DropLands(s: State, tid: nat, h: nat)
    requires Inv(s) && Quiet(s, tid, h)
    ensures var n := Run(s, Drop(tid, h));
            && Inv(n) && n.handles == s.handles[h := Null] && n.owner == s.owner
            && |n.blocks| == |s.blocks|
            && (forall b :: 0 <= b < |s.blocks| && s.handles[h] != Live(b) ==> n.blocks[b] == s.blocks[b])
            && (s.handles[h].Live? ==>
                  var b := s.handles[h].block;
                  && n.blocks[b].count == s.blocks[b].count - 1
                  && n.blocks[b].frees == if s.blocks[b].count == 1 then 1 else 0)
  {
    RunKeepsInv(s, Drop(tid, h));
    RunThree(s, Unlink(tid, h), Decrement(tid, h), Free(tid, h));
    if s.handles[h].Live? {
      var b := s.handles[h].block;
      SomeRef(s.handles, h, b);
      assert Accounted(s.handles, s.blocks, b);
      var n := Run(s, Drop(tid, h));
      assert n.handles == s.handles[h := Null];
    } else {
      assert s.handles[h := Null] == s.handles;
    }
  }

  /**
    Copy assignment leaves the target with the other's pointer, whatever it held, and
    is safe for self-assignment: nothing is freed then, and nothing else changes.
   */
  lemma CopyAssignLands(s: State, tid: nat, this_: nat, other: nat, tmp: nat)
    requires Inv(s) && Quiet(s, tid, this_) && Quiet(s, tid, other)
    requires Owns(s, tid, tmp) && s.handles[tmp].Null? && tmp != this_ && tmp != other
    ensures var n := Run(s, CopyAssign(tid, this_, other, tmp));
            && Inv(n) && n.handles == s.handles[this_ := s.handles[other]]
            && (s.handles[this_] == s.handles[other] ==> n.blocks == s.blocks)
  {
    RunKeepsInv(s, CopyAssign(tid, this_, other, tmp));
    RunInTwo(s, [Copy(tid, other, tmp)] + Drop(tid, this_), [Swap(tid, this_, tmp)]);
    RunInTwo(s, [Copy(tid, other, tmp)], Drop(tid, this_));
    var one := Run(s, [Copy(tid, other, tmp)]);
    CopyLands(s, tid, other, tmp);
    DropLands(one, tid, this_);
    var two := Run(one, Drop(tid, this_));
    RunOne(two, Swap(tid, this_, tmp));
    if s.handles[this_] == s.handles[other] {
      SelfAssignKeepsBlocks(s, one, two, this_);
    }
    assert Do(two, Swap(tid, this_, tmp)).handles == s.handles[this_ := s.handles[other]];
  }

  ghost predicate OneMore(before: seq<Block>, after: seq<Block>, b: nat)
  {
    && b < |before| && b < |after|
    && after[b].count == before[b].count + 1 && after[b].frees == before[b].frees
  }

  /** Copying to an empty handle shares the block, and counts the new reference. */
  lemma CopyLands(s: State, tid: nat, from: nat, to: nat)
    requires Inv(s) && Quiet(s, tid, from) && Owns(s, tid, to) && s.handles[to].Null?
    ensures var n := Run(s, [Copy(tid, from, to)]);
            && Inv(n) && n.handles == s.handles[to := s.handles[from]] && n.owner == s.owner
            && |n.blocks| == |s.blocks|
            && (forall b :: 0 <= b < |s.blocks| && s.handles[from] != Live(b) ==> n.blocks[b] == s.blocks[b])
            && (s.handles[from].Live? ==> OneMore(s.blocks, n.blocks, s.handles[from].block))
  {
    RunOne(s, Copy(tid, from, to));
    RunKeepsInv(s, [Copy(tid, from, to)]);
    if s.handles[from].Live? {
      var b := s.handles[from].block;
      SomeRef(s.handles, from, b);
      assert Accounted(s.handles, s.blocks, b);
      RefsBelow(s.handles, to, b);
    } else {
      assert s.handles[to := s.handles[from]] == s.handles;
    }
  }

  /** A handle without a block leaves room for one reference more. */
  lemma {:induction false} RefsBelow(handles: seq<Handle>, h: nat, b: nat)
    requires h < |handles| && handles[h].Null?
    ensures Refs(handles, b) < |handles|
  {
    if h > 0 {
      RefsBelow(handles[1..], h - 1, b);
    }
  }

  /**
    A block's life, from wherever it begins: taken by one handle, shared with a second,
    kept when the first is dropped and freed when the second is.
   */
  lemma BlockLives(s: State, tid: nat, h: nat, k: nat)
    requires Inv(s) && Owns(s, tid, h) && Owns(s, tid, k) && h != k && s.handles[h].Null? && s.handles[k].Null?
    ensures var b := |s.blocks|;
            var shared := Run(s, [TakeOwnership(tid, h)] + [Copy(tid, h, k)]);
            var one := Run(shared, Drop(tid, h));
            var none := Run(one, Drop(tid, k));
            && |shared.blocks| == |one.blocks| == |none.blocks| == b + 1
            && shared.handles == s.handles[h := Live(b)][k := Live(b)] && shared.blocks[b] == Block(2, 0)
            && one.handles == s.handles[k := Live(b)] && one.blocks[b] == Block(1, 0)
            && none.handles == s.handles && none.blocks == s.blocks + [Block(0, 1)]
            && Inv(none)
  {
    var b := |s.blocks|;
    TakeLands(s, tid, h);
    var taken := Run(s, [TakeOwnership(tid, h)]);
    RunInTwo(s, [TakeOwnership(tid, h)], [Copy(tid, h, k)]);
    CopyLands(taken, tid, h, k);
    var shared := Run(taken, [Copy(tid, h, k)]);
    DropLands(shared, tid, h);
    assert shared.blocks[b] == Block(2, 0);
    var one := Run(shared, Drop(tid, h));
    assert one.handles == s.handles[k := Live(b)];
    DropLands(one, tid, k);
    var none := Run(one, Drop(tid, k));
    assert none.handles == s.handles;
    assert none.blocks[b] == Block(0, 1);
    assert none.blocks == s.blocks + [Block(0, 1)];
  }

  /** Such a life is among the runs SharingIsSafe speaks of. */
  lemma SharingHappens(s: State, tid: nat, h: nat, k: nat)
    requires Initial(s) && |s.handles| < TWO_TO_THE_32 && Owns(s, tid, h) && Owns(s, tid, k) && h != k
    ensures var shared := Run(s, [TakeOwnership(tid, h)] + [Copy(tid, h, k)]);
            && shared.blocks == [Block(2, 0)]
            && Run(shared, Drop(tid, h)).blocks == [Block(1, 0)]
            && Run(Run(shared, Drop(tid, h)), Drop(tid, k)).blocks == [Block(0, 1)]
  {
    InitialInv(s);
    BlockLives(s, tid, h, k);
  }

  lemma SelfAssignKeepsBlocks(s: State, one: State, two: State, h: nat)
    requires Inv(s) && h < |s.handles| && |one.blocks| == |two.blocks| == |s.blocks|
    requires s.handles[h].Null? || s.handles[h].Live?
    requires forall c :: 0 <= c < |s.blocks| && s.handles[h] != Live(c) ==>
               one.blocks[c] == s.blocks[c] && two.blocks[c] == one.blocks[c]
    requires s.handles[h].Live? ==>
               var b := s.handles[h].block;
               && OneMore(s.blocks, one.blocks, b)
               && two.blocks[b].count == one.blocks[b].count - 1
               && two.blocks[b].frees == (if one.blocks[b].count == 1 then 1 else 0)
    ensures two.blocks == s.blocks
  {
    if s.handles[h].Live? {
      CountFits(s, h);
    }
    assert forall c :: 0 <= c < |s.blocks| ==> two.blocks[c] == s.blocks[c];
  }

  lemma CountFits(s: State, h: nat)
    requires Inv(s) && h < |s.handles| && s.handles[h].Live?
    ensures var b := s.handles[h].block;
            s.blocks[b].count >= 1 && s.blocks[b].frees == 0
  {
    SomeRef(s.handles, h, s.handles[h].block);
    assert Accounted(s.handles, s.blocks, s.handles[h].block);
  }

  /** Move assignment hands the pointer over; moving onto oneself empties the handle. */
  lemma MoveAssignLands(s: State, tid: nat, this_: nat, other: nat)
    requires Inv(s) && Quiet(s, tid, this_) && Quiet(s, tid, other)
    ensures var n := Run(s, MoveAssign(tid, this_, other));
            && Inv(n)
            && n.handles == if this_ == other then s.handles[this_ := Null]
                            else s.handles[this_ := s.handles[other]][other := Null]
  {
    RunKeepsInv(s, MoveAssign(tid, this_, other));
    RunInTwo(s, Drop(tid, this_), [Swap(tid, this_, other)]);
    DropLands(s, tid, this_);
    var one := Run(s, Drop(tid, this_));
    RunOne(one, Swap(tid, this_, other));
  }

  /** moveFrom(): swapping with an empty handle moves the reference; no counter is touched. */
  lemma MoveFromLands(s: State, tid: nat, h: nat, out: nat)
    requires Inv(s) && Quiet(s, tid, h) && Owns(s, tid, out) && s.handles[out].Null? && h != out
    ensures var n := Run(s, [Swap(tid, h, out)]);
            n.blocks == s.blocks && n.handles == s.handles[out := s.handles[h]][h := Null]
  {
    RunOne(s, Swap(tid, h, out));
  }
}
