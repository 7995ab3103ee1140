/**
  The retry loops of mongo/platform/atomic_intrinsics_*.h as one thread runs them, with
  the writes of other threads coming in between a read and the next compare-and-swap.
  Atomics looks at all threads at once; here the loops themselves are proved to end and
  to commit exactly once.
 */
module AtomicLoops {
  import opened Bytes
  import opened Atomics

  /** The shared word, and every value it ever held, the oldest first. */
  class Cell {
    var value: Word
    ghost var history: seq<Word>

    ghost predicate Valid()
      reads this
    {
      history != [] && history[|history| - 1] == value
    }

    constructor (value: Word)
      ensures Valid() && this.value == value && history == [value]
    {
      this.value, history := value, [value];
    }

    /** A write by another thread. */
    method Write(newValue: Word)
      requires Valid()
      modifies this
      ensures Valid() && value == newValue && history == old(history) + [newValue]
    {
      value, history := newValue, history + [newValue];
    }

    /** The instruction, as in Atomics. */
    method CompareAndSwap(expected: Word, newValue: Word) returns (result: Word)
      requires Valid()
      modifies this
      ensures Valid() && (value, result) == Atomics.CompareAndSwap(old(value), expected, newValue)
      ensures history == old(history) + if result == expected then [newValue] else []
    {
      result := value;
      if value == expected {
        value, history := newValue, history + [newValue];
      }
    }
  }

  /** load() of a wide word: the instruction with equal arguments, which changes nothing. */
  method Load(dest: Cell) returns (result: Word)
    requires dest.Valid()
    modifies dest
    ensures dest.Valid() && result == old(dest.value) && dest.value == old(dest.value) && dest.history == old(dest.history)
  {
    LoadByCompareAndSwap(dest.value);
    var (cell, found) := CompareAndSwap(dest.value, 0, 0);
    dest.value, result := cell, found;
  }

  /** What the others do around one attempt: what a plain read then returns, and a write after it. */
  datatype Other = Other(read: Word, write: Option<Word>)

  function Written(others: seq<Other>): seq<Word>
  {
    if others == [] then []
    else
      var last := others[|others| - 1];
      Written(others[..|others| - 1]) + if last.write.Some? then [last.write.value] else []
  }

  /**
    One commit: what the others wrote during `n` attempts, then the call's own value;
    the result is what it replaced.
   */
  ghost predicate CommittedOnce(before: seq<Word>, after: seq<Word>, others: seq<Other>, n: nat, req: Request, result: Word)
  {
    && n <= |others| && before != []
    && var soFar := before + Written(others[..n]);
    && result == soFar[|soFar| - 1]
    && after == soFar + [Desired(req, result)]
  }

  lemma Commits(before: seq<Word>, after: seq<Word>, others: seq<Other>, n: nat, req: Request, found: Word)
    requires n <= |others| && before != []
    requires found == (before + Written(others[..n]))[|before + Written(others[..n])| - 1]
    requires after == before + Written(others[..n]) + [Desired(req, found)]
    ensures CommittedOnce(before, after, others, n, req, found)
  {
  }

  /** The others' write, if any, before the next attempt. */
  method Interfere(dest: Cell, others: seq<Other>, i: nat, ghost before: seq<Word>) returns (next: nat)
    requires dest.Valid() && i <= |others| && dest.history == before + Written(others[..i])
    modifies dest
    ensures dest.Valid() && next == (if i < |others| then i + 1 else i)
    ensures dest.history == before + Written(others[..next])
    ensures i == |others| ==> dest.value == old(dest.value)
  {
    next := i;
    if i < |others| {
      next := i + 1;
      assert others[..i + 1][..i] == others[..i];
      if others[i].write.Some? {
        dest.Write(others[i].write.value);
      }
    }
  }

  /** A write of the others, if there is one left, then the call's compareAndSwap. */
  method Attempt(dest: Cell, expected: Word, req: Request, others: seq<Other>, i: nat, ghost before: seq<Word>)
    returns (result: Word, next: nat)
    requires dest.Valid() && i <= |others| && before != [] && dest.history == before + Written(others[..i])
    modifies dest
    ensures dest.Valid() && i <= next <= |others| && (next == i ==> i == |others|)
    ensures next == i ==> result == old(dest.value)
    ensures result == expected ==>
              && CommittedOnce(before, dest.history, others, next, req, result)
              && dest.value == Desired(req, result)
    ensures result != expected ==> dest.value == result && dest.history == before + Written(others[..next])
  {
    next := Interfere(dest, others, i, before);
    result := dest.CompareAndSwap(expected, Desired(req, expected));
    if result == expected {
      Commits(before, dest.history, others, next, req, result);
    }
  }

  /** swap() of gcc_sync and win32: goes on with the value the instruction returned. */
  method SwapReuse(dest: Cell, newValue: Word, observed: Word, others: seq<Other>) returns (result: Word, ghost n: nat)
    requires dest.Valid()
    modifies dest
    ensures dest.Valid() && dest.value == newValue
    ensures CommittedOnce(old(dest.history), dest.history, others, n, Swap(newValue), result)
  {
    ghost var before := dest.history;
    var currentValue := observed;
    var i: nat := 0;
    while true
      invariant dest.Valid() && i <= |others| && dest.history == before + Written(others[..i])
      decreases |others| - i, if currentValue == dest.value then 0 else 1
    {
      result, i := Attempt(dest, currentValue, Swap(newValue), others, i, before);
      if result == currentValue {
        return result, i;
      }
      currentValue := result;
    }
  }

  /** fetchAndAdd() of win32. */
  method FetchAndAddReuse(dest: Cell, increment: Word, observed: Word, others: seq<Other>)
    returns (result: Word, ghost n: nat)
    requires dest.Valid()
    modifies dest
    ensures dest.Valid() && dest.value == (result + increment) % TWO_TO_THE_64
    ensures CommittedOnce(old(dest.history), dest.history, others, n, FetchAndAdd(increment), result)
  {
    ghost var before := dest.history;
    var currentValue := observed;
    var i: nat := 0;
    while true
      invariant dest.Valid() && i <= |others| && dest.history == before + Written(others[..i])
      decreases |others| - i, if currentValue == dest.value then 0 else 1
    {
      result, i := Attempt(dest, currentValue, FetchAndAdd(increment), others, i, before);
      if result == currentValue {
        return result, i;
      }
      currentValue := result;
    }
  }

  /** swap() of gcc_intel for wide words: reads again before every attempt, and the read may tear. */
  method SwapReload(dest: Cell, newValue: Word, others: seq<Other>) returns (actual: Word, ghost n: nat)
    requires dest.Valid()
    modifies dest
    ensures dest.Valid() && dest.value == newValue
    ensures CommittedOnce(old(dest.history), dest.history, others, n, Swap(newValue), actual)
  {
    ghost var before := dest.history;
    var i: nat := 0;
    while true
      invariant dest.Valid() && i <= |others| && dest.history == before + Written(others[..i])
      decreases |others| - i
    {
      var expected := if i < |others| then others[i].read else dest.value;
      actual, i := Attempt(dest, expected, Swap(newValue), others, i, before);
      if actual == expected {
        return actual, i;
      }
    }
  }

  /** fetchAndAdd() of gcc_intel for wide words: its reads are atomic loads. */
  method FetchAndAddReload(dest: Cell, increment: Word, others: seq<Other>) returns (actual: Word, ghost n: nat)
    requires dest.Valid()
    modifies dest
    ensures dest.Valid() && dest.value == (actual + increment) % TWO_TO_THE_64
    ensures CommittedOnce(old(dest.history), dest.history, others, n, FetchAndAdd(increment), actual)
  {
    ghost var before := dest.history;
    var i: nat := 0;
    while true
      invariant dest.Valid() && i <= |others| && dest.history == before + Written(others[..i])
      decreases |others| - i
    {
      var expected := Load(dest);
      actual, i := Attempt(dest, expected, FetchAndAdd(increment), others, i, before);
      if actual == expected {
        return actual, i;
      }
    }
  }
}
