/**
  The counting handles as objects: Status over its ErrorInfo (mongo/base/status-inl.h) and
  SharedBuffer over its Holder (mongo/util/shared_buffer.h), called from one thread.
  RefCounts proves the same discipline for every interleaving of threads.
 */
module Handles {
  import opened Bytes

  const MAX_REFS: uint32 := 0xFFFF_FFFF

  /** A Holder or an ErrorInfo: the counter, and for the record who refers to it. */
  class Counted {
    var refs: uint32
    ghost var handles: set<Handle>
    ghost var freed: bool

    /** The counter is the number of handles, but for `ahead` that are yet to be linked. */
    ghost predicate Counts(ahead: nat)
      reads this, handles
    {
      && refs == |handles| + ahead
      && (freed <==> refs == 0)
      && forall h :: h in handles ==> h.target == this
    }

    /** Holder(1U): counts its first handle already, which is yet to be linked. */
    constructor ()
      ensures refs == 1 && handles == {} && !freed
    {
      refs, handles, freed := 1, {}, false;
    }

    /** intrusive_ptr_add_ref, ref. */
    method Ref()
      requires refs < MAX_REFS
      modifies this`refs
      ensures refs == old(refs) + 1
    {
      refs := refs + 1;
    }

    /** intrusive_ptr_release, unref: frees what nobody refers to any more. */
    method Unref()
      requires refs >= 1 && !freed
      modifies this`refs, this`freed
      ensures refs == old(refs) - 1 && freed == (refs == 0)
    {
      refs := refs - 1;
      if refs == 0 {
        freed := true;
      }
    }
  }

  class Handle {
    var target: Counted?

    /** The handle is one of those its target counts. */
    ghost predicate Good()
      reads this, target, if target == null then {} else target.handles
    {
      target != null ==> this in target.handles && target.Counts(0)
    }

    constructor ()
      ensures target == null
    {
      target := null;
    }

    /** takeOwnership(): the one handle of a new block. */
    constructor TakeOwnership()
      ensures Good() && fresh(target) && target.handles == {this}
    {
      var holder := new Counted();
      target := holder;
      new;
      holder.handles := {this};
    }

    /** The copy constructors. */
    constructor Copy(other: Handle)
      requires other.Good() && (other.target != null ==> other.target.refs < MAX_REFS)
      modifies other.target
      ensures Good() && other.Good() && target == other.target == old(other.target)
      ensures target != null ==> other.target.handles == old(other.target.handles) + {this}
    {
      target := null;
      new;
      if other.target != null {
        other.target.Ref();
        Adopt(other.target);
      }
    }

    /** Links a handle that was counted in advance. */
    method Adopt(c: Counted)
      requires target == null && this !in c.handles && c.Counts(1)
      modifies this, c`handles
      ensures target == c && c.handles == old(c.handles) + {this} && c.Counts(0)
    {
      target := c;
      c.handles := c.handles + {this};
    }

    /** Gives the block up, which is freed if this was its last reference. */
    method Release(ghost ahead: nat)
      requires target != null ==> this in target.handles && target.Counts(ahead)
      modifies this, target
      ensures target == null
      ensures old(target) != null ==>
                && old(target).handles == old(target.handles) - {this} && old(target).Counts(ahead)
                && old(target).refs == old(target.refs) - 1
    {
      if target != null {
        target.Unref();
        target.handles := target.handles - {this};
        target := null;
      }
    }

    /** The destructors. */
    method Drop()
      requires Good()
      modifies this, target
      ensures target == null
      ensures old(target) != null ==>
                && old(target).handles == old(target.handles) - {this} && old(target).Counts(0)
                && (old(target).freed <==> old(target.handles) == {this})
    {
      Release(0);
    }

    /**
      Status::operator=: counts the other's block before it gives up its own, so that
      assigning a handle to itself, or to one of the same block, frees nothing.
     */
    method Assign(other: Handle)
      requires Good() && other.Good() && (other.target != null ==> other.target.refs < MAX_REFS)
      modifies this, target, other.target
      ensures Good() && target == old(other.target)
      ensures target != null ==> target.handles == old(other.target.handles) + {this} && !target.freed
      ensures old(target) != old(other.target) && old(target) != null ==>
                && old(target).handles == old(target.handles) - {this} && old(target).Counts(0)
                && (old(target).freed <==> old(target.handles) == {this})
    {
      var error := other.target;
      ghost var mine := target;
      if error != null {
        error.Ref();
        assert error.Counts(1);
      }
      assert mine != null && mine != error ==> mine.Counts(0);
      Release(if error == target then 1 else 0);
      if error != null {
        assert error.Counts(1) && this !in error.handles;
        Adopt(error);
      }
      assert mine != null && mine != error ==> mine.Counts(0);
    }

    /** Takes the reference of a handle that is left empty. */
    method Steal(other: Handle)
      requires target == null && other.Good()
      modifies this, other, other.target
      ensures Good() && target == old(other.target) && other.target == null
      ensures target != null ==>
                && target.handles == old(other.target.handles) - {other} + {this}
                && target.refs == old(other.target.refs) && !target.freed
    {
      target := other.target;
      other.target := null;
      if target != null {
        SameSize(target.handles, other, this);
        target.handles := target.handles - {other} + {this};
      }
    }

    /**
      The move assignment of Status: it lets its own block go first, then takes the
      other's. Assigning a handle to itself leaves it empty.
     */
    method MoveAssign(other: Handle)
      requires Good() && other.Good()
      modifies this, other, target, other.target
      ensures Good() && other.target == null && target == if this == other then null else old(other.target)
      ensures target != null ==> target.handles == old(other.target.handles) - {other} + {this} && !target.freed
      ensures (this == other || old(target) != old(other.target)) && old(target) != null ==>
                && old(target).handles == old(target.handles) - {this} && old(target).Counts(0)
                && (old(target).freed <==> old(target.handles) == {this})
    {
      Release(0);
      Steal(other);
    }

    /** moveFrom(): an empty handle takes the reference by a swap; the counter stays. */
    method MoveFrom() returns (out: Handle)
      requires Good()
      modifies this, target
      ensures fresh(out) && out.Good() && out.target == old(target) && target == null
      ensures out.target != null ==>
                && old(target).handles == old(target.handles) - {this} + {out}
                && old(target).refs == old(target.refs) && !old(target).freed
    {
      out := new Handle();
      out.Steal(this);
    }
  }

  lemma SameSize<T>(s: set<T>, x: T, y: T)
    requires x in s && y !in s
    ensures |s - {x} + {y}| == |s|
  {
  }
}
