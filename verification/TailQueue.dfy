/**
 * The tail queue of private.h. An element's back link and the queue's last link
 * are addresses of pointer cells: of the queue's first pointer, or of the next
 * pointer of an element.
 */
module TailQueue {

  /** The address of a pointer cell. */
  datatype Link<T> = Nowhere | FirstOf(queue: Queue<T>) | NextOf(entry: Entry<T>)

  class Entry<T> {
    const data: T
    var next: Entry?<T>
    var prev: Link<T>

    constructor (data: T)
      ensures this.data == data && next == null && prev == Nowhere
    {
      this.data := data;
      next, prev := null, Nowhere;
    }
  }

  function Data<T>(es: seq<Entry<T>>): (s: seq<T>)
    ensures |s| == |es| && forall i :: 0 <= i < |s| ==> s[i] == es[i].data
  {
    seq(|es|, i requires 0 <= i < |es| => es[i].data)
  }

  /** What an element more at either end adds to the data. */
  lemma DataOfOneMore<T>(e: Entry<T>, es: seq<Entry<T>>)
    ensures Data([e] + es) == [e.data] + Data(es)
    ensures Data(es + [e]) == Data(es) + [e.data]
  {
  }

  class Queue<T> {
    var first: Entry?<T>
    var last: Link<T>
    ghost var elems: seq<Entry<T>>

    /** TAILQ_INIT. */
    constructor ()
      ensures Valid() && elems == []
    {
      first := null;
      last := FirstOf(this);
      elems := [];
    }

    /** The pointer stored in the cell that a link addresses. */
    ghost function Deref(link: Link<T>): Entry?<T>
      reads match link case Nowhere => {} case FirstOf(q) => {q} case NextOf(e) => {e}
    {
      match link
      case Nowhere => null
      case FirstOf(q) => q.first
      case NextOf(e) => e.next
    }

    /** The pointers run through the elements, the back links through the cells that hold them. */
    ghost predicate Valid()
      reads this, elems
    {
      && (forall i, j :: 0 <= i < j < |elems| ==> elems[i] != elems[j])
      && (elems == [] ==> first == null && last == FirstOf(this))
      && (elems != [] ==>
            && first == elems[0] && elems[0].prev == FirstOf(this)
            && elems[|elems| - 1].next == null && last == NextOf(elems[|elems| - 1]))
      && (forall i {:trigger elems[i].next} :: 0 <= i < |elems| - 1 ==> elems[i].next == elems[i + 1])
      && (forall i {:trigger elems[i].prev} :: 1 <= i < |elems| ==> elems[i].prev == NextOf(elems[i - 1]))
    }

    /**
     * Every back link addresses the cell that points at its element, and the last
     * link addresses the cell that holds the final null.
     */
    lemma LinksAddressTheirCells()
      requires Valid()
      ensures forall i :: 0 <= i < |elems| ==> Deref(elems[i].prev) == elems[i]
      ensures last != Nowhere && Deref(last) == null
    {
      forall i | 0 <= i < |elems|
        ensures Deref(elems[i].prev) == elems[i]
      {
        if i > 0 {
          assert elems[i - 1].next == elems[i];
        }
      }
    }

    /** The data of the elements, first to last. */
    ghost function Contents(): seq<T>
      reads this
    {
      Data(elems)
    }

    /** TAILQ_INSERT_HEAD. */
    method InsertHead(elm: Entry<T>)
      requires Valid() && elm !in elems
      modifies this, elems, elm`next, elm`prev
      ensures Valid() && elems == [elm] + old(elems)
    {
      elm.next := first;
      if elm.next != null {
        first.prev := NextOf(elm);
      } else {
        last := NextOf(elm);
      }
      first := elm;
      elm.prev := FirstOf(this);
      elems := [elm] + elems;
    }

    /** TAILQ_INSERT_TAIL. */
    method InsertTail(elm: Entry<T>)
      requires Valid() && elm !in elems
      modifies this, elems, elm`next, elm`prev
      ensures Valid() && elems == old(elems) + [elm]
    {
      elm.next := null;
      elm.prev := last;
      match last {
        case FirstOf(q) => q.first := elm;
        case NextOf(e) => e.next := elm;
      }
      last := NextOf(elm);
      elems := elems + [elm];
    }

    /** TAILQ_REMOVE; k is where the element stands. The element keeps its own links. */
    method Remove(elm: Entry<T>, ghost k: nat)
      requires Valid() && k < |elems| && elems[k] == elm
      modifies this, elems
      ensures Valid() && elems == old(elems)[..k] + old(elems)[k + 1..]
    {
      if elm.next != null {
        elm.next.prev := elm.prev;
      } else {
        last := elm.prev;
      }
      match elm.prev {
        case FirstOf(q) => q.first := elm.next;
        case NextOf(e) => e.next := elm.next;
      }
      elems := elems[..k] + elems[k + 1..];
    }

    /**
     * The drain loop of a pool on its linked queue: whatever stands first is taken
     * out, until nothing does. It ends, and takes the elements in order.
     */
    method Drain() returns (taken: seq<T>)
      requires Valid()
      modifies this, elems
      ensures Valid() && elems == [] && first == null && taken == old(Contents())
    {
      taken := [];
      ghost var all, k := elems, 0;
      while first != null
        invariant Valid() && 0 <= k <= |all| && elems == all[k..] && taken == Data(all[..k])
        decreases |elems|
      {
        taken := taken + [first.data];
        DataOfOneMore(all[k], all[..k]);
        assert all[..k + 1] == all[..k] + [all[k]];
        Remove(first, 0);
        k := k + 1;
        assert elems == all[k..];
      }
      assert all[..k] == all;
    }

    /** TAILQ_REMOVE of the other queue's last element with the head of this one: both last links are wrong then. */
    method RemoveEnd(elm: Entry<T>, other: Queue<T>)
      requires Valid() && other.Valid() && other != this
      requires forall e :: e in other.elems ==> e !in elems
      requires other.elems != [] && other.elems[|other.elems| - 1] == elm
      modifies this`last, other, other.elems
      ensures elems == old(elems) && other.elems == old(other.elems)[..|old(other.elems)| - 1]
      ensures !Valid() && !other.Valid()
    {
      ghost var k := |other.elems| - 1;
      last := elm.prev;
      match elm.prev {
        case FirstOf(q) => q.first := null;
        case NextOf(e) => e.next := null;
      }
      assert k > 0 ==> other.elems[k - 1] !in elems;
      other.elems := other.elems[..k];
      assert elems != [] ==> last != NextOf(elems[|elems| - 1]);
    }

    /**
     * TAILQ_REMOVE with the head of this queue, of an element that stands in the
     * other one, which is what apxCloseHandle does with a pool: it names its
     * parent's queue of handles, while the pool stands in the queue of pools. Both
     * queues stay well linked if and only if the element is not the last.
     */
    method RemoveThrough(elm: Entry<T>, other: Queue<T>, ghost k: nat)
      requires Valid() && other.Valid() && other != this
      requires forall e :: e in other.elems ==> e !in elems
      requires k < |other.elems| && other.elems[k] == elm
      modifies this`last, other, other.elems
      ensures elems == old(elems) && other.elems == old(other.elems)[..k] + old(other.elems)[k + 1..]
      ensures Valid() && other.Valid() <==> k + 1 < |old(other.elems)|
      ensures Valid() <==> other.Valid()
    {
      assert k + 1 < |other.elems| ==> elm.next == other.elems[k + 1];
      if elm.next != null {
        assert forall i :: 0 <= i < |elems| ==> elems[i] !in other.elems;
        other.Remove(elm, k);
      } else {
        RemoveEnd(elm, other);
      }
    }
  }

  /** The only pool, taken out through an empty queue of handles: both queues are broken. */
  method OnlyPool() returns (handles: Queue<nat>, pools: Queue<nat>)
    ensures fresh(handles) && fresh(pools) && !handles.Valid() && !pools.Valid()
  {
    handles := new Queue<nat>();
    pools := new Queue<nat>();
    var pool := new Entry<nat>(0);
    pools.InsertHead(pool);
    handles.RemoveThrough(pool, pools, 0);
  }
}
