/** The doubly linked list of pointers under the kernel timers. */
module PtrLists {
  class Element<T> {
    const ptr: T
    var prev: Element?<T>
    var next: Element?<T>

    constructor (ptr: T)
      ensures this.ptr == ptr && prev == null && next == null
    {
      this.ptr := ptr;
      prev, next := null, null;
    }
  }

  class PtrList<T(==)> {
    var first: Element?<T>
    ghost var elements: seq<Element<T>>

    /** The element at index i, or null just outside the list. */
    ghost function At(i: int): Element?<T>
      requires -1 <= i <= |elements|
      reads this`elements
    {
      if 0 <= i < |elements| then elements[i] else null
    }

    ghost predicate LinkedAt(i: nat)
      requires i < |elements|
      reads this`elements, elements[i]
    {
      elements[i].prev == At(i - 1) && elements[i].next == At(i + 1)
    }

    ghost predicate Valid()
      reads this, elements
    {
      && first == At(0)
      && (forall i | 0 <= i < |elements| :: LinkedAt(i))
      && (forall i, j | 0 <= i < j < |elements| :: elements[i] != elements[j])
    }

    /** What the list holds, from first to last. */
    ghost function Contents(): (c: seq<T>)
      reads this`elements
      ensures |c| == |elements| && forall i | 0 <= i < |c| :: c[i] == elements[i].ptr
    {
      var es := elements;
      seq(|es|, i requires 0 <= i < |es| => es[i].ptr)
    }

    constructor ()
      ensures Valid() && elements == []
    {
      first := null;
      elements := [];
    }

    method InsertBefore(after: Element<T>, ptr: T, ghost i: nat)
      requires Valid() && i < |elements| && elements[i] == after
      modifies this, elements
      ensures Valid() && |elements| == |old(elements)| + 1 && fresh(elements[i]) && elements[i].ptr == ptr
      ensures elements == old(elements)[..i] + [elements[i]] + old(elements)[i..]
    {
      var element := new Element(ptr);
      assert LinkedAt(i);
      if after == first {
        assert i == 0;
        element.prev := null;
        element.next := after;
        first.prev := element;
        first := element;
      } else {
        element.prev := after.prev;
        element.next := after;
        if after.prev != null {
          after.prev.next := element;
        }
        after.prev := element;
      }
      elements := elements[..i] + [element] + elements[i..];
      forall k | 0 <= k < |elements|
        ensures LinkedAt(k)
      {
        assert k < i ==> old(LinkedAt(k));
        assert k > i ==> old(LinkedAt(k - 1));
      }
    }

    /** `before` is null if the list is empty; then i is -1. */
    method InsertAfter(before: Element?<T>, ptr: T, ghost i: int)
      requires Valid() && -1 <= i < |elements| && before == At(i) && (i == -1 ==> elements == [])
      modifies this, elements
      ensures Valid() && |elements| == |old(elements)| + 1 && fresh(elements[i + 1]) && elements[i + 1].ptr == ptr
      ensures elements == old(elements)[..i + 1] + [elements[i + 1]] + old(elements)[i + 1..]
    {
      var element := new Element(ptr);
      if before == null {
        element.prev := null;
        element.next := null;
        first := element;
      } else {
        assert LinkedAt(i);
        element.prev := before;
        element.next := before.next;
        if before.next != null {
          before.next.prev := element;
        }
        before.next := element;
      }
      elements := elements[..i + 1] + [element] + elements[i + 1..];
      forall k | 0 <= k < |elements|
        ensures LinkedAt(k)
      {
        assert 0 <= k <= i ==> old(LinkedAt(k));
        assert k > i + 1 ==> old(LinkedAt(k - 1));
      }
    }

    method Remove(element: Element<T>, ghost i: nat)
      requires Valid() && i < |elements| && elements[i] == element
      modifies this, elements
      ensures Valid() && elements == old(elements)[..i] + old(elements)[i + 1..]
    {
      assert LinkedAt(i);
      if element == first {
        assert i == 0;
        first := element.next;
        if element.next != null {
          element.next.prev := null;
        }
      } else {
        element.prev.next := element.next;
        if element.next != null {
          element.next.prev := element.prev;
        }
      }
      elements := elements[..i] + elements[i + 1..];
      forall k | 0 <= k < |elements|
        ensures LinkedAt(k)
      {
        assert k < i ==> old(LinkedAt(k));
        assert k >= i ==> old(LinkedAt(k + 1));
      }
    }

    /** The first element that holds a pointer, if any does. */
    method Find(ptr: T) returns (found: Element?<T>, ghost i: nat)
      requires Valid()
      ensures i <= |elements| && found == At(i)
      ensures ptr !in Contents()[..i]
      ensures found != null ==> found.ptr == ptr
    {
      found, i := first, 0;
      while found != null
        invariant i <= |elements| && found == At(i)
        invariant ptr !in Contents()[..i]
        decreases |elements| - i
      {
        if found.ptr == ptr {
          return;
        }
        assert LinkedAt(i);
        assert Contents()[..i + 1] == Contents()[..i] + [found.ptr];
        found, i := found.next, i + 1;
      }
    }
  }
}
