/**
 lib/cc_double_link.c: doubly linked list elements.  Any element stands for the
 whole list it is in, so every operation takes, as ghost parameters, the list's
 elements in order and the position it is called at.
 */
module DoubleLink {

  class Element<T> {
    var data: T
    var prev: Element?<T>
    var next: Element?<T>
    ghost var home: int  // which of its owner's lists the element is in

    constructor (data: T)
      ensures this.data == data && prev == null && next == null
    {
      this.data := data;
      prev, next := null, null;
    }
  }

  /** s is a complete list: first to last, prev and next mirror each other. */
  ghost predicate Linked<T>(s: seq<Element<T>>)
    reads s
  {
    && (forall i {:trigger s[i].prev} :: 0 <= i < |s| ==> s[i].prev == if i == 0 then null else s[i - 1])
    && (forall i {:trigger s[i].next} :: 0 <= i < |s| ==> s[i].next == if i == |s| - 1 then null else s[i + 1])
    && (forall i, j :: 0 <= i < j < |s| ==> s[i] != s[j])
  }

  method CreateDlist<T>(nil: T) returns (e: Element<T>)
    ensures fresh(e) && Linked([e]) && e.data == nil
  {
    e := new Element(nil);
  }

  method InsertBeforeDlist<T>(element: Element<T>, data: T, ghost s: seq<Element<T>>, ghost i: nat)
    returns (newPrev: Element<T>)
    requires Linked(s) && i < |s| && s[i] == element
    modifies s`prev, s`next
    ensures fresh(newPrev) && newPrev.data == data
    ensures Linked(s[..i] + [newPrev] + s[i..])
  {
    newPrev := new Element(data);
    if element.prev != null {
      var oldPrev := element.prev;
      newPrev.prev := oldPrev;
      oldPrev.next := newPrev;
    }
    element.prev := newPrev;
    newPrev.next := element;
  }

  method InsertAfterDlist<T>(element: Element<T>, data: T, ghost s: seq<Element<T>>, ghost i: nat)
    returns (newNext: Element<T>)
    requires Linked(s) && i < |s| && s[i] == element
    modifies s`prev, s`next
    ensures fresh(newNext) && newNext.data == data
    ensures Linked(s[..i + 1] + [newNext] + s[i + 1..])
  {
    newNext := new Element(data);
    if element.next != null {
      var oldNext := element.next;
      newNext.next := oldNext;
      oldNext.prev := newNext;
    }
    element.next := newNext;
    newNext.prev := element;
  }

  method GetFirstElement<T>(element: Element<T>, ghost s: seq<Element<T>>, ghost i: nat)
    returns (first: Element<T>)
    requires Linked(s) && i < |s| && s[i] == element
    ensures first == s[0]
  {
    first := element;
    ghost var k := i;
    while first.prev != null
      invariant 0 <= k < |s| && first == s[k]
      decreases k
    {
      first := first.prev;
      k := k - 1;
    }
  }

  method GetLastElement<T>(element: Element<T>, ghost s: seq<Element<T>>, ghost i: nat)
    returns (last: Element<T>)
    requires Linked(s) && i < |s| && s[i] == element
    ensures last == s[|s| - 1]
  {
    last := element;
    ghost var k := i;
    while last.next != null
      invariant k < |s| && last == s[k]
      decreases |s| - k
    {
      last := last.next;
      k := k + 1;
    }
  }

  /** The first match at or after the start, else the nearest one before it,
      else NULL: exactly when no element of the whole list matches. */
  method FindElement<T(==)>(element: Element<T>, data: T, ghost s: seq<Element<T>>, ghost i: nat)
    returns (found: Element?<T>, ghost at: int)
    requires Linked(s) && i < |s| && s[i] == element
    ensures found == null <==> forall k :: 0 <= k < |s| ==> s[k].data != data
    ensures found != null ==> 0 <= at < |s| && found == s[at] && found.data == data
    ensures found != null && i <= at ==> forall k :: i <= k < at ==> s[k].data != data
    ensures found != null && at < i ==>
              forall k :: at < k < |s| ==> s[k].data != data
  {
    found, at := element, i;
    while found != null
      invariant i <= at <= |s|
      invariant found == if at == |s| then null else s[at]
      invariant forall k :: i <= k < at ==> s[k].data != data
      decreases |s| - at
    {
      if found.data == data {
        return;
      }
      found, at := found.next, at + 1;
    }
    found, at := element.prev, i - 1;
    while found != null
      invariant -1 <= at < i
      invariant found == if at == -1 then null else s[at]
      invariant forall k :: at < k < |s| ==> s[k].data != data
      decreases at
    {
      if found.data == data {
        return;
      }
      found, at := found.prev, at - 1;
    }
  }

  method DeleteDlistElement<T>(element: Element<T>, ghost s: seq<Element<T>>, ghost i: nat)
    requires Linked(s) && i < |s| && s[i] == element
    modifies s`prev, s`next
    ensures Linked(s[..i] + s[i + 1..])
  {
    if element.prev != null {
      element.prev.next := element.next;
    }
    if element.next != null {
      element.next.prev := element.prev;
    }
  }
}
