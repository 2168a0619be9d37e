/**
 lib/cc_single_link.c: the singly linked list behind a head pointer.  The C
 functions receive the address of the head; the methods here receive the head
 and return the new one.  The spine s is the sequence of nodes from the head on.
 */
module SingleLink {

  import opened HashSpec

  class Link<T> {
    var data: T
    var next: Link?<T>

    constructor (data: T, next: Link?<T>)
      ensures this.data == data && this.next == next
    {
      this.data, this.next := data, next;
    }
  }

  ghost predicate Spine<T>(head: Link?<T>, s: seq<Link<T>>)
    reads s
  {
    && (if s == [] then head == null else head == s[0])
    && (forall i {:trigger s[i].next} :: 0 <= i < |s| ==> s[i].next == if i + 1 < |s| then s[i + 1] else null)
    && (forall i, j :: 0 <= i < j < |s| ==> s[i] != s[j])
  }

  ghost function Values<T>(s: seq<Link<T>>): (r: seq<T>)
    reads s
    ensures |r| == |s| && forall i :: 0 <= i < |s| ==> r[i] == s[i].data
  {
    seq(|s|, i requires 0 <= i < |s| reads s => s[i].data)
  }

  /** Position of the first item that satisfies f, or the number of items. */
  function FirstWhere<T>(items: seq<T>, f: T -> bool): (p: nat)
    ensures p <= |items|
    ensures forall j :: 0 <= j < p ==> !f(items[j])
    ensures p < |items| ==> f(items[p])
  {
    if items == [] || f(items[0]) then 0 else 1 + FirstWhere(items[1..], f)
  }

  /** Position of the first occurrence of x, or the number of items. */
  function FirstOf<T(==)>(items: seq<T>, x: T): (p: nat)
    ensures p <= |items|
    ensures x !in items[..p]
    ensures p < |items| ==> items[p] == x
    ensures p < |items| <==> x in items
  {
    if items == [] || items[0] == x then 0 else 1 + FirstOf(items[1..], x)
  }

  lemma FirstOfIs<T>(items: seq<T>, x: T, p: nat)
    requires p < |items| && items[p] == x && x !in items[..p]
    ensures FirstOf(items, x) == p
  {
  }

  lemma FirstWhereIs<T>(items: seq<T>, f: T -> bool, p: nat)
    requires p <= |items| && (forall j :: 0 <= j < p ==> !f(items[j]))
    requires p < |items| ==> f(items[p])
    ensures FirstWhere(items, f) == p
  {
  }

  method AppendToTail<T>(head: Link?<T>, data: T, ghost s: seq<Link<T>>)
    returns (newHead: Link<T>, ghost s': seq<Link<T>>)
    requires Spine(head, s)
    modifies s`next
    ensures Spine(newHead, s') && |s'| == |s| + 1 && s'[..|s|] == s && fresh(s'[|s|])
    ensures Values(s') == old(Values(s)) + [data]
  {
    var newTail := new Link(data, null);
    s' := s + [newTail];
    if head == null {
      assert Values(s') == [data];
      return newTail, s';
    }
    var e: Link<T>, k := head, 0;
    while e.next != null
      invariant 0 <= k < |s| && e == s[k]
      decreases |s| - k
    {
      assert e.next == s[k + 1];
      e, k := e.next, k + 1;
    }
    e.next := newTail;
    newHead := head;
    assert Values(s') == old(Values(s)) + [data];
  }

  method ListLengthOf<T>(head: Link?<T>, ghost s: seq<Link<T>>) returns (length: nat)
    requires Spine(head, s)
    ensures length == |s|
  {
    if head == null {
      return 0;
    }
    length := 1;
    var e := head.next;
    while e != null
      invariant 1 <= length <= |s| && e == s[length - 1].next
      decreases |s| - length
    {
      e, length := e.next, length + 1;
    }
  }

  /** The data of the first node that satisfies the function, NULL if none does. */
  method FindListCustom<T>(head: Link?<T>, function_: T -> bool, ghost s: seq<Link<T>>) returns (found: Ptr<T>)
    requires Spine(head, s)
    ensures var p := FirstWhere(Values(s), function_);
            found == if p < |s| then Ref(Values(s)[p]) else Null
  {
    var e := head;
    ghost var k := 0;
    while e != null
      invariant 0 <= k <= |s| && e == if k < |s| then s[k] else null
      invariant forall j :: 0 <= j < k ==> !function_(s[j].data)
      decreases |s| - k
    {
      if function_(e.data) {
        FirstWhereIs(Values(s), function_, k);
        return Ref(e.data);
      }
      e, k := e.next, k + 1;
    }
    FirstWhereIs(Values(s), function_, k);
    return Null;
  }

  /** Takes the node after e out of the chain. */
  method UnlinkNext<T>(ghost head: Link?<T>, e: Link<T>, ghost s: seq<Link<T>>, ghost k: nat)
    requires Spine(head, s) && k + 1 < |s| && e == s[k]
    modifies e`next
    ensures Spine(head, RemoveAt(s, k + 1)) && Values(RemoveAt(s, k + 1)) == RemoveAt(old(Values(s)), k + 1)
  {
    assert e.next == s[k + 1] && s[k + 1].next == if k + 2 < |s| then s[k + 2] else null;
    e.next := e.next.next;
    ghost var r := RemoveAt(s, k + 1);
    forall i {:trigger r[i].next} | 0 <= i < |r|
      ensures r[i].next == if i + 1 < |r| then r[i + 1] else null
    {
      assert r[i] == s[if i <= k then i else i + 1];
      assert s[if i <= k then i else i + 1].next == s[if i <= k then i else i + 1].next;
    }
    assert Values(r) == RemoveAt(old(Values(s)), k + 1);
  }

  /** Only the first node that carries the data goes.  The head is read before any
      test, so the list must not be empty. */
  method DeleteElement<T(==)>(head: Link<T>, data: T, ghost s: seq<Link<T>>)
    returns (newHead: Link?<T>, deleted: bool, ghost s': seq<Link<T>>)
    requires Spine(head, s)
    modifies s`next
    ensures Spine(newHead, s')
    ensures deleted <==> data in old(Values(s))
    ensures var p := FirstOf(old(Values(s)), data);
            if deleted then s' == RemoveAt(s, p) && Values(s') == RemoveAt(old(Values(s)), p)
            else s' == s && Values(s') == old(Values(s))
  {
    ghost var items := Values(s);
    if head.data == data {
      FirstOfIs(items, data, 0);
      s' := RemoveAt(s, 0);
      assert Values(s') == RemoveAt(items, 0);
      return head.next, true, s';
    }
    var e: Link<T>, k := head, 0;
    while e.next != null
      invariant 0 <= k < |s| && e == s[k]
      invariant data !in items[..k + 1]
      decreases |s| - k
    {
      assert e.next == s[k + 1];
      if e.next.data == data {
        FirstOfIs(items, data, k + 1);
        UnlinkNext(head, e, s, k);
        return head, true, RemoveAt(s, k + 1);
      }
      e, k := e.next, k + 1;
    }
    assert items[..k + 1] == items;
    return head, false, s;
  }
}
