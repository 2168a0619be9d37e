/**
 Walking a table: the iterator of lib/cc_hash_table.c, and foreach_hash with a
 callback that may delete the entry it is called with.
 */
module HashWalk {
  import opened HashSpec
  import opened HashTable
  import opened Options

  // ----- what a walk must meet

  lemma {:induction false} FlatMember<K, V>(buckets: seq<seq<Entry<K, V>>>, order: seq<nat>, x: nat) returns (a: nat)
    requires Covers(buckets, order) && x < |Flat(buckets, order)|
    ensures a < |order| && Flat(buckets, order)[x] in buckets[order[a]]
  {
    if x < |buckets[order[0]]| {
      a := 0;
    } else {
      a := FlatMember(buckets, order[1..], x - |buckets[order[0]]|);
      a := a + 1;
    }
  }

  lemma {:induction false} FlatKeysDiffer<K(!new), V>(c: Config<K>, buckets: seq<seq<Entry<K, V>>>, order: seq<nat>,
                                                      x: nat, y: nat)
    requires Lawful(c) && Covers(buckets, order) && x < y < |Flat(buckets, order)|
    requires forall a, b :: 0 <= a < b < |order| ==> order[a] != order[b]
    requires forall i :: 0 <= i < |buckets| ==> BucketInv(c, i, buckets[i])
    ensures !c.compare(Flat(buckets, order)[x].key, Flat(buckets, order)[y].key)
  {
    var i, n := order[0], |buckets[order[0]]|;
    assert BucketInv(c, i, buckets[i]);
    if n <= x {
      FlatKeysDiffer(c, buckets, order[1..], x - n, y - n);
    } else if n <= y {
      var a := FlatMember(buckets, order[1..], y - n);
      var j := order[1..][a];
      assert BucketInv(c, j, buckets[j]);
      assert j == order[a + 1];
    }
  }

  /** A walk over Contents meets every stored entry, nothing else, and no key twice. */
  lemma ContentsExact<K(!new), V>(c: Config<K>, t: Table<K, V>)
    requires Lawful(c) && Inv(c, t)
    ensures forall x, y :: 0 <= x < y < |Contents(t)| ==> !c.compare(Contents(t)[x].key, Contents(t)[y].key)
    ensures forall e :: e in Contents(t) <==> exists i :: 0 <= i < |t.buckets| && e in t.buckets[i]
  {
    forall e ensures e in Contents(t) <==> exists i :: 0 <= i < |t.buckets| && e in t.buckets[i] {
      ContentsHold(t, e);
    }
    assert Contents(t) == Flat(t.buckets, t.order);
    hide Contents;
    forall x, y | 0 <= x < y < |Contents(t)| ensures !c.compare(Contents(t)[x].key, Contents(t)[y].key) {
      FlatKeysDiffer(c, t.buckets, t.order, x, y);
    }
  }

  lemma ContentsHold<K, V>(t: Table<K, V>, e: Entry<K, V>)
    requires IndexInv(t)
    ensures e in Contents(t) <==> exists i :: 0 <= i < |t.buckets| && e in t.buckets[i]
  {
    if e in Contents(t) {
      var x :| 0 <= x < |Contents(t)| && Contents(t)[x] == e;
      var a := FlatMember(t.buckets, t.order, x);
      assert t.order[a] < |t.buckets|;
    }
    if i :| 0 <= i < |t.buckets| && e in t.buckets[i] {
      FlatSplit(t.buckets, t.order, IndexOf(t.order, i));
    }
  }

  ghost function Keys<K, V>(es: seq<Entry<K, V>>): set<K> {
    set x | 0 <= x < |es| :: es[x].key
  }

  lemma {:induction false} DistinctKeys<K, V>(es: seq<Entry<K, V>>)
    requires forall x, y :: 0 <= x < y < |es| ==> es[x].key != es[y].key
    ensures |Keys(es)| == |es|
  {
    if es != [] {
      var n := |es| - 1;
      DistinctKeys(es[..n]);
      assert Keys(es) == Keys(es[..n]) + {es[n].key};
    }
  }

  /** The length field (kept equal to |Contents|) is the number of keys of the map. */
  lemma LengthIsMapSize<K(!new), V>(c: Config<K>, t: Table<K, V>, m: map<K, Ptr<V>>)
    requires Lawful(c) && Inv(c, t) && Models(c, t, m)
    ensures |Contents(t)| == |m|
  {
    ContentsExact(c, t);
    var es := Contents(t);
    forall x, y | 0 <= x < y < |es| ensures es[x].key != es[y].key {
      assert c.compare(es[x].key, es[x].key);
    }
    DistinctKeys(es);
    forall k ensures k in Keys(es) <==> k in m {
      if k in m {
        var i := Slot(c, k);
        var j :| 0 <= j < |t.buckets[i]| && t.buckets[i][j].key == k;
        assert t.buckets[i][j] in t.buckets[i];
        assert t.buckets[i][j] in es;
      }
      if k in Keys(es) {
        var x :| 0 <= x < |es| && es[x].key == k;
        assert es[x] in es;
        var i :| 0 <= i < |t.buckets| && es[x] in t.buckets[i];
      }
    }
    assert Keys(es) == m.Keys;
  }

  // ----- the iterator

  /** The pointers of a hash_iterator. */
  datatype Cursor<!K, !V> = Cursor(bucketIndex: Node?<K, V>, nextBucketIndex: Node?<K, V>, element: Node?<K, V>)

  /** The cursor is in the a-th live bucket, q of whose entries have been returned. */
  ghost predicate At<K, V>(it: Cursor<K, V>, s: Picture<K, V>, a: nat, q: nat)
    requires IndexInv(s.t) && |s.index| == |s.t.order| + 1 && Heights(s)
  {
    if s.t.order == [] then it.bucketIndex == null else
      && a < |s.t.order| && q <= |s.t.buckets[s.t.order[a]]|
      && it.bucketIndex == s.index[a + 1]
      && it.nextBucketIndex == (if a + 2 < |s.index| then s.index[a + 2] else null)
      && it.element == (if q < |s.t.buckets[s.t.order[a]]| then s.chains[s.t.order[a]][q + 1] else null)
  }

  /** The entries still to come. */
  ghost function Rest<K, V>(t: Table<K, V>, a: nat, q: nat): seq<Entry<K, V>>
    requires IndexInv(t)
    requires t.order == [] || (a < |t.order| && q <= |t.buckets[t.order[a]]|)
  {
    if t.order == [] then [] else t.buckets[t.order[a]][q..] + Flat(t.buckets, t.order[a + 1..])
  }

  lemma Follow<K, V>(heads: seq<Node?<K, V>>, first: Node<K, V>, s: Picture<K, V>, a: nat)
    requires Shape(heads, first, s) && IndexInv(s.t) && Heights(s) && a < |s.t.order|
    ensures s.index[a + 1].data == Bucket(s.t.order[a])
    ensures s.index[a + 1].next == if a + 2 < |s.index| then s.index[a + 2] else null
    ensures heads[s.t.order[a]] != null && heads[s.t.order[a]].next == s.chains[s.t.order[a]][1]
    ensures forall q :: 0 <= q < |s.t.buckets[s.t.order[a]]| ==>
              var e := s.chains[s.t.order[a]][q + 1];
              && e.data == Item(s.t.buckets[s.t.order[a]][q])
              && e.next == if q + 2 < |s.chains[s.t.order[a]]| then s.chains[s.t.order[a]][q + 2] else null
  {
    var i := s.t.order[a];
    assert s.index[a + 1].data == Bucket(i);
    assert ChainOk(heads[i], s.chains[i], s.t.buckets[i], i, s.link, s.nodes);
  }

  /** One call of iterate_hash_next on a cursor at (a, q): past the end of a bucket it
      moves to the next one, which has an entry because live buckets are never empty. */
  function Next<K, V>(t: Table<K, V>, a: nat, q: nat): (Option<Entry<K, V>>, nat, nat)
    requires t.order == [] || a < |t.order|
    requires Covers(t.buckets, t.order)
  {
    if t.order == [] then (None, a, q)
    else if q < |t.buckets[t.order[a]]| then (Some(t.buckets[t.order[a]][q]), a, q + 1)
    else if a + 1 < |t.order| && t.buckets[t.order[a + 1]] != [] then (Some(t.buckets[t.order[a + 1]][0]), a + 1, 1)
    else (None, a, q)
  }

  lemma NextIsRest<K, V>(t: Table<K, V>, a: nat, q: nat)
    requires IndexInv(t) && (t.order == [] || (a < |t.order| && q <= |t.buckets[t.order[a]]|))
    ensures var (r, a', q') := Next(t, a, q);
            && (t.order == [] || (a' < |t.order| && q' <= |t.buckets[t.order[a']]|))
            && if Rest(t, a, q) == [] then r == None && Rest(t, a', q') == []
               else r == Some(Rest(t, a, q)[0]) && Rest(t, a', q') == Rest(t, a, q)[1..]
  {
    if t.order != [] {
      if q < |t.buckets[t.order[a]]| {
        RestHere(t, a, q);
      } else if a + 1 < |t.order| {
        RestThere(t, a);
        RestHere(t, a + 1, 0);
      } else {
        assert t.order[a + 1..] == [];
      }
    }
  }

  lemma RestHere<K, V>(t: Table<K, V>, a: nat, q: nat)
    requires IndexInv(t) && a < |t.order| && q < |t.buckets[t.order[a]]|
    ensures Rest(t, a, q) != [] && Rest(t, a, q)[0] == t.buckets[t.order[a]][q]
    ensures Rest(t, a, q + 1) == Rest(t, a, q)[1..]
  {
    var es := t.buckets[t.order[a]];
    assert es[q..] == [es[q]] + es[q + 1..];
  }

  lemma RestThere<K, V>(t: Table<K, V>, a: nat)
    requires IndexInv(t) && a + 1 < |t.order|
    ensures Rest(t, a, |t.buckets[t.order[a]]|) == Rest(t, a + 1, 0) && t.buckets[t.order[a + 1]] != []
  {
    var o, es := t.order[a + 1..], t.buckets[t.order[a]];
    assert o[0] == t.order[a + 1] && o[1..] == t.order[a + 2..];
    assert es[|es|..] == [] && t.buckets[o[0]][0..] == t.buckets[o[0]];
  }

  /** The pointers at the front of the a-th live bucket. */
  lemma Entering<K, V>(heads: seq<Node?<K, V>>, first: Node<K, V>, s: Picture<K, V>, a: nat)
    requires Shape(heads, first, s) && IndexInv(s.t) && Heights(s) && a < |s.t.order| == |s.index| - 1
    ensures var n := s.index[a + 1];
            && n.data.Bucket? && n.data.number < |heads| && heads[n.data.number] != null
            && At(Cursor(n, n.next, heads[n.data.number].next), s, a, 0)
  {
    Follow(heads, first, s, a);
  }

  /** What the null tests of the loop tell about a cursor's place. */
  lemma AtEnd<K, V>(it: Cursor<K, V>, s: Picture<K, V>, a: nat, q: nat)
    requires IndexInv(s.t) && |s.index| == |s.t.order| + 1 && Heights(s) && At(it, s, a, q)
    ensures it.bucketIndex == null <==> s.t.order == []
    ensures s.t.order != [] ==>
              && a < |s.t.order| && s.t.order[a] < |s.t.buckets| && s.t.buckets[s.t.order[a]] != []
              && (it.element == null <==> q == |s.t.buckets[s.t.order[a]]|)
              && (it.element != null ==> q < |s.t.buckets[s.t.order[a]]|)
              && (it.nextBucketIndex == null <==> a + 1 == |s.t.order|)
              && (it.nextBucketIndex != null ==> it.nextBucketIndex == s.index[a + 2])
              && (a + 1 < |s.t.order| ==> s.t.buckets[s.t.order[a + 1]] != [])
  {
  }

  lemma FirstBucket<K, V>(heads: seq<Node?<K, V>>, first: Node<K, V>, s: Picture<K, V>)
    requires Shape(heads, first, s)
    ensures |s.index| == |s.t.order| + 1
    ensures first.next == if s.t.order == [] then null else s.index[1]
  {
    assert s.index[0] == first;
  }

  /** r and rest' are the first of rest and the others. */
  ghost predicate Taken<K, V>(rest: seq<Entry<K, V>>, r: Option<Entry<K, V>>, rest': seq<Entry<K, V>>) {
    if rest == [] then r == None && rest' == [] else r == Some(rest[0]) && rest' == rest[1..]
  }

  /** The hash_iterator struct: it stays usable as long as the table is left unmodified. */
  class HashIterator<K(!new), V> {
    const buckets: array<Node?<K, V>>
    var bucketIndex: Node?<K, V>
    var nextBucketIndex: Node?<K, V>
    var element: Node?<K, V>
    ghost const first: Node<K, V>
    ghost const s: Picture<K, V>
    ghost var a: nat
    ghost var q: nat

    ghost predicate TableKept()
      reads buckets, s.index, s.nodes
    {
      Shape(buckets[..], first, s) && IndexInv(s.t) && Heights(s) && |s.index| == |s.t.order| + 1
    }

    ghost predicate Valid()
      reads this, buckets, s.index, s.nodes
    {
      TableKept() && At(Cursor(bucketIndex, nextBucketIndex, element), s, a, q)
    }

    /** The entries still to come. */
    ghost function ToCome(): seq<Entry<K, V>>
      reads this, buckets, s.index, s.nodes
      requires Valid()
    {
      Rest(s.t, a, q)
    }

    /** init_hash_iterator: the front of the first live bucket. */
    constructor (table: Hash<K, V>)
      requires table.Valid()
      ensures Valid() && s == table.s && buckets == table.buckets && first == table.nonempty
      ensures ToCome() == Contents(table.s.t)
    {
      FirstBucket(table.buckets[..], table.nonempty, table.s);
      buckets, first, s, a, q := table.buckets, table.nonempty, table.s, 0, 0;
      if table.nonempty.next != null {
        Entering(table.buckets[..], table.nonempty, table.s, 0);
        bucketIndex := table.nonempty.next;
        nextBucketIndex := table.nonempty.next.next;
        element := table.buckets[table.nonempty.next.data.number].next;
      } else {
        bucketIndex, nextBucketIndex, element := null, null, null;
      }
    }

    /** No node of the table is this object. */
    lemma Apart()
      requires TableKept()
      ensures buckets as object != this && forall n :: n in s.nodes || n in s.index ==> n as object != this
    {
    }

    /** What a valid iterator stands for. */
    lemma Stands()
      requires Valid()
      ensures TableKept() && IndexInv(s.t) && Covers(s.t.buckets, s.t.order)
      ensures |s.index| == |s.t.order| + 1 && Heights(s)
      ensures At(Cursor(bucketIndex, nextBucketIndex, element), s, a, q)
    {
    }

    /** Only the pointers change. */
    method MoveTo(bucket: Node?<K, V>, nextBucket: Node?<K, V>, e: Node?<K, V>, ghost a': nat, ghost q': nat)
      requires TableKept() && IndexInv(s.t) && |s.index| == |s.t.order| + 1 && Heights(s)
      requires At(Cursor(bucket, nextBucket, e), s, a', q')
      modifies this
      ensures Valid() && a == a' && q == q'
    {
      Apart();
      hide Shape, IndexInv, Heights, At;
      bucketIndex, nextBucketIndex, element := bucket, nextBucket, e;
      a, q := a', q';
    }

    /** The pointers of the bucket after the a-th. */
    lemma NextFront()
      requires TableKept() && a + 1 < |s.t.order|
      ensures IndexInv(s.t) && |s.index| == |s.t.order| + 1 && Heights(s)
      ensures var n := s.index[a + 2];
              && n.data.Bucket? && n.data.number < buckets.Length && buckets[n.data.number] != null
              && At(Cursor(n, n.next, buckets[n.data.number].next), s, a + 1, 0)
    {
      Entering(buckets[..], first, s, a + 1);
    }

    method EnterNext()
      requires TableKept() && a + 1 < |s.t.order| && |s.index| == |s.t.order| + 1 && nextBucketIndex == s.index[a + 2]
      modifies this
      ensures Valid() && a == old(a) + 1 && q == 0
    {
      hide *;
      NextFront();
      var n := nextBucketIndex;
      MoveTo(n, n.next, buckets[n.data.number].next, a + 1, 0);
    }

    /** The entry at hand and the pointers behind it. */
    lemma EntryAt()
      requires Valid() && bucketIndex != null && element != null
      ensures IndexInv(s.t) && |s.index| == |s.t.order| + 1 && Heights(s) && s.t.order != []
      ensures a < |s.t.order| && s.t.order[a] < |s.t.buckets| && q < |s.t.buckets[s.t.order[a]]|
      ensures element.data == Item(s.t.buckets[s.t.order[a]][q])
      ensures At(Cursor(bucketIndex, nextBucketIndex, element.next), s, a, q + 1)
    {
      Follow(buckets[..], first, s, a);
    }

    method TakeEntry() returns (r: Option<Entry<K, V>>)
      requires Valid() && bucketIndex != null && element != null
      modifies this
      ensures Valid() && a == old(a) && q == old(q) + 1 && a < |s.t.order| && s.t.order[a] < |s.t.buckets|
      ensures old(q) < |s.t.buckets[s.t.order[a]]| && r == Some(s.t.buckets[s.t.order[a]][old(q)])
    {
      hide *;
      Stands();
      EntryAt();
      r := Some(element.data.entry);
      MoveTo(bucketIndex, nextBucketIndex, element.next, a, q + 1);
    }

    /** The loop of a call that began at (a0, q0) is there still, or at the front of the next bucket. */
    ghost predicate Moved(a0: nat, q0: nat)
      reads this
    {
      (a == a0 && q == q0) ||
      (a0 < |s.t.order| && s.t.order[a0] < |s.t.buckets| && a == a0 + 1 && q == 0 && q0 == |s.t.buckets[s.t.order[a0]]|)
    }

    lemma NextBucketReached(a0: nat, q0: nat)
      requires a0 < |s.t.order| && s.t.order[a0] < |s.t.buckets|
      requires a == a0 + 1 && q == 0 && q0 == |s.t.buckets[s.t.order[a0]]|
      ensures Moved(a0, q0)
    {
    }

    lemma AtRest(a0: nat, q0: nat)
      requires Valid() && Moved(a0, q0)
      requires bucketIndex == null || (element == null && nextBucketIndex == null)
      ensures Covers(s.t.buckets, s.t.order) && (s.t.order == [] || a0 < |s.t.order|)
      ensures Next(s.t, a0, q0) == (None, a, q)
    {
      AtEnd(Cursor(bucketIndex, nextBucketIndex, element), s, a, q);
    }

    lemma MovingOn(a0: nat, q0: nat)
      requires Valid() && Moved(a0, q0)
      requires bucketIndex != null && element == null && nextBucketIndex != null
      ensures TableKept() && a == a0 && |s.index| == |s.t.order| + 1
      ensures a + 1 < |s.t.order| && nextBucketIndex == s.index[a + 2]
      ensures s.t.order[a] < |s.t.buckets| && q == |s.t.buckets[s.t.order[a]]|
    {
      AtEnd(Cursor(bucketIndex, nextBucketIndex, element), s, a, q);
    }

    lemma NextTaken(a0: nat, q0: nat)
      requires Valid() && Moved(a0, q0) && bucketIndex != null && element != null
      ensures Covers(s.t.buckets, s.t.order) && a0 < |s.t.order| && a < |s.t.order|
      ensures q < |s.t.buckets[s.t.order[a]]|
      ensures Next(s.t, a0, q0) == (Some(s.t.buckets[s.t.order[a]][q]), a, q + 1)
    {
      AtEnd(Cursor(bucketIndex, nextBucketIndex, element), s, a, q);
    }

    /** The loop of iterate_hash_next. */
    method Advance() returns (r: Option<Entry<K, V>>)
      requires Valid()
      modifies this
      ensures Valid() && (r, a, q) == Next(s.t, old(a), old(q))
    {
      ghost var a0, q0 := a, q;
      assert Moved(a0, q0);
      hide *;
      while true
        invariant Valid() && Moved(a0, q0)
        decreases |s.t.order| - a
      {
        if bucketIndex == null {
          AtRest(a0, q0);
          return None;
        }
        var e := element;
        if e == null {
          if nextBucketIndex != null {
            MovingOn(a0, q0);
            EnterNext();
            NextBucketReached(a0, q0);
          } else {
            AtRest(a0, q0);
            return None;
          }
        } else {
          NextTaken(a0, q0);
          r := TakeEntry();
          return;
        }
      }
    }

    /** Each call takes the next entry off what is to come; NULL for good when nothing is. */
    method IterateHashNext() returns (r: Option<Entry<K, V>>)
      requires Valid()
      modifies this
      ensures Valid()
      ensures Taken(old(ToCome()), r, ToCome())
    {
      NextIsRest(s.t, a, q);
      r := Advance();
    }
  }

  /** es, then the entry r in hand, then rest. */
  ghost predicate Collected<K, V>(all: seq<Entry<K, V>>, es: seq<Entry<K, V>>, r: Option<Entry<K, V>>,
                                  rest: seq<Entry<K, V>>) {
    all == es + (if r == None then [] else [r.value]) + rest && (r == None ==> rest == [])
  }

  lemma CollectFirst<K, V>(all: seq<Entry<K, V>>, r: Option<Entry<K, V>>, rest: seq<Entry<K, V>>)
    requires Taken(all, r, rest)
    ensures Collected(all, [], r, rest)
  {
  }

  lemma CollectedAll<K, V>(all: seq<Entry<K, V>>, es: seq<Entry<K, V>>, rest: seq<Entry<K, V>>)
    requires Collected(all, es, None, rest)
    ensures es == all
  {
  }

  lemma Collect<K, V>(all: seq<Entry<K, V>>, es: seq<Entry<K, V>>, r: Option<Entry<K, V>>, rest: seq<Entry<K, V>>,
                      r': Option<Entry<K, V>>, rest': seq<Entry<K, V>>)
    requires Collected(all, es, r, rest) && r != None && Taken(rest, r', rest')
    ensures Collected(all, es + [r.value], r', rest') && (r' != None ==> |rest'| < |rest|)
  {
  }

  method Drain<K(!new), V>(it: HashIterator<K, V>) returns (es: seq<Entry<K, V>>)
    requires it.Valid()
    modifies it
    ensures es == old(it.ToCome())
  {
    hide *;
    ghost var all := it.ToCome();
    es := [];
    var r := it.IterateHashNext();
    CollectFirst(all, r, it.ToCome());
    while r != None
      invariant it.Valid() && Collected(all, es, r, it.ToCome())
      decreases r != None, |it.ToCome()|
    {
      ghost var es0, r0, rest := es, r, it.ToCome();
      es := es + [r.value];
      r := it.IterateHashNext();
      Collect(all, es0, r0, rest, r, it.ToCome());
    }
    CollectedAll(all, es, it.ToCome());
  }

  /** The loop of cc_dump_xid_table: initialize, then call next until it returns NULL. */
  method IterateAll<K(!new), V>(h: Hash<K, V>) returns (es: seq<Entry<K, V>>)
    requires h.Valid()
    ensures es == Contents(h.s.t) && |es| == h.length
  {
    var it := new HashIterator(h);
    es := Drain(it);
  }

  // ----- foreach_hash

  /** A callback that may delete the entry it is given; what it decides may depend on
      the entries it has already seen (its user_data). */
  type Callback<!K, !V> = (seq<Entry<K, V>>, Entry<K, V>) -> bool

  /** Calling f on the entries es in turn, after those in seen. */
  ghost function Sweep<K, V>(c: Config<K>, t: Table<K, V>, f: Callback<K, V>, seen: seq<Entry<K, V>>,
                             es: seq<Entry<K, V>>): (t': Table<K, V>)
    requires Sized(c, t)
    ensures Sized(c, t')
    decreases |es|
  {
    if es == [] then t
    else Sweep(c, if f(seen, es[0]) then Delete(c, t, es[0].key) else t, f, seen + [es[0]], es[1..])
  }

  /** Whether f deleted key k while visiting es. */
  ghost predicate Chosen<K, V>(c: Config<K>, f: Callback<K, V>, es: seq<Entry<K, V>>, k: K) {
    exists n :: 0 <= n < |es| && f(es[..n], es[n]) && c.compare(es[n].key, k)
  }

  lemma {:induction false} SweepSplit<K, V>(c: Config<K>, t: Table<K, V>, f: Callback<K, V>, es: seq<Entry<K, V>>,
                                            n: nat, seen: seq<Entry<K, V>>)
    requires Sized(c, t) && n < |es|
    ensures var u := Sweep(c, t, f, seen, es[..n]);
            Sweep(c, t, f, seen, es[..n + 1]) == if f(seen + es[..n], es[n]) then Delete(c, u, es[n].key) else u
    decreases n
  {
    if n > 0 {
      var t' := if f(seen, es[0]) then Delete(c, t, es[0].key) else t;
      SweepSplit(c, t', f, es[1..], n - 1, seen + [es[0]]);
      assert es[..n][1..] == es[1..][..n - 1] && es[..n + 1][1..] == es[1..][..n];
      assert seen + es[..n] == seen + [es[0]] + es[1..][..n - 1];
    } else {
      assert es[..1] == [es[0]] && seen + es[..0] == seen;
    }
  }

  ghost function Kept<K, V>(c: Config<K>, m: map<K, Ptr<V>>, f: Callback<K, V>, es: seq<Entry<K, V>>): map<K, Ptr<V>> {
    map k | k in m && !Chosen(c, f, es, k) :: m[k]
  }

  /** After foreach_hash the table holds the initial map minus the entries the callback deleted. */
  lemma {:induction false} SweepRefinesMap<K(!new), V>(c: Config<K>, t: Table<K, V>, m: map<K, Ptr<V>>,
                                                       f: Callback<K, V>, es: seq<Entry<K, V>>, n: nat)
    requires Lawful(c) && Inv(c, t) && Models(c, t, m) && n <= |es|
    ensures Inv(c, Sweep(c, t, f, [], es[..n])) && Models(c, Sweep(c, t, f, [], es[..n]), Kept(c, m, f, es[..n]))
    decreases n
  {
    if n == 0 {
      assert Kept(c, m, f, es[..0]) == m;
    } else {
      var pre, e := es[..n - 1], es[n - 1];
      var u := Sweep(c, t, f, [], pre);
      SweepRefinesMap(c, t, m, f, es, n - 1);
      SweepSplit(c, t, f, es, n - 1, []);
      assert [] + pre == pre;
      KeptStep(c, m, f, es, n - 1);
      if f(pre, e) {
        DeleteInv(c, u, e.key);
        DeleteModels(c, u, Kept(c, m, f, pre), e.key);
      }
    }
  }

  lemma KeptStep<K, V>(c: Config<K>, m: map<K, Ptr<V>>, f: Callback<K, V>, es: seq<Entry<K, V>>, n: nat)
    requires n < |es|
    ensures Kept(c, m, f, es[..n + 1]) ==
            if f(es[..n], es[n]) then RefDelete(c, Kept(c, m, f, es[..n]), es[n].key) else Kept(c, m, f, es[..n])
  {
    ChosenStep(c, f, es, n);
  }

  lemma ChosenStep<K, V>(c: Config<K>, f: Callback<K, V>, es: seq<Entry<K, V>>, n: nat)
    requires n < |es|
    ensures forall k :: Chosen(c, f, es[..n + 1], k) <==>
              Chosen(c, f, es[..n], k) || (f(es[..n], es[n]) && c.compare(es[n].key, k))
  {
    var short, long := es[..n], es[..n + 1];
    assert forall j :: 0 <= j <= n ==> long[..j] == es[..j];
    assert forall j :: 0 <= j < n ==> short[..j] == es[..j];
    forall k ensures Chosen(c, f, long, k) <==> Chosen(c, f, short, k) || (f(short, es[n]) && c.compare(es[n].key, k)) {
      if Chosen(c, f, short, k) {
        var j :| 0 <= j < n && f(short[..j], short[j]) && c.compare(short[j].key, k);
        assert f(long[..j], long[j]) && c.compare(long[j].key, k);
      }
      if f(short, es[n]) && c.compare(es[n].key, k) {
        assert f(long[..n], long[n]) && c.compare(long[n].key, k);
      }
    }
  }

  /** Deleting by the key of a stored entry removes that very entry. */
  lemma DeleteStored<K(!new), V>(c: Config<K>, t: Table<K, V>, i: nat, pre: seq<Entry<K, V>>, x: Entry<K, V>,
                                 post: seq<Entry<K, V>>)
    requires Lawful(c) && Inv(c, t) && i < c.size && t.buckets[i] == pre + [x] + post
    ensures Slot(c, x.key) == i && Present(c, t, x.key) && Position(c, t.buckets[i], x.key) == |pre|
    ensures Delete(c, t, x.key).buckets == t.buckets[i := pre + post]
  {
    var es := t.buckets[i];
    assert BucketInv(c, i, es) && es[|pre|] == x;
    var p := Position(c, es, x.key);
    assert forall j :: 0 <= j < |es| && j != |pre| ==> !c.compare(x.key, es[j].key);
    assert RemoveAt(es, |pre|) == pre + post;
  }

  /** Bucket i, the p-th of the index, now holds left; an emptied bucket is out of the index. */
  ghost predicate Midway<K, V>(s: Picture<K, V>, s0: Picture<K, V>, i: nat, p: nat, left: seq<Entry<K, V>>)
    requires i < |s0.t.buckets| && p < |s0.t.order| && |s0.index| == |s0.t.order| + 1
  {
    && s.nodes == s0.nodes
    && s.t.buckets == s0.t.buckets[i := left]
    && s.t.order == (if left == [] then RemoveAt(s0.t.order, p) else s0.t.order)
    && s.index == (if left == [] then RemoveAt(s0.index, p + 1) else s0.index)
  }

  /** The node the walk has read ahead to: the first of the entries still to visit. */
  ghost predicate ReadAhead<K, V>(e: Node?<K, V>, s: Picture<K, V>, i: nat, pre: seq<Entry<K, V>>,
                                  post: seq<Entry<K, V>>)
    requires i < |s.chains|
  {
    if post == [] then e == null else |pre| + 1 < |s.chains[i]| && e == s.chains[i][|pre| + 1]
  }

  /** Deleting the entry just read leaves the node read ahead to in place, and the
      bucket's index node too unless nothing is left of the bucket. */
  lemma DeleteBehind<K(!new), V>(c: Config<K>, s: Picture<K, V>, i: nat, p: nat,
                                 pre: seq<Entry<K, V>>, x: Entry<K, V>, post: seq<Entry<K, V>>, e: Node?<K, V>)
    requires Lawful(c) && Inv(c, s.t) && Heights(s) && |s.index| == |s.t.order| + 1
    requires p < |s.t.order| && s.t.order[p] == i && s.t.buckets[i] == pre + [x] + post
    requires e == if post == [] then null else s.chains[i][|pre| + 2]
    ensures var s' := AfterDelete(c, s, x.key);
            && s'.t == Delete(c, s.t, x.key) && Midway(s', s, i, p, pre + post)
            && |s'.chains| == |s.chains| && ReadAhead(e, s', i, pre, post)
  {
    hide *;
    InvParts(c, s.t);
    DeleteStored(c, s.t, i, pre, x, post);
    ListedAt(s.t, p);
    ChainHeight(s, i);
    RemovedAt(pre, x, post);
    AfterDeleteAt(c, s, x.key, i, p, |pre|, pre + post);
    ReadPast(s, AfterDelete(c, s, x.key), i, pre, post, e);
  }

  lemma InvParts<K, V>(c: Config<K>, t: Table<K, V>)
    requires Inv(c, t)
    ensures Sized(c, t) && IndexInv(t) && |t.buckets| == c.size
  {
  }

  lemma RemovedAt<T>(pre: seq<T>, x: T, post: seq<T>)
    ensures |pre + [x] + post| == |pre| + 1 + |post| && RemoveAt(pre + [x] + post, |pre|) == pre + post
  {
  }

  lemma ListedAt<K, V>(t: Table<K, V>, p: nat)
    requires IndexInv(t) && p < |t.order|
    ensures t.order[p] < |t.buckets| && t.order[p] in t.order && IndexOf(t.order, t.order[p]) == p
  {
  }

  lemma ChainHeight<K, V>(s: Picture<K, V>, i: nat)
    requires Heights(s) && i < |s.t.buckets|
    ensures |s.chains| == |s.t.buckets| && (s.t.buckets[i] != [] ==> |s.chains[i]| == |s.t.buckets[i]| + 1)
  {
  }

  /** The picture after deleting the q-th entry of bucket i, the p-th of the index. */
  lemma AfterDeleteAt<K, V>(c: Config<K>, s: Picture<K, V>, k: K, i: nat, p: nat, q: nat, left: seq<Entry<K, V>>)
    requires Sized(c, s.t) && |s.chains| == c.size && |s.index| == |s.t.order| + 1
    requires i == Slot(c, k) && i in s.t.order && p == IndexOf(s.t.order, i)
    requires Present(c, s.t, k) && Position(c, s.t.buckets[i], k) == q
    requires |s.chains[i]| == |s.t.buckets[i]| + 1 && left == RemoveAt(s.t.buckets[i], q)
    ensures var s' := AfterDelete(c, s, k);
            && s'.t == Delete(c, s.t, k) && Midway(s', s, i, p, left) && |s'.chains| == |s.chains|
            && (left != [] ==> q + 1 < |s.chains[i]| && s'.chains[i] == RemoveAt(s.chains[i], q + 1))
  {
    hide Slot, Position;
  }

  /** The node read ahead to is one place further forward in the shorter chain. */
  lemma ReadPast<K, V>(s: Picture<K, V>, s': Picture<K, V>, i: nat, pre: seq<Entry<K, V>>, post: seq<Entry<K, V>>,
                       e: Node?<K, V>)
    requires i < |s.chains| == |s'.chains| && |s.chains[i]| == |pre| + |post| + 2
    requires pre + post != [] ==> s'.chains[i] == RemoveAt(s.chains[i], |pre| + 1)
    requires e == if post == [] then null else s.chains[i][|pre| + 2]
    ensures ReadAhead(e, s', i, pre, post)
  {
  }

  /** One turn of the inner loop of foreach_hash: read ahead, then let the callback delete. */
  method VisitEntry<K(!new), V>(h: Hash<K, V>, e: Node?<K, V>, f: Callback<K, V>, seen: seq<Entry<K, V>>, ghost i: nat,
                                ghost p: nat, ghost pre: seq<Entry<K, V>>, ghost x: Entry<K, V>,
                                ghost post: seq<Entry<K, V>>)
    returns (e': Node?<K, V>, seen': seq<Entry<K, V>>)
    requires h.Valid() && p < |h.s.t.order| && h.s.t.order[p] == i && h.s.t.buckets[i] == pre + [x] + post
    requires e != null && ReadAhead(e, h.s, i, pre, [x] + post)
    modifies h, h.buckets, h.s.nodes
    ensures h.Valid() && seen' == seen + [x] && i < |h.s.chains|
    ensures h.s.t == if f(seen, x) then Delete(h.config, old(h.s.t), x.key) else old(h.s.t)
    ensures Midway(h.s, old(h.s), i, p, (if f(seen, x) then pre else pre + [x]) + post)
    ensures ReadAhead(e', h.s, i, if f(seen, x) then pre else pre + [x], post)
  {
    Follow(h.buckets[..], h.nonempty, h.s, p);
    assert h.s.t.buckets[i][|pre|] == x;
    var entry := e.data.entry;
    e' := e.next;
    seen' := seen + [entry];
    if f(seen, entry) {
      DeleteBehind(h.config, h.s, i, p, pre, x, post, e');
      var _ := h.DeleteHashEntry(entry.key);
    } else {
      assert h.s.t.buckets[i := pre + [x] + post] == h.s.t.buckets;
    }
  }

  /** Part of a bucket has been visited: pre of it was kept, post is still to come. */
  ghost predicate Turn<K, V>(c: Config<K>, s: Picture<K, V>, s0: Picture<K, V>, i: nat, p: nat, f: Callback<K, V>,
                             seen0: seq<Entry<K, V>>, seen: seq<Entry<K, V>>,
                             pre: seq<Entry<K, V>>, post: seq<Entry<K, V>>)
    requires Sized(c, s0.t) && i < c.size && p < |s0.t.order| && |s0.index| == |s0.t.order| + 1
  {
    && Midway(s, s0, i, p, pre + post)
    && seen + post == seen0 + s0.t.buckets[i]
    && Sweep(c, s.t, f, seen, post) == Sweep(c, s0.t, f, seen0, s0.t.buckets[i])
  }

  lemma NextTurn<K, V>(c: Config<K>, s': Picture<K, V>, s: Picture<K, V>, s0: Picture<K, V>, i: nat, p: nat,
                       f: Callback<K, V>, seen0: seq<Entry<K, V>>, seen: seq<Entry<K, V>>, pre: seq<Entry<K, V>>,
                       post: seq<Entry<K, V>>)
    requires Sized(c, s0.t) && i < c.size && p < |s0.t.order| && |s0.index| == |s0.t.order| + 1
    requires post != [] && Turn(c, s, s0, i, p, f, seen0, seen, pre, post)
    requires s'.t == if f(seen, post[0]) then Delete(c, s.t, post[0].key) else s.t
    requires Midway(s', s, i, p, (if f(seen, post[0]) then pre else pre + [post[0]]) + post[1..])
    ensures Turn(c, s', s0, i, p, f, seen0, seen + [post[0]],
                 if f(seen, post[0]) then pre else pre + [post[0]], post[1..])
  {
    assert seen + [post[0]] + post[1..] == seen + post;
  }

  lemma ThisTurn<K, V>(c: Config<K>, s: Picture<K, V>, s0: Picture<K, V>, i: nat, p: nat, f: Callback<K, V>,
                       seen0: seq<Entry<K, V>>, seen: seq<Entry<K, V>>, pre: seq<Entry<K, V>>, post: seq<Entry<K, V>>)
    requires Sized(c, s0.t) && i < c.size && p < |s0.t.order| && |s0.index| == |s0.t.order| + 1
    requires Turn(c, s, s0, i, p, f, seen0, seen, pre, post)
    ensures i < |s.t.buckets| && s.nodes == s0.nodes
    ensures post != [] ==> s.t.order == s0.t.order && s.t.buckets[i] == pre + [post[0]] + post[1..]
    ensures post == [] ==> && s.t == Sweep(c, s0.t, f, seen0, s0.t.buckets[i]) && seen == seen0 + s0.t.buckets[i]
                           && Midway(s, s0, i, p, s.t.buckets[i])
  {
    assert post != [] ==> post == [post[0]] + post[1..];
    assert post == [] ==> seen + post == seen;
  }

  /** The inner loop of foreach_hash: one live bucket. */
  method VisitBucket<K(!new), V>(h: Hash<K, V>, i: nat, f: Callback<K, V>, seen: seq<Entry<K, V>>, ghost p: nat)
    returns (seen': seq<Entry<K, V>>)
    requires h.Valid() && p < |h.s.t.order| && h.s.t.order[p] == i
    modifies h, h.buckets, h.s.nodes
    ensures h.Valid() && seen' == seen + old(h.s.t.buckets[i])
    ensures h.s.t == Sweep(h.config, old(h.s.t), f, seen, old(h.s.t.buckets[i]))
    ensures i < |h.s.t.buckets| && Midway(h.s, old(h.s), i, p, h.s.t.buckets[i])
  {
    hide *;
    BucketFront(h, i, p);
    ghost var c, s, s0, post, pre := h.config, h.s, h.s, h.s.t.buckets[i], [];
    FirstTurn(c, s, i, p, f, seen);
    var e := h.buckets[i].next;
    seen' := seen;
    while e != null
      invariant h.Valid() && h.s == s && i < |s.chains| && ReadAhead(e, s, i, pre, post)
      invariant Turn(c, s, s0, i, p, f, seen, seen', pre, post)
      decreases |post|
    {
      ReadOn(e, s, i, pre, post);
      ThisTurn(c, s, s0, i, p, f, seen, seen', pre, post);
      ghost var x, rest, before, seen1 := post[0], post[1..], s, seen';
      e, seen' := VisitEntry(h, e, f, seen', i, p, pre, x, rest);
      s := h.s;
      NextTurn(c, s, before, s0, i, p, f, seen, seen1, pre, post);
      pre, post := if f(seen1, x) then pre else pre + [x], rest;
    }
    ReadOn(e, s, i, pre, post);
    ThisTurn(c, s, s0, i, p, f, seen, seen', pre, post);
  }

  /** What the walk of a live bucket starts from. */
  lemma BucketFront<K(!new), V>(h: Hash<K, V>, i: nat, p: nat)
    requires h.Valid() && p < |h.s.t.order| && h.s.t.order[p] == i
    ensures Sized(h.config, h.s.t) && i < h.config.size == h.buckets.Length && i < |h.s.t.buckets| && i < |h.s.chains|
    ensures |h.s.index| == |h.s.t.order| + 1 && h.s.t.buckets[i] != []
    ensures h.buckets[i] != null && ReadAhead(h.buckets[i].next, h.s, i, [], h.s.t.buckets[i])
  {
    Follow(h.buckets[..], h.nonempty, h.s, p);
  }

  lemma FirstTurn<K, V>(c: Config<K>, s: Picture<K, V>, i: nat, p: nat, f: Callback<K, V>, seen: seq<Entry<K, V>>)
    requires Sized(c, s.t) && i < c.size && p < |s.t.order| && |s.index| == |s.t.order| + 1 && s.t.buckets[i] != []
    ensures Turn(c, s, s, i, p, f, seen, seen, [], s.t.buckets[i])
  {
    var es := s.t.buckets[i];
    assert [] + es == es && s.t.buckets[i := es] == s.t.buckets;
  }

  /** The node read ahead to tells whether an entry is left. */
  lemma ReadOn<K, V>(e: Node?<K, V>, s: Picture<K, V>, i: nat, pre: seq<Entry<K, V>>, post: seq<Entry<K, V>>)
    requires i < |s.chains| && ReadAhead(e, s, i, pre, post)
    ensures (e == null <==> post == []) && (post != [] ==> post == [post[0]] + post[1..])
  {
  }

  lemma {:induction false} SweepConcat<K, V>(c: Config<K>, t: Table<K, V>, f: Callback<K, V>, seen: seq<Entry<K, V>>,
                                             x: seq<Entry<K, V>>, y: seq<Entry<K, V>>)
    requires Sized(c, t)
    ensures Sweep(c, t, f, seen, x + y) == Sweep(c, Sweep(c, t, f, seen, x), f, seen + x, y)
    decreases |x|
  {
    if x == [] {
      assert x + y == y && seen + x == seen;
    } else {
      var t' := if f(seen, x[0]) then Delete(c, t, x[0].key) else t;
      SweepConcat(c, t', f, seen + [x[0]], x[1..], y);
      assert (x + y)[1..] == x[1..] + y && seen + [x[0]] + x[1..] == seen + x;
    }
  }

  /** n of the initial live buckets have been visited and k of those are still live:
      the rest of the index and the buckets it lists are as they were in s0. */
  ghost predicate Unvisited<K, V>(c: Config<K>, s: Picture<K, V>, s0: Picture<K, V>, k: nat, n: nat) {
    && |s.index| == |s.t.order| + 1 && s.nodes == s0.nodes
    && Sized(c, s.t) && Sized(c, s0.t) && IndexInv(s0.t)
    && n <= |s0.t.order| && |s.t.order| == k + |s0.t.order| - n
    && (forall x {:trigger s0.t.order[x]} :: n <= x < |s0.t.order| ==>
          && s.t.order[x - n + k] == s0.t.order[x]
          && s.t.buckets[s0.t.order[x]] == s0.t.buckets[s0.t.order[x]])
  }

  ghost function ToVisit<K, V>(t: Table<K, V>, n: nat): seq<Entry<K, V>>
    requires IndexInv(t) && n <= |t.order|
  {
    Flat(t.buckets, t.order[n..])
  }

  ghost predicate Walk<K, V>(c: Config<K>, s: Picture<K, V>, s0: Picture<K, V>, f: Callback<K, V>,
                             seen: seq<Entry<K, V>>, k: nat, n: nat)
  {
    && Unvisited(c, s, s0, k, n)
    && seen + ToVisit(s0.t, n) == Contents(s0.t)
    && Sweep(c, s.t, f, seen, ToVisit(s0.t, n)) == Sweep(c, s0.t, f, [], Contents(s0.t))
  }

  /** What is known of the x-th initial bucket while it is not yet visited. */
  lemma StillThere<K, V>(c: Config<K>, s: Picture<K, V>, s0: Picture<K, V>, k: nat, n: nat, x: nat)
    requires Unvisited(c, s, s0, k, n) && n <= x < |s0.t.order|
    ensures x - n + k < |s.t.order| && s0.t.order[x] < |s.t.buckets| && s0.t.order[x] < |s0.t.buckets|
    ensures s.t.order[x - n + k] == s0.t.order[x]
    ensures s.t.buckets[s0.t.order[x]] == s0.t.buckets[s0.t.order[x]]
    ensures n < x ==> s0.t.order[x] != s0.t.order[n]
  {
  }

  /** Where the x-th initial bucket is once the n-th has been visited. */
  lemma OneVisited<K, V>(c: Config<K>, s': Picture<K, V>, s: Picture<K, V>, s0: Picture<K, V>,
                         k: nat, n: nat, k': nat, x: nat)
    requires Unvisited(c, s, s0, k, n) && n < x < |s0.t.order| && |s.index| == |s.t.order| + 1 && k < |s.t.order|
    requires var b := s0.t.order[n];
             b < |s'.t.buckets| && b < |s.t.buckets| && Midway(s', s, b, k, s'.t.buckets[b])
             && k' == if s'.t.buckets[b] == [] then k else k + 1
    ensures x - (n + 1) + k' < |s'.t.order| && s0.t.order[x] < |s'.t.buckets| && s0.t.order[x] < |s0.t.buckets|
    ensures s'.t.order[x - (n + 1) + k'] == s0.t.order[x]
    ensures s'.t.buckets[s0.t.order[x]] == s0.t.buckets[s0.t.order[x]]
  {
    hide *;
    StillThere(c, s, s0, k, n, n);
    StillThere(c, s, s0, k, n, x);
    var b := s0.t.order[n];
    MidwayAt(s', s, b, k, s'.t.buckets[b], x - n + k, s0.t.order[x]);
  }

  /** Where a later live bucket is listed once the k-th has been visited, and what it holds. */
  lemma MidwayAt<K, V>(s': Picture<K, V>, s: Picture<K, V>, b: nat, k: nat, left: seq<Entry<K, V>>, y: nat, i: nat)
    requires b < |s.t.buckets| && k < y < |s.t.order| && |s.index| == |s.t.order| + 1 && Midway(s', s, b, k, left)
    requires i < |s.t.buckets| && i != b
    ensures var z := if left == [] then y - 1 else y;
            && z < |s'.t.order| && s'.t.order[z] == s.t.order[y]
            && i < |s'.t.buckets| && s'.t.buckets[i] == s.t.buckets[i]
  {
  }

  lemma NextUnvisited<K, V>(c: Config<K>, s': Picture<K, V>, s: Picture<K, V>, s0: Picture<K, V>,
                            k: nat, n: nat, k': nat, next: Node?<K, V>)
    requires Unvisited(c, s, s0, k, n) && n < |s0.t.order|
    requires var b := s0.t.order[n];
             b < |s'.t.buckets| && Midway(s', s, b, k, s'.t.buckets[b]) &&
             k' == if s'.t.buckets[b] == [] then k else k + 1
    requires next == if k + 2 < |s.index| then s.index[k + 2] else null
    ensures Unvisited(c, s', s0, k', n + 1)
    ensures next == if n + 1 == |s0.t.order| then null else s'.index[k' + 1]
  {
    hide *;
    UnvisitedCounts(c, s, s0, k, n);
    StillThere(c, s, s0, k, n, n);
    var b := s0.t.order[n];
    MidwayCounts(s', s, b, k, s'.t.buckets[b]);
    forall x {:trigger s0.t.order[x]} | n + 1 <= x < |s0.t.order|
      ensures x - (n + 1) + k' < |s'.t.order| && s0.t.order[x] < |s'.t.buckets| && s0.t.order[x] < |s0.t.buckets|
      ensures s'.t.order[x - (n + 1) + k'] == s0.t.order[x]
      ensures s'.t.buckets[s0.t.order[x]] == s0.t.buckets[s0.t.order[x]]
    {
      OneVisited(c, s', s, s0, k, n, k', x);
    }
    UnvisitedHolds(c, s', s, s0, k', n + 1);
  }

  /** How many buckets are still live. */
  lemma UnvisitedCounts<K, V>(c: Config<K>, s: Picture<K, V>, s0: Picture<K, V>, k: nat, n: nat)
    requires Unvisited(c, s, s0, k, n)
    ensures |s.index| == |s.t.order| + 1 && s.nodes == s0.nodes && n <= |s0.t.order|
    ensures |s.t.order| == k + |s0.t.order| - n && Sized(c, s.t) && Sized(c, s0.t) && IndexInv(s0.t)
  {
  }

  /** Where the node after the k-th live bucket's is once that bucket has been visited. */
  lemma MidwayCounts<K, V>(s': Picture<K, V>, s: Picture<K, V>, b: nat, k: nat, left: seq<Entry<K, V>>)
    requires b < |s.t.buckets| && k < |s.t.order| && |s.index| == |s.t.order| + 1 && Midway(s', s, b, k, left)
    ensures s'.nodes == s.nodes && |s'.t.buckets| == |s.t.buckets| && |s'.index| == |s'.t.order| + 1
    ensures |s'.t.order| == if left == [] then |s.t.order| - 1 else |s.t.order|
    ensures k + 2 < |s.index| ==> s'.index[if left == [] then k + 1 else k + 2] == s.index[k + 2]
  {
  }

  lemma UnvisitedHolds<K, V>(c: Config<K>, s': Picture<K, V>, s: Picture<K, V>, s0: Picture<K, V>, k: nat, n: nat)
    requires |s'.index| == |s'.t.order| + 1 && s'.nodes == s0.nodes && n <= |s0.t.order|
    requires |s'.t.order| == k + |s0.t.order| - n && Sized(c, s.t) && |s'.t.buckets| == |s.t.buckets|
    requires Sized(c, s0.t) && IndexInv(s0.t)
    requires forall x {:trigger s0.t.order[x]} :: n <= x < |s0.t.order| ==>
               && x - n + k < |s'.t.order| && s0.t.order[x] < |s'.t.buckets| && s0.t.order[x] < |s0.t.buckets|
               && s'.t.order[x - n + k] == s0.t.order[x]
               && s'.t.buckets[s0.t.order[x]] == s0.t.buckets[s0.t.order[x]]
    ensures Unvisited(c, s', s0, k, n)
  {
  }

  lemma NextBucket<K, V>(c: Config<K>, s': Picture<K, V>, s: Picture<K, V>, s0: Picture<K, V>, f: Callback<K, V>,
                         seen: seq<Entry<K, V>>, k: nat, n: nat, seen': seq<Entry<K, V>>, k': nat)
    requires Walk(c, s, s0, f, seen, k, n) && n < |s0.t.order| && Unvisited(c, s', s0, k', n + 1)
    requires var es := s0.t.buckets[s0.t.order[n]];
             s'.t == Sweep(c, s.t, f, seen, es) && seen' == seen + es
    ensures Walk(c, s', s0, f, seen', k', n + 1)
  {
    var es, tail := s0.t.buckets[s0.t.order[n]], ToVisit(s0.t, n + 1);
    assert Sized(c, s.t) && IndexInv(s0.t);
    assert ToVisit(s0.t, n) == es + tail by {
      assert s0.t.order[n..][1..] == s0.t.order[n + 1..];
    }
    assert seen + es + tail == seen + (es + tail);
    hide Unvisited, ToVisit, Sweep, Contents, Sized, IndexInv;
    SweepConcat(c, s.t, f, seen, es, tail);
  }

  lemma BeforeWalk<K, V>(c: Config<K>, s: Picture<K, V>, f: Callback<K, V>)
    requires Sized(c, s.t) && IndexInv(s.t) && |s.index| == |s.t.order| + 1
    ensures Walk(c, s, s, f, [], 0, 0)
  {
    assert s.t.order[0..] == s.t.order;
    assert [] + Contents(s.t) == Contents(s.t);
  }

  lemma AfterWalk<K, V>(c: Config<K>, s: Picture<K, V>, s0: Picture<K, V>, f: Callback<K, V>, seen: seq<Entry<K, V>>,
                        k: nat, n: nat)
    requires Walk(c, s, s0, f, seen, k, n) && n == |s0.t.order|
    ensures seen == Contents(s0.t) && s.t == Sweep(c, s0.t, f, [], Contents(s0.t))
  {
    assert ToVisit(s0.t, n) == [] && seen + [] == seen;
  }

  /** One turn of the outer loop: the next index node is read before the bucket is visited. */
  method VisitIndexed<K(!new), V>(h: Hash<K, V>, nonempty: Node<K, V>, f: Callback<K, V>, seen: seq<Entry<K, V>>,
                                  ghost p: nat, ghost b: nat)
    returns (next: Node?<K, V>, seen': seq<Entry<K, V>>)
    requires h.Valid() && p < |h.s.t.order| && nonempty == h.s.index[p + 1] && b == h.s.t.order[p]
    modifies h, h.buckets, h.s.nodes
    ensures h.Valid() && next == if p + 2 < |old(h.s.index)| then old(h.s.index)[p + 2] else null
    ensures b < |h.s.t.buckets| && Midway(h.s, old(h.s), b, p, h.s.t.buckets[b])
    ensures seen' == seen + old(h.s.t).buckets[b]
    ensures h.s.t == Sweep(h.config, old(h.s.t), f, seen, old(h.s.t).buckets[b])
  {
    Follow(h.buckets[..], h.nonempty, h.s, p);
    var i := nonempty.data.number;
    next := nonempty.next;
    seen' := seen;
    if h.buckets[i] != null {
      seen' := VisitBucket(h, i, f, seen, p);
    }
  }

  /** The same turn, with what it does to the state of the walk. */
  method WalkOn<K(!new), V>(h: Hash<K, V>, nonempty: Node<K, V>, f: Callback<K, V>, seen: seq<Entry<K, V>>,
                            ghost s0: Picture<K, V>, ghost k: nat, ghost n: nat)
    returns (next: Node?<K, V>, seen': seq<Entry<K, V>>, ghost k': nat)
    requires h.Valid() && Walk(h.config, h.s, s0, f, seen, k, n)
    requires n < |s0.t.order| && nonempty == h.s.index[k + 1]
    modifies h, h.buckets, h.s.nodes
    ensures h.Valid() && h.s.nodes == old(h.s.nodes)
    ensures Walk(h.config, h.s, s0, f, seen', k', n + 1)
    ensures n + 1 < |s0.t.order| ==> k' + 1 < |h.s.index|
    ensures next == if n + 1 == |s0.t.order| then null else h.s.index[k' + 1]
  {
    ghost var b, s := s0.t.order[n], h.s;
    next, seen' := VisitIndexed(h, nonempty, f, seen, k, b);
    k' := if h.s.t.buckets[b] == [] then k else k + 1;
    NextUnvisited(h.config, h.s, s, s0, k, n, k', next);
    NextBucket(h.config, h.s, s, s0, f, seen, k, n, seen', k');
  }

  /** Every entry present at the start is visited exactly once, in traversal order, although
      the callback may delete the entry it is given and with it the bucket and its index node. */
  method ForeachHash<K(!new), V>(h: Hash<K, V>, f: Callback<K, V>) returns (seen: seq<Entry<K, V>>)
    requires h.Valid()
    modifies h, h.buckets, h.s.nodes
    ensures h.Valid() && seen == Contents(old(h.s.t))
    ensures h.s.t == Sweep(h.config, old(h.s.t), f, [], Contents(old(h.s.t)))
  {
    ghost var s0 := h.s;
    ghost var k: nat, n: nat := 0, 0;
    seen := [];
    FirstBucket(h.buckets[..], h.nonempty, s0);
    BeforeWalk(h.config, s0, f);
    var nonempty := h.nonempty.next;
    hide *;
    while nonempty != null
      invariant h.Valid() && h.s.nodes == s0.nodes && Walk(h.config, h.s, s0, f, seen, k, n)
      invariant n <= |s0.t.order| && (n < |s0.t.order| ==> k + 1 < |h.s.index|)
      invariant nonempty == if n == |s0.t.order| then null else h.s.index[k + 1]
      decreases |s0.t.order| - n
    {
      nonempty, seen, k := WalkOn(h, nonempty, f, seen, s0, k, n);
      n := n + 1;
    }
    AfterWalk(h.config, h.s, s0, f, seen, k, n);
  }

  // ----- delete_hash

  /** t without the first bucket of its index. */
  function LessFirst<K, V>(t: Table<K, V>): Table<K, V>
    requires t.order != [] && t.order[0] < |t.buckets|
  {
    Table(t.buckets[t.order[0] := []], t.order[1..])
  }

  lemma LessFirstInv<K, V>(t: Table<K, V>)
    requires t.order != [] && IndexInv(t)
    ensures IndexInv(LessFirst(t)) && Covers(LessFirst(t).buckets, LessFirst(t).order)
  {
    var i, u := t.order[0], LessFirst(t);
    forall j | 0 <= j < |u.buckets| && u.buckets[j] != [] ensures j in u.order {
      assert j in t.order && j != i;
    }
  }

  /** The entries met walking t, from freed on, are those of the first bucket, then the others. */
  lemma LessFirstContents<K, V>(t: Table<K, V>, freed: seq<Entry<K, V>>)
    requires t.order != [] && IndexInv(t) && IndexInv(LessFirst(t))
    ensures freed + Contents(t) == freed + t.buckets[t.order[0]] + Contents(LessFirst(t))
  {
    var u := LessFirst(t);
    FlatFrame(t.buckets, u.buckets, u.order);
  }

  /** With nothing in the index no bucket is left. */
  lemma NoneLeft<K, V>(heads: seq<Node?<K, V>>, first: Node<K, V>, s: Picture<K, V>)
    requires Shape(heads, first, s) && IndexInv(s.t) && Heights(s) && s.t.order == []
    ensures Contents(s.t) == [] && forall i :: 0 <= i < |heads| ==> heads[i] == null
  {
    forall i | 0 <= i < |heads| ensures heads[i] == null {
      assert s.t.buckets[i] == [];
      assert ChainOk(heads[i], s.chains[i], s.t.buckets[i], i, s.link, s.nodes);
    }
  }

  /** The inner loop: the entries of one bucket are freed. */
  method FreeEntries<K, V>(buckets: array<Node?<K, V>>, i: nat, freed: seq<Entry<K, V>>, ghost first: Node<K, V>,
                           ghost s: Picture<K, V>, ghost a: nat)
    returns (freed': seq<Entry<K, V>>)
    requires Shape(buckets[..], first, s) && IndexInv(s.t) && Heights(s) && a < |s.t.order| && i == s.t.order[a]
    requires i < buckets.Length && buckets[i] != null
    ensures freed' == freed + s.t.buckets[i]
  {
    Follow(buckets[..], first, s, a);
    ghost var es, q := s.t.buckets[i], 0;
    var e := buckets[i].next;
    freed' := freed;
    assert |s.chains[i]| == |es| + 1 && freed + es[..0] == freed;
    hide *;
    while e != null
      invariant q <= |es| && freed' == freed + es[..q]
      invariant e == if q < |es| then s.chains[i][q + 1] else null
      decreases |es| - q
    {
      var freeMe := e;
      e := e.next;
      OneMore(freed, es, q);
      freed' := freed' + [freeMe.data.entry];
      q := q + 1;
    }
    assert es[..q] == es;
  }

  lemma OneMore<T>(xs: seq<T>, ys: seq<T>, q: nat)
    requires q < |ys|
    ensures xs + ys[..q] + [ys[q]] == xs + ys[..q + 1]
  {
  }

  method FreeBucket<K, V>(buckets: array<Node?<K, V>>, nonempty: Node<K, V>, freed: seq<Entry<K, V>>,
                          ghost first: Node<K, V>, ghost s: Picture<K, V>)
    returns (next: Node?<K, V>, freed': seq<Entry<K, V>>, ghost s': Picture<K, V>)
    requires Shape(buckets[..], first, s) && IndexInv(s.t) && Heights(s) && s.t.order != [] && nonempty == s.index[1]
    modifies buckets, s.nodes
    ensures Shape(buckets[..], first, s') && Heights(s') && s'.nodes == s.nodes && s'.t == LessFirst(s.t)
    ensures |s'.t.order| == |s.t.order| - 1 && |s'.index| == |s'.t.order| + 1
    ensures freed' == freed + s.t.buckets[s.t.order[0]] && next == if |s'.t.order| > 0 then s'.index[1] else null
  {
    Follow(buckets[..], first, s, 0);
    assert |s.index| == |s.t.order| + 1;
    var i := nonempty.data.number;
    assert i == s.t.order[0] < buckets.Length && buckets[..][i] != null && i < |s.t.buckets|;
    assert ChainOk(buckets[..][i], s.chains[i], s.t.buckets[i], i, s.link, s.nodes);
    assert forall x :: x in s.chains[i] || x in s.index ==> x in s.nodes;
    hide *;
    next, freed', s' := nonempty.next, freed, s;
    if buckets[i] != null {
      freed' := FreeEntries(buckets, i, freed, first, s, 0);
      s' := DeleteBucket(buckets, i, first, s, 0);
    }
    FreedPicture(s', s);
  }

  /** The picture once the first bucket of the index is deleted. */
  lemma FreedPicture<K, V>(s': Picture<K, V>, s: Picture<K, V>)
    requires IndexInv(s.t) && Heights(s) && s.t.order != [] && |s.index| == |s.t.order| + 1
    requires var i := s.t.order[0];
             s' == s.(t := Table(s.t.buckets[i := []], RemoveAt(s.t.order, 0)),
                      chains := s.chains[i := []], index := RemoveAt(s.index, 1))
    ensures Heights(s') && s'.nodes == s.nodes && s'.t == LessFirst(s.t)
    ensures |s'.t.order| == |s.t.order| - 1 && |s'.index| == |s'.t.order| + 1
    ensures |s'.t.order| > 0 ==> s'.index[1] == s.index[2]
  {
    assert RemoveAt(s.t.order, 0) == s.t.order[1..];
  }

  method FreeBuckets<K, V>(buckets: array<Node?<K, V>>, first: Node<K, V>, ghost s0: Picture<K, V>)
    returns (freed: seq<Entry<K, V>>)
    requires Shape(buckets[..], first, s0) && IndexInv(s0.t) && Heights(s0)
    modifies buckets, s0.nodes
    ensures freed == Contents(s0.t)
    ensures first.next == null && forall i :: 0 <= i < buckets.Length ==> buckets[i] == null
  {
    assert Covers(s0.t.buckets, s0.t.order);
    hide *;
    ghost var s := s0;
    freed := [];
    FirstBucket(buckets[..], first, s);
    assert [] + Contents(s.t) == Contents(s.t);
    var nonempty := first.next;
    while nonempty != null
      invariant Shape(buckets[..], first, s) && IndexInv(s.t) && Heights(s) && s.nodes == s0.nodes
      invariant |s.index| == |s.t.order| + 1 && nonempty == if |s.t.order| > 0 then s.index[1] else null
      invariant Covers(s.t.buckets, s.t.order) && freed + Contents(s.t) == Contents(s0.t)
      decreases |s.t.order|
    {
      ghost var t := s.t;
      LessFirstInv(t);
      LessFirstContents(t, freed);
      nonempty, freed, s := FreeBucket(buckets, nonempty, freed, first, s);
    }
    NoneLeft(buckets[..], first, s);
    FirstBucket(buckets[..], first, s);
  }

  /** Every entry is freed exactly once, and neither a bucket nor an index node is left. */
  method DeleteHash<K(!new), V>(h: Hash<K, V>) returns (freed: seq<Entry<K, V>>)
    requires h.Valid()
    modifies h.buckets, h.s.nodes
    ensures freed == Contents(old(h.s.t)) && |freed| == old(h.length)
    ensures h.nonempty.next == null && forall i :: 0 <= i < h.buckets.Length ==> h.buckets[i] == null
  {
    freed := FreeBuckets(h.buckets, h.nonempty, h.s);
  }
}
