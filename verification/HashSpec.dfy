/**
 The chained hash table as a value: what the pointer structure of
 lib/cc_hash_table.c stores, bucket by bucket, and in which order the index of
 live buckets lists them.  The heap class in HashTable.dfy is proved against
 the functions of this module; the laws of the table are proved here.
 */
module HashSpec {

  /** A C pointer to a value: a stored NULL and "no entry" look alike to a caller. */
  datatype Ptr<+V> = Null | Ref(value: V)

  datatype Entry<+K, +V> = Entry(key: K, value: Ptr<V>)

  /** The two callbacks a table is created with, and its number of buckets. */
  datatype Config<!K> = Config(compare: (K, K) -> bool, hash: K -> nat, size: nat)

  datatype Table<+K, +V> = Table(buckets: seq<seq<Entry<K, V>>>, order: seq<nat>)

  /** compare is an equivalence and hash respects it. */
  ghost predicate Lawful<K(!new)>(c: Config<K>) {
    && c.size > 0
    && (forall x :: c.compare(x, x))
    && (forall x, y :: c.compare(x, y) ==> c.compare(y, x))
    && (forall x, y, z :: c.compare(x, y) && c.compare(y, z) ==> c.compare(x, z))
    && (forall x, y :: c.compare(x, y) ==> c.hash(x) == c.hash(y))
  }

  function Slot<K>(c: Config<K>, k: K): (i: nat)
    requires c.size > 0
    ensures i < c.size
  {
    c.hash(k) % c.size
  }

  /** The first entry of a bucket whose key compares equal, or the bucket's length. */
  function Position<K, V>(c: Config<K>, es: seq<Entry<K, V>>, k: K): (p: nat)
    ensures p <= |es|
    ensures forall j :: 0 <= j < p ==> !c.compare(k, es[j].key)
    ensures p < |es| ==> c.compare(k, es[p].key)
  {
    if es == [] || c.compare(k, es[0].key) then 0 else 1 + Position(c, es[1..], k)
  }

  function IndexOf(s: seq<nat>, i: nat): (p: nat)
    ensures p <= |s|
    ensures i !in s[..p]
    ensures p < |s| <==> i in s
    ensures p < |s| ==> s[p] == i
  {
    if s == [] || s[0] == i then 0 else 1 + IndexOf(s[1..], i)
  }

  function RemoveAt<T>(s: seq<T>, p: nat): seq<T>
    requires p < |s|
  {
    s[..p] + s[p + 1..]
  }

  predicate Sized<K, V>(c: Config<K>, t: Table<K, V>) {
    c.size > 0 && |t.buckets| == c.size
  }

  function Lookup<K, V>(c: Config<K>, t: Table<K, V>, k: K): Ptr<V>
    requires Sized(c, t)
  {
    var es := t.buckets[Slot(c, k)];
    var p := Position(c, es, k);
    if p < |es| then es[p].value else Null
  }

  predicate Present<K, V>(c: Config<K>, t: Table<K, V>, k: K)
    requires Sized(c, t)
  {
    Position(c, t.buckets[Slot(c, k)], k) < |t.buckets[Slot(c, k)]|
  }

  /** Removing the last entry of a bucket removes the bucket from the index. */
  function Delete<K, V>(c: Config<K>, t: Table<K, V>, k: K): Table<K, V>
    requires Sized(c, t)
  {
    var i := Slot(c, k);
    if !Present(c, t, k) then t
    else
      var es := RemoveAt(t.buckets[i], Position(c, t.buckets[i], k));
      Table(t.buckets[i := es],
            if es == [] && i in t.order then RemoveAt(t.order, IndexOf(t.order, i)) else t.order)
  }

  /** A new entry goes in front of its bucket, a new bucket in front of the index. */
  function Prepend<K, V>(c: Config<K>, t: Table<K, V>, k: K, v: Ptr<V>): Table<K, V>
    requires Sized(c, t)
  {
    var i := Slot(c, k);
    Table(t.buckets[i := [Entry(k, v)] + t.buckets[i]],
          if t.buckets[i] == [] then [i] + t.order else t.order)
  }

  function Insert<K, V>(c: Config<K>, t: Table<K, V>, k: K, v: Ptr<V>): Table<K, V>
    requires Sized(c, t)
  {
    Prepend(c, Delete(c, t, k), k, v)
  }

  function Empty<K, V>(c: Config<K>): Table<K, V> {
    Table(seq(c.size, _ => []), [])
  }

  // ----- the table invariant

  ghost predicate IndexInv<K, V>(t: Table<K, V>) {
    && (forall a, b :: 0 <= a < b < |t.order| ==> t.order[a] != t.order[b])
    && (forall a :: 0 <= a < |t.order| ==> t.order[a] < |t.buckets| && t.buckets[t.order[a]] != [])
    && (forall i :: 0 <= i < |t.buckets| && t.buckets[i] != [] ==> i in t.order)
  }

  ghost predicate BucketInv<K, V>(c: Config<K>, i: nat, es: seq<Entry<K, V>>)
    requires c.size > 0
  {
    && (forall j :: 0 <= j < |es| ==> Slot(c, es[j].key) == i)
    && (forall a, b :: 0 <= a < b < |es| ==> !c.compare(es[a].key, es[b].key))
  }

  /** The index lists exactly the non-empty buckets, once each; every entry is in
      the bucket its key hashes to; no bucket holds two equal keys. */
  ghost predicate Inv<K, V>(c: Config<K>, t: Table<K, V>) {
    && Sized(c, t)
    && IndexInv(t)
    && (forall i :: 0 <= i < c.size ==> BucketInv(c, i, t.buckets[i]))
  }

  lemma EmptyInv<K, V>(c: Config<K>)
    requires c.size > 0
    ensures Inv(c, Empty<K, V>(c))
  {
  }

  /** Taking a bucket's only listing out of the index leaves every other bucket listed, once. */
  lemma RemoveListing(order: seq<nat>, p: nat)
    requires p < |order| && (forall a, b :: 0 <= a < b < |order| ==> order[a] != order[b])
    ensures var r := RemoveAt(order, p);
            && (forall a, b :: 0 <= a < b < |r| ==> r[a] != r[b])
            && (forall x :: x in r <==> x in order && x != order[p])
  {
    var r := RemoveAt(order, p);
    forall a | 0 <= a < |r| ensures r[a] == order[if a < p then a else a + 1] && r[a] != order[p] && r[a] in order {
    }
    forall x | x in order && x != order[p] ensures x in r {
      var q :| 0 <= q < |order| && order[q] == x;
      assert r[if q < p then q else q - 1] == x;
    }
  }

  lemma DeleteIndexInv<K, V>(c: Config<K>, t: Table<K, V>, k: K)
    requires Sized(c, t) && IndexInv(t) && Present(c, t, k)
    ensures IndexInv(Delete(c, t, k))
  {
    var i, d := Slot(c, k), Delete(c, t, k);
    assert i in t.order;
    if d.buckets[i] == [] {
      RemoveListing(t.order, IndexOf(t.order, i));
      forall a | 0 <= a < |d.order| ensures d.order[a] < |d.buckets| && d.buckets[d.order[a]] != [] {
        assert d.order[a] in d.order;
        assert d.order[a] in t.order && d.order[a] != i;
      }
    }
  }

  lemma DeleteInv<K, V>(c: Config<K>, t: Table<K, V>, k: K)
    requires Inv(c, t)
    ensures Inv(c, Delete(c, t, k))
  {
    if Present(c, t, k) {
      var d := Delete(c, t, k);
      DeleteIndexInv(c, t, k);
      forall j | 0 <= j < c.size ensures BucketInv(c, j, d.buckets[j]) {
        assert BucketInv(c, j, t.buckets[j]);
      }
    }
  }

  /** After Delete no entry compares equal, so Prepend keeps the keys apart. */
  lemma DeleteClears<K(!new), V>(c: Config<K>, t: Table<K, V>, k: K)
    requires Lawful(c) && Inv(c, t)
    ensures !Present(c, Delete(c, t, k), k)
  {
    if Present(c, t, k) {
      var i := Slot(c, k);
      var es := t.buckets[i];
      var p := Position(c, es, k);
      assert BucketInv(c, i, es);
      assert forall j :: 0 <= j < |es| && j != p ==> !c.compare(k, es[j].key);
    }
  }

  lemma PrependInv<K(!new), V>(c: Config<K>, t: Table<K, V>, k: K, v: Ptr<V>)
    requires Lawful(c) && Inv(c, t) && !Present(c, t, k)
    ensures Inv(c, Prepend(c, t, k, v))
  {
    var i, u := Slot(c, k), Prepend(c, t, k, v);
    forall j | 0 <= j < c.size ensures BucketInv(c, j, u.buckets[j]) {
      assert BucketInv(c, j, t.buckets[j]);
    }
    forall j | 0 <= j < |u.buckets| && u.buckets[j] != [] ensures j in u.order {
      assert j == i || j in t.order;
    }
    if t.buckets[i] == [] {
      assert i !in t.order;
    }
  }

  /** Insert keeps the invariant although it deletes first and may drop and rebuild the bucket. */
  lemma InsertInv<K(!new), V>(c: Config<K>, t: Table<K, V>, k: K, v: Ptr<V>)
    requires Lawful(c) && Inv(c, t)
    ensures Inv(c, Insert(c, t, k, v))
  {
    DeleteInv(c, t, k);
    DeleteClears(c, t, k);
    PrependInv(c, Delete(c, t, k), k, v);
  }

  /** The new entry stands first in the bucket of its key's hash, before the entries there whose keys do not
      compare equal; other buckets stay.  The bucket is in front of the index if it had no other entry. */
  lemma InsertPlaces<K(!new), V>(c: Config<K>, t: Table<K, V>, k: K, v: Ptr<V>)
    requires Lawful(c) && Inv(c, t)
    ensures var i, u := c.hash(k) % c.size, Insert(c, t, k, v);
            && |u.buckets| == |t.buckets| == c.size
            && u.buckets[i] != [] && u.buckets[i][0] == Entry(k, v)
            && (forall e :: e in u.buckets[i][1..] <==> e in t.buckets[i] && !c.compare(k, e.key))
            && (forall j :: 0 <= j < c.size && j != i ==> u.buckets[j] == t.buckets[j])
            && (forall j :: j in u.order <==> j == i || j in t.order)
            && (|u.buckets[i]| == 1 ==> u.order[0] == i)
            && (|u.buckets[i]| > 1 ==> u.order == t.order)
  {
    var i, d := c.hash(k) % c.size, Delete(c, t, k);
    InsertInv(c, t, k, v);
    DeleteInv(c, t, k);
    DeleteRemaining(c, t, k);
    var u := Insert(c, t, k, v);
    assert u.buckets[i][1..] == d.buckets[i];
    forall j ensures j in u.order <==> j == i || j in t.order {
      ListedWhen(c, t, j);
      ListedWhen(c, u, j);
    }
  }

  /** Delete leaves in the key's bucket the entries whose keys do not compare equal. */
  lemma DeleteRemaining<K(!new), V>(c: Config<K>, t: Table<K, V>, k: K)
    requires Lawful(c) && Inv(c, t)
    ensures var i, d := c.hash(k) % c.size, Delete(c, t, k);
            && |d.buckets| == |t.buckets| == c.size && (d.buckets[i] != [] ==> d.order == t.order)
            && (forall e :: e in d.buckets[i] <==> e in t.buckets[i] && !c.compare(k, e.key))
  {
    var i := c.hash(k) % c.size;
    var es := t.buckets[i];
    var p := Position(c, es, k);
    assert BucketInv(c, i, es);
    if p < |es| {
      var r := RemoveAt(es, p);
      forall e | e in es && !c.compare(k, e.key) ensures e in r {
        var j :| 0 <= j < |es| && es[j] == e;
        assert r[if j < p then j else j - 1] == e;
      }
      assert forall j :: 0 <= j < |es| && j != p ==> !c.compare(k, es[j].key);
    }
  }

  lemma ListedWhen<K, V>(c: Config<K>, t: Table<K, V>, j: nat)
    requires Inv(c, t)
    ensures j in t.order <==> j < c.size && t.buckets[j] != []
  {
  }

  // ----- refinement of a finite map whose keys are taken modulo compare

  predicate Stored<K(==), V>(es: seq<Entry<K, V>>, k: K) {
    exists j :: 0 <= j < |es| && es[j].key == k
  }

  ghost predicate Models<K(!new), V>(c: Config<K>, t: Table<K, V>, m: map<K, Ptr<V>>)
    requires Sized(c, t)
  {
    && (forall i, j :: 0 <= i < c.size && 0 <= j < |t.buckets[i]| ==>
          var e := t.buckets[i][j]; e.key in m && m[e.key] == e.value)
    && (forall k :: k in m ==> Stored(t.buckets[Slot(c, k)], k))
  }

  ghost function RefDelete<K, V>(c: Config<K>, m: map<K, Ptr<V>>, k: K): map<K, Ptr<V>> {
    map x | x in m && !c.compare(k, x) :: m[x]
  }

  ghost function RefInsert<K, V>(c: Config<K>, m: map<K, Ptr<V>>, k: K, v: Ptr<V>): map<K, Ptr<V>> {
    RefDelete(c, m, k)[k := v]
  }

  /** r is what the finite map holds for k: NULL if no key compares equal. */
  ghost predicate Answers<K, V>(c: Config<K>, m: map<K, Ptr<V>>, k: K, r: Ptr<V>) {
    && (forall x :: x in m && c.compare(k, x) ==> r == m[x])
    && ((forall x :: x in m ==> !c.compare(k, x)) ==> r == Null)
  }

  lemma LookupAnswers<K(!new), V>(c: Config<K>, t: Table<K, V>, m: map<K, Ptr<V>>, k: K)
    requires Lawful(c) && Inv(c, t) && Models(c, t, m)
    ensures Answers(c, m, k, Lookup(c, t, k))
    ensures Present(c, t, k) <==> exists x :: x in m && c.compare(k, x)
  {
    var i := Slot(c, k);
    var es := t.buckets[i];
    var p := Position(c, es, k);
    assert BucketInv(c, i, es);
    forall x | x in m && c.compare(k, x) ensures p < |es| && es[p].key == x {
      var j :| 0 <= j < |t.buckets[Slot(c, x)]| && t.buckets[Slot(c, x)][j].key == x;
      assert Slot(c, x) == i;
    }
  }

  lemma DeleteKeepsStored<K(!new), V>(c: Config<K>, t: Table<K, V>, k: K, x: K)
    requires Lawful(c) && Inv(c, t) && !c.compare(k, x) && Stored(t.buckets[Slot(c, x)], x)
    ensures Stored(Delete(c, t, k).buckets[Slot(c, x)], x)
  {
    var i, d, es := Slot(c, k), Delete(c, t, k), t.buckets[Slot(c, x)];
    var j :| 0 <= j < |es| && es[j].key == x;
    if Present(c, t, k) && Slot(c, x) == i {
      var p := Position(c, es, k);
      assert d.buckets[i][if j < p then j else j - 1].key == x;
    } else {
      assert d.buckets[Slot(c, x)] == es;
    }
  }

  lemma DeleteKeepsOthers<K(!new), V>(c: Config<K>, t: Table<K, V>, k: K, a: nat, b: nat)
    requires Lawful(c) && Inv(c, t) && a < c.size && b < |Delete(c, t, k).buckets[a]|
    ensures Delete(c, t, k).buckets[a][b] in t.buckets[a]
    ensures !c.compare(k, Delete(c, t, k).buckets[a][b].key)
  {
    var d := Delete(c, t, k);
    DeleteClears(c, t, k);
    DeleteInv(c, t, k);
    assert BucketInv(c, a, d.buckets[a]);
    assert Slot(c, d.buckets[a][b].key) == a;
  }

  lemma DeleteModels<K(!new), V>(c: Config<K>, t: Table<K, V>, m: map<K, Ptr<V>>, k: K)
    requires Lawful(c) && Inv(c, t) && Models(c, t, m)
    ensures Models(c, Delete(c, t, k), RefDelete(c, m, k))
  {
    var d := Delete(c, t, k);
    forall a, b | 0 <= a < c.size && 0 <= b < |d.buckets[a]|
      ensures var e := d.buckets[a][b]; e.key in m && m[e.key] == e.value && !c.compare(k, e.key)
    {
      DeleteKeepsOthers(c, t, k, a, b);
    }
    forall x | x in RefDelete(c, m, k) ensures Stored(d.buckets[Slot(c, x)], x) {
      DeleteKeepsStored(c, t, k, x);
    }
  }

  lemma PrependStored<K, V>(c: Config<K>, t: Table<K, V>, k: K, v: Ptr<V>, x: K)
    requires Sized(c, t) && Stored(t.buckets[Slot(c, x)], x)
    ensures Stored(Prepend(c, t, k, v).buckets[Slot(c, x)], x)
  {
    var i, u := Slot(c, k), Prepend(c, t, k, v);
    var j :| 0 <= j < |t.buckets[Slot(c, x)]| && t.buckets[Slot(c, x)][j].key == x;
    assert u.buckets[Slot(c, x)][if Slot(c, x) == i then j + 1 else j].key == x;
  }

  lemma PrependModels<K(!new), V>(c: Config<K>, t: Table<K, V>, m: map<K, Ptr<V>>, k: K, v: Ptr<V>)
    requires Inv(c, t) && Models(c, t, m) && k !in m
    ensures Models(c, Prepend(c, t, k, v), m[k := v])
  {
    var i, u := Slot(c, k), Prepend(c, t, k, v);
    assert u.buckets[i][0].key == k;
    forall x | x in m ensures Stored(u.buckets[Slot(c, x)], x) {
      PrependStored(c, t, k, v, x);
    }
    hide Slot, Inv, IndexInv, BucketInv, Stored;
    forall a, b | 0 <= a < c.size && 0 <= b < |u.buckets[a]|
      ensures u.buckets[a][b].key in m[k := v] && m[k := v][u.buckets[a][b].key] == u.buckets[a][b].value
    {
      if a == i && b > 0 {
        assert u.buckets[a][b] == t.buckets[a][b - 1];
      }
    }
  }

  lemma InsertModels<K(!new), V>(c: Config<K>, t: Table<K, V>, m: map<K, Ptr<V>>, k: K, v: Ptr<V>)
    requires Lawful(c) && Inv(c, t) && Models(c, t, m)
    ensures Models(c, Insert(c, t, k, v), RefInsert(c, m, k, v))
  {
    DeleteInv(c, t, k);
    DeleteModels(c, t, m, k);
    PrependModels(c, Delete(c, t, k), RefDelete(c, m, k), k, v);
  }

  // ----- whole runs

  datatype Op<+K, +V> = OpInsert(k: K, v: Ptr<V>) | OpDelete(k: K) | OpLookup(k: K)

  function Step<K, V>(c: Config<K>, t: Table<K, V>, op: Op<K, V>): Table<K, V>
    requires Sized(c, t)
  {
    match op
    case OpInsert(k, v) => Insert(c, t, k, v)
    case OpDelete(k) => Delete(c, t, k)
    case OpLookup(_) => t
  }

  ghost function RefStep<K, V>(c: Config<K>, m: map<K, Ptr<V>>, op: Op<K, V>): map<K, Ptr<V>> {
    match op
    case OpInsert(k, v) => RefInsert(c, m, k, v)
    case OpDelete(k) => RefDelete(c, m, k)
    case OpLookup(_) => m
  }

  function Run<K, V>(c: Config<K>, t: Table<K, V>, ops: seq<Op<K, V>>): (u: Table<K, V>)
    requires Sized(c, t)
    ensures Sized(c, u)
    decreases |ops|
  {
    if ops == [] then t else Run(c, Step(c, t, ops[0]), ops[1..])
  }

  /** Each operation returns the pointer the table held for its key before the call. */
  function Results<K, V>(c: Config<K>, t: Table<K, V>, ops: seq<Op<K, V>>): (rs: seq<Ptr<V>>)
    requires Sized(c, t)
    ensures |rs| == |ops|
    decreases |ops|
  {
    if ops == [] then [] else [Lookup(c, t, ops[0].k)] + Results(c, Step(c, t, ops[0]), ops[1..])
  }

  ghost function RefRun<K, V>(c: Config<K>, m: map<K, Ptr<V>>, ops: seq<Op<K, V>>): map<K, Ptr<V>>
    decreases |ops|
  {
    if ops == [] then m else RefRun(c, RefStep(c, m, ops[0]), ops[1..])
  }

  lemma StepRefinesMap<K(!new), V>(c: Config<K>, t: Table<K, V>, m: map<K, Ptr<V>>, op: Op<K, V>)
    requires Lawful(c) && Inv(c, t) && Models(c, t, m)
    ensures Inv(c, Step(c, t, op)) && Models(c, Step(c, t, op), RefStep(c, m, op))
    ensures Answers(c, m, op.k, Lookup(c, t, op.k))
  {
    LookupAnswers(c, t, m, op.k);
    match op {
      case OpInsert(k, v) => InsertInv(c, t, k, v); InsertModels(c, t, m, k, v);
      case OpDelete(k) => DeleteInv(c, t, k); DeleteModels(c, t, m, k);
      case OpLookup(_) =>
    }
  }

  /** Any run of inserts, deletes and lookups keeps the invariant and ends in a table
      for the finite map that the same run leaves. */
  lemma {:induction false} RunRefinesMap<K(!new), V>(
    c: Config<K>, t: Table<K, V>, m: map<K, Ptr<V>>, ops: seq<Op<K, V>>)
    requires Lawful(c) && Inv(c, t) && Models(c, t, m)
    ensures Inv(c, Run(c, t, ops)) && Models(c, Run(c, t, ops), RefRun(c, m, ops))
    decreases |ops|
  {
    if ops != [] {
      StepRefinesMap(c, t, m, ops[0]);
      RunRefinesMap(c, Step(c, t, ops[0]), RefStep(c, m, ops[0]), ops[1..]);
    }
  }

  lemma UnrollRun<K, V>(c: Config<K>, t: Table<K, V>, m: map<K, Ptr<V>>, ops: seq<Op<K, V>>, n: nat)
    requires Sized(c, t) && 0 < n < |ops|
    ensures Results(c, t, ops)[n] == Results(c, Step(c, t, ops[0]), ops[1..])[n - 1]
    ensures RefRun(c, m, ops[..n]) == RefRun(c, RefStep(c, m, ops[0]), ops[1..][..n - 1])
  {
    assert ops[..n][0] == ops[0] && ops[..n][1..] == ops[1..][..n - 1];
  }

  /** Every result of a run is the finite map's answer at that point. */
  lemma {:induction false} ResultsAnswer<K(!new), V>(
    c: Config<K>, t: Table<K, V>, m: map<K, Ptr<V>>, ops: seq<Op<K, V>>, n: nat)
    requires Lawful(c) && Inv(c, t) && Models(c, t, m) && n < |ops|
    ensures Answers(c, RefRun(c, m, ops[..n]), ops[n].k, Results(c, t, ops)[n])
    decreases n
  {
    StepRefinesMap(c, t, m, ops[0]);
    if n > 0 {
      ResultsAnswer(c, Step(c, t, ops[0]), RefStep(c, m, ops[0]), ops[1..], n - 1);
      UnrollRun(c, t, m, ops, n);
    }
  }

  // ----- traversal order

  /** The entries met by walking the index and, in each live bucket, its chain. */
  function Flat<K, V>(buckets: seq<seq<Entry<K, V>>>, order: seq<nat>): seq<Entry<K, V>>
    requires Covers(buckets, order)
  {
    if order == [] then [] else buckets[order[0]] + Flat(buckets, order[1..])
  }

  function Contents<K, V>(t: Table<K, V>): seq<Entry<K, V>>
    requires Covers(t.buckets, t.order)
  {
    Flat(t.buckets, t.order)
  }

  predicate Covers<K, V>(buckets: seq<seq<Entry<K, V>>>, order: seq<nat>) {
    forall a :: 0 <= a < |order| ==> order[a] < |buckets|
  }

  lemma {:induction false} FlatConcat<K, V>(buckets: seq<seq<Entry<K, V>>>, o1: seq<nat>, o2: seq<nat>)
    requires Covers(buckets, o1) && Covers(buckets, o2)
    ensures Covers(buckets, o1 + o2)
    ensures Flat(buckets, o1 + o2) == Flat(buckets, o1) + Flat(buckets, o2)
  {
    if o1 == [] {
      assert o1 + o2 == o2;
    } else {
      assert (o1 + o2)[1..] == o1[1..] + o2;
      FlatConcat(buckets, o1[1..], o2);
    }
  }

  lemma {:induction false} FlatFrame<K, V>(b1: seq<seq<Entry<K, V>>>, b2: seq<seq<Entry<K, V>>>, order: seq<nat>)
    requires Covers(b1, order) && |b1| == |b2|
    requires forall a :: 0 <= a < |order| ==> b1[order[a]] == b2[order[a]]
    ensures Flat(b1, order) == Flat(b2, order)
  {
    if order != [] {
      FlatFrame(b1, b2, order[1..]);
    }
  }

  /** Where a listed bucket's entries sit in the traversal. */
  lemma FlatSplit<K, V>(buckets: seq<seq<Entry<K, V>>>, order: seq<nat>, p: nat)
    requires Covers(buckets, order) && p < |order|
    ensures Flat(buckets, order) ==
            Flat(buckets, order[..p]) + buckets[order[p]] + Flat(buckets, order[p + 1..])
  {
    assert order == order[..p] + order[p..];
    FlatConcat(buckets, order[..p], order[p..]);
    assert order[p..][1..] == order[p + 1..];
  }

  lemma FlatUpdate<K, V>(buckets: seq<seq<Entry<K, V>>>, order: seq<nat>, p: nat, es: seq<Entry<K, V>>)
    requires Covers(buckets, order) && p < |order|
    requires forall a, b :: 0 <= a < b < |order| ==> order[a] != order[b]
    ensures Flat(buckets[order[p] := es], order) ==
            Flat(buckets, order[..p]) + es + Flat(buckets, order[p + 1..])
  {
    var b2 := buckets[order[p] := es];
    FlatSplit(b2, order, p);
    FlatFrame(buckets, b2, order[..p]);
    FlatFrame(buckets, b2, order[p + 1..]);
  }

  lemma FlatDrop<K, V>(buckets: seq<seq<Entry<K, V>>>, order: seq<nat>, p: nat)
    requires Covers(buckets, order) && p < |order|
    requires forall a, b :: 0 <= a < b < |order| ==> order[a] != order[b]
    ensures Covers(buckets, RemoveAt(order, p))
    ensures Flat(buckets[order[p] := []], RemoveAt(order, p)) ==
            Flat(buckets, order[..p]) + Flat(buckets, order[p + 1..])
  {
    var b2, o1, o2 := buckets[order[p] := []], order[..p], order[p + 1..];
    FlatConcat(b2, o1, o2);
    FlatFrame(buckets, b2, o1);
    FlatFrame(buckets, b2, o2);
  }

  lemma DeleteContents<K, V>(c: Config<K>, t: Table<K, V>, k: K)
    requires Sized(c, t) && IndexInv(t) && Present(c, t, k)
    ensures Covers(Delete(c, t, k).buckets, Delete(c, t, k).order)
    ensures |Contents(Delete(c, t, k))| == |Contents(t)| - 1
  {
    var i := Slot(c, k);
    var p := IndexOf(t.order, i);
    FlatSplit(t.buckets, t.order, p);
    if |t.buckets[i]| == 1 {
      FlatDrop(t.buckets, t.order, p);
    } else {
      FlatUpdate(t.buckets, t.order, p, RemoveAt(t.buckets[i], Position(c, t.buckets[i], k)));
    }
  }

  lemma PrependContents<K, V>(c: Config<K>, t: Table<K, V>, k: K, v: Ptr<V>)
    requires Sized(c, t) && IndexInv(t)
    ensures Covers(Prepend(c, t, k, v).buckets, Prepend(c, t, k, v).order)
    ensures |Contents(Prepend(c, t, k, v))| == |Contents(t)| + 1
  {
    var i, u := Slot(c, k), Prepend(c, t, k, v);
    if t.buckets[i] == [] {
      assert i !in t.order;
      NewInFront(t.buckets, t.order, i, u.buckets[i]);
    } else {
      GrownInPlace(t.buckets, t.order, i, u.buckets[i]);
    }
  }

  /** A new bucket in front adds its entries to the traversal. */
  lemma NewInFront<K, V>(buckets: seq<seq<Entry<K, V>>>, order: seq<nat>, i: nat, es: seq<Entry<K, V>>)
    requires Covers(buckets, order) && i < |buckets| && i !in order
    ensures Covers(buckets[i := es], [i] + order)
    ensures |Flat(buckets[i := es], [i] + order)| == |Flat(buckets, order)| + |es|
  {
    assert ([i] + order)[1..] == order;
    FlatFrame(buckets, buckets[i := es], order);
  }

  /** A listed bucket with other entries changes the traversal there. */
  lemma GrownInPlace<K, V>(buckets: seq<seq<Entry<K, V>>>, order: seq<nat>, i: nat, es: seq<Entry<K, V>>)
    requires Covers(buckets, order) && i < |buckets| && i in order
    requires forall a, b :: 0 <= a < b < |order| ==> order[a] != order[b]
    ensures Covers(buckets[i := es], order)
    ensures |Flat(buckets[i := es], order)| == |Flat(buckets, order)| + |es| - |buckets[i]|
  {
    var p := IndexOf(order, i);
    FlatSplit(buckets, order, p);
    FlatUpdate(buckets, order, p, es);
  }
}
