/**
 lib/cc_hash_table.c on the heap: an array of bucket sentinels, one chain per
 live bucket, and the index list of live buckets that each sentinel points into.
 */
module HashTable {
  import opened HashSpec
  import opened DoubleLink

  /** What a void* data field points at: nothing, a bucket number (index nodes), an
      index node (bucket sentinels) or an entry (chain nodes). */
  datatype Data<!K, !V> =
    | Nil
    | Bucket(number: nat)
    | Link(node: Element<Data<K, V>>)
    | Item(entry: Entry<K, V>)

  type Node<!K, !V> = Element<Data<K, V>>
  type Node?<!K, !V> = Element?<Data<K, V>>

  /** A bucket: NULL, or a sentinel that knows its index node, followed by the entries. */
  ghost predicate ChainOk<K, V>(head: Node?<K, V>, chain: seq<Node<K, V>>, es: seq<Entry<K, V>>, i: nat,
                                link: map<nat, Node<K, V>>, nodes: set<Node<K, V>>)
    reads chain
  {
    && (head == null <==> chain == [])
    && (chain == [] ==> es == [])
    && (chain != [] ==>
          && head == chain[0]
          && i in link && head.data == Link(link[i])
          && Linked(chain)
          && |chain| == |es| + 1
          && (forall j {:trigger chain[j]} :: 1 <= j < |chain| ==> chain[j].data == Item(es[j - 1]))
          && (forall x :: x in chain ==> x.home == i && x in nodes))
  }

  ghost predicate ChainsOk<K, V>(heads: seq<Node?<K, V>>, chains: seq<seq<Node<K, V>>>, bs: seq<seq<Entry<K, V>>>,
                                 link: map<nat, Node<K, V>>, nodes: set<Node<K, V>>)
    reads nodes
  {
    && |heads| == |chains| == |bs|
    && (forall i, k :: 0 <= i < |chains| && 0 <= k < |chains[i]| ==> chains[i][k] in nodes)
    && (forall i {:trigger chains[i]} :: 0 <= i < |chains| ==> ChainOk(heads[i], chains[i], bs[i], i, link, nodes))
  }

  /** x is the index node of bucket `number`. */
  ghost predicate Lists<K, V>(x: Node<K, V>, number: nat, link: map<nat, Node<K, V>>)
    reads x
  {
    x.data == Bucket(number) && number in link && link[number] == x
  }

  /** The index: a sentinel, then one node per live bucket, the one the bucket's sentinel points at. */
  ghost predicate IndexOk<K, V>(first: Node<K, V>, index: seq<Node<K, V>>, order: seq<nat>,
                                link: map<nat, Node<K, V>>, nodes: set<Node<K, V>>)
    reads index
  {
    && Linked(index)
    && |index| == |order| + 1
    && index[0] == first
    && (forall a {:trigger index[a]} :: 1 <= a < |index| ==> Lists(index[a], order[a - 1], link))
    && (forall x :: x in index ==> x.home == -1 && x in nodes)
  }

  /** The ghost picture of a table: its contents and the nodes that hold them. */
  datatype Picture<!K, !V> = Picture(
    t: Table<K, V>,
    index: seq<Node<K, V>>,        // sentinel, then one node per live bucket
    chains: seq<seq<Node<K, V>>>,  // per bucket: [] or sentinel, then its entries
    link: map<nat, Node<K, V>>,    // a live bucket's node in the index
    nodes: set<Node<K, V>>)

  /** The pointers agree with the picture; what s.t itself must satisfy is HashSpec.Inv. */
  ghost predicate Shape<K, V>(heads: seq<Node?<K, V>>, first: Node<K, V>, s: Picture<K, V>)
    reads s.index, s.nodes
  {
    && ChainsOk(heads, s.chains, s.t.buckets, s.link, s.nodes)
    && IndexOk(first, s.index, s.t.order, s.link, s.nodes)
  }

  twostate predicate Same<T>(x: Element<T>)
    reads x
  {
    x.data == old(x.data) && x.prev == old(x.prev) && x.next == old(x.next) && x.home == old(x.home)
  }

  /** A picture with the bucket array's heads, the index's sentinel and one bucket singled out. */
  datatype View<!K, !V> = View(heads: seq<Node?<K, V>>, first: Node<K, V>, s: Picture<K, V>, i: nat)

  /** Rewiring the nodes of one chain leaves the index as it was. */
  twostate lemma IndexKept<K, V>(v: View<K, V>)
    requires old(Shape(v.heads, v.first, v.s)) && v.i < |v.heads|
    requires forall a :: 0 <= a < |v.s.index| && v.s.index[a] !in v.s.chains[v.i] ==> Same(v.s.index[a])
    ensures IndexOk(v.first, v.s.index, v.s.t.order, v.s.link, v.s.nodes)
  {
    var s, i := v.s, v.i;
    assert old(ChainOk(v.heads[i], s.chains[i], s.t.buckets[i], i, s.link, s.nodes));
    assert old(IndexOk(v.first, s.index, s.t.order, s.link, s.nodes));
    forall a {:trigger s.index[a]} | 0 <= a < |s.index| ensures Same(s.index[a]) {
      assert s.index[a] in s.index;
    }
    forall a {:trigger s.index[a]} | 1 <= a < |s.index| ensures Lists(s.index[a], s.t.order[a - 1], s.link) {
      assert old(Lists(s.index[a], s.t.order[a - 1], s.link));
    }
    forall x | x in s.index ensures x.home == -1 && x in s.nodes {
      var a :| 0 <= a < |s.index| && s.index[a] == x;
      assert Same(s.index[a]);
    }
    assert old(Linked(s.index));
    assert Linked(s.index);
  }

  /** And every other chain. */
  twostate lemma OthersKept<K, V>(v: View<K, V>)
    requires old(Shape(v.heads, v.first, v.s)) && v.i < |v.heads|
    requires forall j, k :: 0 <= j < |v.heads| && 0 <= k < |v.s.chains[j]| && v.s.chains[j][k] !in v.s.chains[v.i] ==>
               Same(v.s.chains[j][k])
    ensures forall j :: 0 <= j < |v.heads| && j != v.i ==>
              ChainOk(v.heads[j], v.s.chains[j], v.s.t.buckets[j], j, v.s.link, v.s.nodes)
  {
    var heads, s, i := v.heads, v.s, v.i;
    assert old(ChainOk(heads[i], s.chains[i], s.t.buckets[i], i, s.link, s.nodes));
    forall j | 0 <= j < |heads| && j != i
      ensures ChainOk(heads[j], s.chains[j], s.t.buckets[j], j, s.link, s.nodes)
    {
      assert old(ChainOk(heads[j], s.chains[j], s.t.buckets[j], j, s.link, s.nodes));
      forall k | 0 <= k < |s.chains[j]| ensures Same(s.chains[j][k]) {
        assert s.chains[j][k] in s.chains[j];
      }
    }
  }

  /** One bucket replaced, the others as they were; link and nodes may have grown. */
  lemma ReplaceChain<K, V>(heads: seq<Node?<K, V>>, s: Picture<K, V>, i: nat,
                           head: Node?<K, V>, chain: seq<Node<K, V>>, es: seq<Entry<K, V>>,
                           link: map<nat, Node<K, V>>, nodes: set<Node<K, V>>)
    requires i < |heads| == |s.chains| == |s.t.buckets|
    requires forall j :: 0 <= j < |heads| && j != i ==>
               ChainOk(heads[j], s.chains[j], s.t.buckets[j], j, s.link, s.nodes)
    requires ChainOk(head, chain, es, i, link, nodes)
    requires s.nodes <= nodes && (forall j :: j in s.link && j != i ==> j in link && link[j] == s.link[j])
    ensures ChainsOk(heads[i := head], s.chains[i := chain], s.t.buckets[i := es], link, nodes)
  {
    forall j | 0 <= j < |heads| && j != i ensures ChainOk(heads[j], s.chains[j], s.t.buckets[j], j, link, nodes) {
      assert ChainOk(heads[j], s.chains[j], s.t.buckets[j], j, s.link, s.nodes);
    }
    var cs := s.chains[i := chain];
    forall j, k | 0 <= j < |cs| && 0 <= k < |cs[j]| ensures cs[j][k] in nodes {
      assert cs[j][k] in cs[j];
    }
  }

  method UnlinkFrom<K, V>(ghost head: Node?<K, V>, e: Node<K, V>, ghost chain: seq<Node<K, V>>,
                          ghost es: seq<Entry<K, V>>, ghost i: nat, ghost link: map<nat, Node<K, V>>,
                          ghost nodes: set<Node<K, V>>, ghost p: nat)
    requires ChainOk(head, chain, es, i, link, nodes) && p < |es| && e == chain[p + 1]
    modifies chain`prev, chain`next
    ensures ChainOk(head, RemoveAt(chain, p + 1), RemoveAt(es, p), i, link, nodes)
  {
    DeleteDlistElement(e, chain, p + 1);
    forall j {:trigger chain[j]} | 0 <= j < |chain|
      ensures chain[j].home == i && chain[j] in nodes && (j >= 1 ==> chain[j].data == Item(es[j - 1])) &&
              (j == 0 ==> chain[j].data == Link(link[i]))
    {
      assert chain[j] in chain && old(chain[j].home) == i;
    }
    assert Linked(RemoveAt(chain, p + 1)) && chain != [] && head == chain[0] && i in link;
    hide *;
    ShrunkChain(head, chain, es, i, link, nodes, p);
  }

  /** The chain without the node of its p-th entry. */
  lemma ShrunkChain<K, V>(head: Node<K, V>, chain: seq<Node<K, V>>, es: seq<Entry<K, V>>, i: nat,
                          link: map<nat, Node<K, V>>, nodes: set<Node<K, V>>, p: nat)
    requires chain != [] && head == chain[0] && |chain| == |es| + 1 && i in link && p < |es|
    requires Linked(RemoveAt(chain, p + 1))
    requires forall j {:trigger chain[j]} :: 0 <= j < |chain| ==>
               chain[j].home == i && chain[j] in nodes && (j >= 1 ==> chain[j].data == Item(es[j - 1])) &&
               (j == 0 ==> chain[j].data == Link(link[i]))
    ensures ChainOk(head, RemoveAt(chain, p + 1), RemoveAt(es, p), i, link, nodes)
  {
    var fewer, rest := RemoveAt(chain, p + 1), RemoveAt(es, p);
    assert fewer[0] == chain[0] && |fewer| == |rest| + 1;
    forall j {:trigger fewer[j]} | 1 <= j < |fewer| ensures fewer[j].data == Item(rest[j - 1]) {
      var y := if j <= p then j else j + 1;
      assert fewer[j] == chain[y] && rest[j - 1] == es[y - 1];
    }
    forall x | x in fewer ensures x.home == i && x in nodes {
      var j :| 0 <= j < |fewer| && fewer[j] == x;
      assert x == chain[if j <= p then j else j + 1];
    }
    assert ChainOk(head, fewer, rest, i, link, nodes);
  }

  /** The picture with the p-th entry of bucket i unlinked. */
  ghost function Unlinked<K, V>(s: Picture<K, V>, i: nat, p: nat): (r: Picture<K, V>)
    requires i < |s.t.buckets| && i < |s.chains| && p < |s.t.buckets[i]| && p + 1 < |s.chains[i]|
    ensures r.t.order == s.t.order && r.index == s.index && r.link == s.link && r.nodes == s.nodes
    ensures |r.t.buckets| == |s.t.buckets| && |r.chains| == |s.chains|
  {
    s.(t := s.t.(buckets := s.t.buckets[i := RemoveAt(s.t.buckets[i], p)]),
       chains := s.chains[i := RemoveAt(s.chains[i], p + 1)])
  }

  /** Takes one entry out of its chain; an emptied bucket keeps its bare sentinel. */
  method UnlinkEntry<K, V>(e: Node<K, V>, ghost heads: seq<Node?<K, V>>, ghost first: Node<K, V>,
                           ghost s: Picture<K, V>, ghost i: nat, ghost p: nat)
    returns (ghost s': Picture<K, V>)
    requires Shape(heads, first, s) && i < |heads| && p < |s.t.buckets[i]| && e == s.chains[i][p + 1]
    modifies s.chains[i]`prev, s.chains[i]`next
    ensures Shape(heads, first, s') && s' == Unlinked(s, i, p)
  {
    ghost var chain, es := RemoveAt(s.chains[i], p + 1), RemoveAt(s.t.buckets[i], p);
    assert ChainOk(heads[i], s.chains[i], s.t.buckets[i], i, s.link, s.nodes);
    UnlinkFrom(heads[i], e, s.chains[i], s.t.buckets[i], i, s.link, s.nodes, p);
    IndexKept(View(heads, first, s, i));
    OthersKept(View(heads, first, s, i));
    ReplaceChain(heads, s, i, heads[i], chain, es, s.link, s.nodes);
    assert heads[i := heads[i]] == heads;
    s' := s.(t := s.t.(buckets := s.t.buckets[i := es]), chains := s.chains[i := chain]);
  }

  /** The part of IndexOk that the heap has no say in. */
  ghost predicate Listed<K, V>(index: seq<Node<K, V>>, order: seq<nat>, link: map<nat, Node<K, V>>,
                               nodes: set<Node<K, V>>) {
    && |index| == |order| + 1
    && (forall a {:trigger index[a]} :: 1 <= a < |index| ==>
          index[a] in nodes && order[a - 1] in link && link[order[a - 1]] == index[a])
  }

  lemma IndexListed<K, V>(first: Node<K, V>, index: seq<Node<K, V>>, order: seq<nat>, link: map<nat, Node<K, V>>,
                          nodes: set<Node<K, V>>)
    requires IndexOk(first, index, order, link, nodes)
    ensures Listed(index, order, link, nodes) && index[0] == first && first in nodes && first.home == -1
  {
    assert index[0] in index;
    forall a {:trigger index[a]} | 1 <= a < |index|
      ensures index[a] in nodes && order[a - 1] in link && link[order[a - 1]] == index[a]
    {
      assert index[a] in index && Lists(index[a], order[a - 1], link);
    }
  }

  /** The index without its a-th bucket. */
  lemma ShrunkIndex<K, V>(first: Node<K, V>, index: seq<Node<K, V>>, order: seq<nat>, link: map<nat, Node<K, V>>,
                          nodes: set<Node<K, V>>, a: nat)
    requires a < |order| && Listed(index, order, link, nodes) && index[0] == first && first in nodes && first.home == -1
    requires Linked(RemoveAt(index, a + 1))
    requires forall x {:trigger index[x]} :: 1 <= x < |index| ==>
               index[x].data == Bucket(order[x - 1]) && index[x].home == -1
    ensures IndexOk(first, RemoveAt(index, a + 1), RemoveAt(order, a), link, nodes)
  {
    var fewer, rest := RemoveAt(index, a + 1), RemoveAt(order, a);
    forall x {:trigger fewer[x]} | 1 <= x < |fewer|
      ensures Lists(fewer[x], rest[x - 1], link) && fewer[x].home == -1 && fewer[x] in nodes
    {
      var y := if x <= a then x else x + 1;
      assert fewer[x] == index[y] && rest[x - 1] == order[y - 1];
    }
    forall x | x in fewer ensures x.home == -1 && x in nodes {
      var y :| 0 <= y < |fewer| && fewer[y] == x;
    }
    assert Linked(fewer) && fewer[0] == first && |fewer| == |rest| + 1;
    assert IndexOk(first, fewer, rest, link, nodes);
  }

  method UnlinkListing<K, V>(n: Node<K, V>, ghost first: Node<K, V>, ghost index: seq<Node<K, V>>,
                             ghost order: seq<nat>, ghost link: map<nat, Node<K, V>>, ghost nodes: set<Node<K, V>>,
                             ghost a: nat)
    requires IndexOk(first, index, order, link, nodes) && a < |order| && n == index[a + 1]
    modifies index`prev, index`next
    ensures IndexOk(first, RemoveAt(index, a + 1), RemoveAt(order, a), link, nodes)
  {
    IndexListed(first, index, order, link, nodes);
    DeleteDlistElement(n, index, a + 1);
    forall x {:trigger index[x]} | 1 <= x < |index|
      ensures index[x].data == Bucket(order[x - 1]) && index[x].home == -1
    {
      assert old(index[x].data) == Bucket(order[x - 1]) && old(index[x].home) == -1 && index[x] in index;
    }
    assert Linked(RemoveAt(index, a + 1));
    hide *;
    ShrunkIndex(first, index, order, link, nodes, a);
  }

  method UnlinkIndexNode<K, V>(n: Node<K, V>, ghost heads: seq<Node?<K, V>>, ghost first: Node<K, V>,
                               ghost s: Picture<K, V>, ghost a: nat)
    returns (ghost s': Picture<K, V>)
    requires Shape(heads, first, s) && a < |s.t.order| && n == s.index[a + 1]
    modifies s.index`prev, s.index`next
    ensures Shape(heads, first, s')
    ensures s' == s.(t := s.t.(order := RemoveAt(s.t.order, a)), index := RemoveAt(s.index, a + 1))
  {
    UnlinkListing(n, first, s.index, s.t.order, s.link, s.nodes, a);
    forall j | 0 <= j < |heads| ensures ChainOk(heads[j], s.chains[j], s.t.buckets[j], j, s.link, s.nodes) {
      assert old(ChainOk(heads[j], s.chains[j], s.t.buckets[j], j, s.link, s.nodes));
    }
    s' := s.(t := s.t.(order := RemoveAt(s.t.order, a)), index := RemoveAt(s.index, a + 1));
  }

  /** delete_bucket: the index node goes, then the sentinel. */
  method DeleteBucket<K, V>(buckets: array<Node?<K, V>>, i: nat, ghost first: Node<K, V>,
                            ghost s: Picture<K, V>, ghost a: nat)
    returns (ghost s': Picture<K, V>)
    requires Shape(buckets[..], first, s) && i < buckets.Length && buckets[i] != null
    requires a < |s.t.order| && s.t.order[a] == i
    modifies buckets, s.chains[i]`data, s.index`prev, s.index`next
    ensures Shape(buckets[..], first, s') && buckets[..] == old(buckets[..])[i := null]
    ensures s' == s.(t := Table(s.t.buckets[i := []], RemoveAt(s.t.order, a)),
                     chains := s.chains[i := []], index := RemoveAt(s.index, a + 1))
  {
    hide *;
    ghost var heads := buckets[..];
    s' := DropListing(buckets[i], i, heads, first, s, a);
    s' := s'.(t := s'.t.(buckets := s'.t.buckets[i := []]), chains := s'.chains[i := []]);
    buckets[i] := null;
    assert buckets[..] == heads[i := null];
  }

  /** The bucket's index node goes; what is left has the shape of a table without the bucket. */
  method DropListing<K, V>(sentinel: Node<K, V>, i: nat, ghost heads: seq<Node?<K, V>>, ghost first: Node<K, V>,
                           ghost s: Picture<K, V>, ghost a: nat)
    returns (ghost s': Picture<K, V>)
    requires Shape(heads, first, s) && i < |heads| && heads[i] == sentinel && a < |s.t.order| && s.t.order[a] == i
    modifies s.chains[i]`data, s.index`prev, s.index`next
    ensures i < |s.t.buckets| && i < |s.chains| && a + 1 < |s.index|
    ensures s' == s.(t := s.t.(order := RemoveAt(s.t.order, a)), index := RemoveAt(s.index, a + 1))
    ensures Shape(heads[i := null], first,
                  s'.(t := s'.t.(buckets := s'.t.buckets[i := []]), chains := s'.chains[i := []]))
  {
    s' := s;
    assert ChainOk(heads[i], s.chains[i], s.t.buckets[i], i, s.link, s.nodes);
    assert s.index[a + 1].data == Bucket(i);
    if sentinel.data != Nil {
      s' := UnlinkIndexNode(sentinel.data.node, heads, first, s, a);
      label unlinked:
      sentinel.data := Nil;
      IndexKept@unlinked(View(heads, first, s', i));
      OthersKept@unlinked(View(heads, first, s', i));
    }
    hide Lists, Linked, RemoveAt;
    ReplaceChain(heads, s', i, null, [], [], s'.link, s'.nodes);
  }

  /** A node behind the first of a list; the data and homes of the others stay. */
  method InsertSecond<K, V>(first: Node<K, V>, data: Data<K, V>, ghost home: int, ghost s: seq<Node<K, V>>)
    returns (n: Node<K, V>)
    requires Linked(s) && s != [] && s[0] == first
    modifies s`prev, s`next
    ensures fresh(n) && n.data == data && n.home == home && Linked([first, n] + s[1..])
    ensures forall x :: x in s ==> x.data == old(x.data) && x.home == old(x.home)
  {
    n := InsertAfterDlist(first, data, s, 0);
    n.home := home;
    assert s[..1] + [n] + s[1..] == [first, n] + s[1..];
  }

  method LinkEntry<K, V>(head: Node<K, V>, e: Entry<K, V>, ghost chain: seq<Node<K, V>>, ghost es: seq<Entry<K, V>>,
                         ghost i: nat, ghost link: map<nat, Node<K, V>>, ghost nodes: set<Node<K, V>>)
    returns (n: Node<K, V>)
    requires ChainOk(head, chain, es, i, link, nodes)
    modifies chain`prev, chain`next
    ensures fresh(n)
    ensures ChainOk(head, [head, n] + chain[1..], [e] + es, i, link, nodes + {n})
  {
    n := InsertSecond(head, Item(e), i, chain);
    forall j {:trigger chain[j]} | 0 <= j < |chain|
      ensures chain[j].home == i && chain[j] in nodes && (j >= 1 ==> chain[j].data == Item(es[j - 1])) &&
              (j == 0 ==> chain[j].data == Link(link[i]))
    {
      assert chain[j] in chain && old(chain[j].home) == i;
    }
    GrownChain(head, n, e, chain, es, i, link, nodes);
  }

  /** The chain with a node for e put behind its sentinel. */
  lemma GrownChain<K, V>(head: Node<K, V>, n: Node<K, V>, e: Entry<K, V>, chain: seq<Node<K, V>>, es: seq<Entry<K, V>>,
                         i: nat, link: map<nat, Node<K, V>>, nodes: set<Node<K, V>>)
    requires chain != [] && head == chain[0] && |chain| == |es| + 1 && i in link
    requires n.data == Item(e) && n.home == i && Linked([head, n] + chain[1..])
    requires forall j {:trigger chain[j]} :: 0 <= j < |chain| ==>
               chain[j].home == i && chain[j] in nodes && (j >= 1 ==> chain[j].data == Item(es[j - 1])) &&
               (j == 0 ==> chain[j].data == Link(link[i]))
    ensures ChainOk(head, [head, n] + chain[1..], [e] + es, i, link, nodes + {n})
  {
    var grown, more := [head, n] + chain[1..], [e] + es;
    assert grown[0] == chain[0];
    forall j {:trigger grown[j]} | 1 <= j < |grown| ensures grown[j].data == Item(more[j - 1]) {
      if j > 1 {
        assert grown[j] == chain[j - 1] && more[j - 1] == es[j - 2];
      }
    }
    forall x | x in grown ensures x.home == i && x in nodes + {n} {
      var j :| 0 <= j < |grown| && grown[j] == x;
      if j > 1 {
        assert grown[j] == chain[j - 1];
      }
    }
    assert ChainOk(head, grown, more, i, link, nodes + {n});
  }

  method LinkBucket<K, V>(first: Node<K, V>, i: nat, ghost index: seq<Node<K, V>>, ghost order: seq<nat>,
                          ghost link: map<nat, Node<K, V>>, ghost nodes: set<Node<K, V>>)
    returns (n: Node<K, V>)
    requires IndexOk(first, index, order, link, nodes) && i !in order
    modifies index`prev, index`next
    ensures fresh(n)
    ensures IndexOk(first, [first, n] + index[1..], [i] + order, link[i := n], nodes + {n})
  {
    hide *;
    IndexListed(first, index, order, link, nodes);
    IndexData(first, index, order, link, nodes);
    n := InsertSecond(first, Bucket(i), -1, index);
    GrownIndex(first, n, i, index, order, link, nodes);
  }

  lemma IndexData<K, V>(first: Node<K, V>, index: seq<Node<K, V>>, order: seq<nat>, link: map<nat, Node<K, V>>,
                        nodes: set<Node<K, V>>)
    requires IndexOk(first, index, order, link, nodes)
    ensures Linked(index) && |index| == |order| + 1
    ensures forall a {:trigger index[a]} :: 1 <= a < |index| ==>
              index[a].data == Bucket(order[a - 1]) && index[a].home == -1
  {
    forall a {:trigger index[a]} | 1 <= a < |index|
      ensures index[a].data == Bucket(order[a - 1]) && index[a].home == -1
    {
      assert index[a] in index && Lists(index[a], order[a - 1], link);
    }
  }

  /** The index with a node for bucket i put behind its sentinel. */
  lemma GrownIndex<K, V>(first: Node<K, V>, n: Node<K, V>, i: nat, index: seq<Node<K, V>>, order: seq<nat>,
                         link: map<nat, Node<K, V>>, nodes: set<Node<K, V>>)
    requires i !in order && |index| == |order| + 1 && index[0] == first
    requires n.data == Bucket(i) && n.home == -1 && first.home == -1 && first in nodes
    requires Linked([first, n] + index[1..])
    requires Listed(index, order, link, nodes)
    requires forall a {:trigger index[a]} :: 1 <= a < |index| ==>
               index[a].data == Bucket(order[a - 1]) && index[a].home == -1
    ensures IndexOk(first, [first, n] + index[1..], [i] + order, link[i := n], nodes + {n})
  {
    var grown, order', link' := [first, n] + index[1..], [i] + order, link[i := n];
    forall a {:trigger grown[a]} | 1 <= a < |grown|
      ensures Lists(grown[a], order'[a - 1], link')
    {
      if a == 1 {
        assert grown[a] == n && order'[0] == i;
      } else {
        assert grown[a] == index[a - 1] && order'[a - 1] == order[a - 2] && order[a - 2] in order;
      }
    }
    forall x | x in grown ensures x.home == -1 && x in nodes + {n} {
      var a :| 0 <= a < |grown| && grown[a] == x;
      if a > 1 {
        assert grown[a] == index[a - 1];
      }
    }
    assert Linked(grown) && |grown| == |order'| + 1 && grown[0] == first;
    assert IndexOk(first, grown, order', link', nodes + {n});
  }

  method IndexBucket<K, V>(i: nat, first: Node<K, V>, ghost heads: seq<Node?<K, V>>, ghost s: Picture<K, V>)
    returns (n: Node<K, V>, ghost s': Picture<K, V>)
    requires Shape(heads, first, s) && i < |heads| && heads[i] == null && i !in s.t.order
    modifies s.index`prev, s.index`next
    ensures Shape(heads, first, s') && fresh(n)
    ensures s' == Picture(s.t.(order := [i] + s.t.order), [first, n] + s.index[1..], s.chains,
                          s.link[i := n], s.nodes + {n})
  {
    n := LinkBucket(first, i, s.index, s.t.order, s.link, s.nodes);
    s' := Picture(s.t.(order := [i] + s.t.order), [first, n] + s.index[1..], s.chains, s.link[i := n], s.nodes + {n});
    forall j | 0 <= j < |heads| ensures ChainOk(heads[j], s.chains[j], s.t.buckets[j], j, s'.link, s'.nodes) {
      assert old(ChainOk(heads[j], s.chains[j], s.t.buckets[j], j, s.link, s.nodes));
    }
  }

  method BareSentinel<K, V>(n: Node<K, V>, ghost i: nat, ghost link: map<nat, Node<K, V>>, ghost nodes: set<Node<K, V>>)
    returns (sentinel: Node<K, V>)
    requires i in link && link[i] == n
    ensures fresh(sentinel) && ChainOk(sentinel, [sentinel], [], i, link, nodes + {sentinel})
  {
    sentinel := CreateDlist(Nil);
    sentinel.data := Link(n);
    sentinel.home := i;
  }

  lemma IndexWiden<K, V>(first: Node<K, V>, index: seq<Node<K, V>>, order: seq<nat>, link: map<nat, Node<K, V>>,
                         nodes: set<Node<K, V>>, more: set<Node<K, V>>)
    requires IndexOk(first, index, order, link, nodes) && nodes <= more
    ensures IndexOk(first, index, order, link, more)
  {
    forall a {:trigger index[a]} | 1 <= a < |index|
      ensures Lists(index[a], order[a - 1], link)
    {
    }
    forall x | x in index ensures x.home == -1 && x in more {
      assert x in nodes;
    }
    assert Linked(index) && |index| == |order| + 1 && index[0] == first;
  }

  /** new_bucket: a bare sentinel, pointing at a new first node of the index. */
  method NewBucket<K, V>(buckets: array<Node?<K, V>>, i: nat, first: Node<K, V>, ghost s: Picture<K, V>)
    returns (ghost s': Picture<K, V>)
    requires Shape(buckets[..], first, s) && i < buckets.Length && buckets[i] == null && i !in s.t.order
    modifies buckets, s.index`prev, s.index`next
    ensures Shape(buckets[..], first, s') && buckets[i] != null && buckets[..] == old(buckets[..])[i := buckets[i]]
    ensures s'.t == s.t.(order := [i] + s.t.order) && s'.chains == s.chains[i := [buckets[i]]]
    ensures s.nodes <= s'.nodes && fresh(s'.nodes - s.nodes)
  {
    ghost var heads := buckets[..];
    assert ChainOk(heads[i], s.chains[i], s.t.buckets[i], i, s.link, s.nodes);
    assert s.t.buckets[i := []] == s.t.buckets;
    var n;
    n, s' := IndexBucket(i, first, heads, s);
    hide ChainOk, IndexOk;
    var sentinel := BareSentinel(n, i, s'.link, s'.nodes);
    ReplaceChain(heads, s', i, sentinel, [sentinel], [], s'.link, s'.nodes + {sentinel});
    IndexWiden(first, s'.index, s'.t.order, s'.link, s'.nodes, s'.nodes + {sentinel});
    s' := s'.(chains := s.chains[i := [sentinel]], nodes := s'.nodes + {sentinel});
    assert Shape(heads[i := sentinel], first, s');
    hide *;
    buckets[i] := sentinel;
    assert buckets[..] == heads[i := sentinel];
  }

  /** The new entry right after the sentinel. */
  method PrependEntry<K, V>(head: Node<K, V>, e: Entry<K, V>, ghost heads: seq<Node?<K, V>>, ghost first: Node<K, V>,
                            ghost s: Picture<K, V>, ghost i: nat)
    returns (ghost s': Picture<K, V>)
    requires Shape(heads, first, s) && i < |heads| && heads[i] == head
    modifies s.chains[i]`prev, s.chains[i]`next
    ensures Shape(heads, first, s')
    ensures s'.t == s.t.(buckets := s.t.buckets[i := [e] + s.t.buckets[i]])
    ensures |s'.chains[i]| == |s.chains[i]| + 1 && s'.chains == s.chains[i := s'.chains[i]]
    ensures s.nodes <= s'.nodes && fresh(s'.nodes - s.nodes)
  {
    assert ChainOk(head, s.chains[i], s.t.buckets[i], i, s.link, s.nodes);
    var n := LinkEntry(head, e, s.chains[i], s.t.buckets[i], i, s.link, s.nodes);
    IndexKept(View(heads, first, s, i));
    OthersKept(View(heads, first, s, i));
    ghost var chain, es := [head, n] + s.chains[i][1..], [e] + s.t.buckets[i];
    ReplaceChain(heads, s, i, head, chain, es, s.link, s.nodes + {n});
    assert heads[i := head] == heads;
    s' := s.(t := s.t.(buckets := s.t.buckets[i := es]), chains := s.chains[i := chain], nodes := s.nodes + {n});
  }

  /** The chain walk that insert, lookup and delete share. */
  method Search<K, V>(c: Config<K>, head: Node<K, V>, key: K, ghost chain: seq<Node<K, V>>, ghost es: seq<Entry<K, V>>,
                      ghost i: nat, ghost link: map<nat, Node<K, V>>, ghost nodes: set<Node<K, V>>)
    returns (e: Node?<K, V>, ghost p: nat)
    requires ChainOk(head, chain, es, i, link, nodes)
    ensures p == Position(c, es, key)
    ensures e == if p < |es| then chain[p + 1] else null
    ensures e != null ==> e.data == Item(es[p])
  {
    e, p := head.next, 0;
    while e != null
      invariant p <= |es|
      invariant e == if p < |es| then chain[p + 1] else null
      invariant forall j :: 0 <= j < p ==> !c.compare(key, es[j].key)
      decreases |es| - p
    {
      assert e.data == Item(es[p]);
      if c.compare(key, e.data.entry.key) {
        return;
      }
      e, p := e.next, p + 1;
    }
  }

  function Without<T>(s: seq<T>, p: nat): seq<T> {
    if p < |s| then RemoveAt(s, p) else s
  }

  /** What deleting k leaves: the contents and, node by node, the chains and the index. */
  ghost function AfterDelete<K, V>(c: Config<K>, s: Picture<K, V>, k: K): Picture<K, V>
    requires Sized(c, s.t) && |s.chains| == c.size
  {
    var i := Slot(c, k);
    if !Present(c, s.t, k) then s
    else if |s.t.buckets[i]| == 1 then
      s.(t := Delete(c, s.t, k), chains := s.chains[i := []], index := Without(s.index, IndexOf(s.t.order, i) + 1))
    else
      s.(t := Delete(c, s.t, k),
         chains := s.chains[i := Without(s.chains[i], Position(c, s.t.buckets[i], k) + 1)])
  }

  /** A live bucket holds at least one entry besides its sentinel. */
  ghost predicate Heights<K, V>(s: Picture<K, V>) {
    && |s.chains| == |s.t.buckets|
    && (forall i :: 0 <= i < |s.chains| ==>
          |s.chains[i]| == if s.t.buckets[i] == [] then 0 else |s.t.buckets[i]| + 1)
  }

  lemma AfterDeleteKeeps<K, V>(c: Config<K>, s: Picture<K, V>, k: K)
    requires Inv(c, s.t) && Heights(s)
    ensures Inv(c, Delete(c, s.t, k)) && Heights(AfterDelete(c, s, k)) && AfterDelete(c, s, k).t == Delete(c, s.t, k)
    ensures |Contents(Delete(c, s.t, k))| == |Contents(s.t)| - if Present(c, s.t, k) then 1 else 0
  {
    DeleteInv(c, s.t, k);
    if Present(c, s.t, k) {
      DeleteContents(c, s.t, k);
    }
  }

  /** The picture with bucket i, a-th of the index, deleted if it holds no entry. */
  ghost function Tidied<K, V>(s: Picture<K, V>, i: nat, a: nat): Picture<K, V>
    requires i < |s.t.buckets| && i < |s.chains| && a < |s.t.order| && a + 1 < |s.index|
  {
    if s.t.buckets[i] != [] then s
    else s.(t := s.t.(order := RemoveAt(s.t.order, a)), chains := s.chains[i := []], index := RemoveAt(s.index, a + 1))
  }

  method DeleteIfBare<K, V>(buckets: array<Node?<K, V>>, i: nat, ghost first: Node<K, V>,
                            ghost s: Picture<K, V>, ghost a: nat)
    returns (ghost s': Picture<K, V>)
    requires Shape(buckets[..], first, s) && i < buckets.Length && buckets[i] != null
    requires a < |s.t.order| && s.t.order[a] == i
    modifies buckets, s.chains[i]`data, s.index`prev, s.index`next
    ensures Shape(buckets[..], first, s') && s' == Tidied(s, i, a)
  {
    s' := s;
    assert ChainOk(buckets[..][i], s.chains[i], s.t.buckets[i], i, s.link, s.nodes);
    if buckets[i].next == null {
      s' := DeleteBucket(buckets, i, first, s, a);
      assert s.t.buckets[i := []] == s.t.buckets;
    }
  }

  /** What the shape says of bucket i. */
  lemma ShapeAt<K, V>(heads: seq<Node?<K, V>>, first: Node<K, V>, s: Picture<K, V>, i: nat)
    requires Shape(heads, first, s) && i < |heads|
    ensures |heads| == |s.chains| == |s.t.buckets| && |s.index| == |s.t.order| + 1
    ensures ChainOk(heads[i], s.chains[i], s.t.buckets[i], i, s.link, s.nodes)
    ensures heads[i] == null ==> s.t.buckets[i] == []
    ensures heads[i] != null ==> |s.chains[i]| == |s.t.buckets[i]| + 1
    ensures forall x :: x in s.chains[i] || x in s.index ==> x in s.nodes
  {
    assert ChainOk(heads[i], s.chains[i], s.t.buckets[i], i, s.link, s.nodes);
  }

  /** Without an equal key nothing changes. */
  lemma DeletesNothing<K, V>(c: Config<K>, s: Picture<K, V>, key: K, i: nat, a: nat)
    requires Sized(c, s.t) && |s.chains| == c.size && i == Slot(c, key)
    requires Position(c, s.t.buckets[i], key) == |s.t.buckets[i]|
    ensures AfterDelete(c, s, key) == s && !Present(c, s.t, key) && Lookup(c, s.t, key) == Null
    ensures s.t.buckets[i] != [] && a < |s.t.order| && a + 1 < |s.index| ==> Tidied(s, i, a) == s
  {
  }

  /** With one, its entry is unlinked, and the bucket deleted if that was the last. */
  lemma DeletesEntry<K, V>(c: Config<K>, s: Picture<K, V>, key: K, i: nat, p: nat, a: nat)
    requires Sized(c, s.t) && |s.chains| == c.size && i == Slot(c, key) && i in s.t.order && a == IndexOf(s.t.order, i)
    requires p == Position(c, s.t.buckets[i], key) < |s.t.buckets[i]| && |s.chains[i]| == |s.t.buckets[i]| + 1
    requires |s.index| == |s.t.order| + 1
    ensures Present(c, s.t, key) && Lookup(c, s.t, key) == s.t.buckets[i][p].value
    ensures Tidied(Unlinked(s, i, p), i, a) == AfterDelete(c, s, key)
  {
  }

  /** The body of delete_hash_entry. */
  method DeleteWithin<K, V>(c: Config<K>, buckets: array<Node?<K, V>>, i: nat, key: K,
                            ghost first: Node<K, V>, ghost s: Picture<K, V>)
    returns (removed: bool, deleted: Ptr<V>, ghost s': Picture<K, V>)
    requires Sized(c, s.t) && Shape(buckets[..], first, s) && i == Slot(c, key)
    requires |s.chains[i]| != 1 && (s.chains[i] != [] ==> i in s.t.order)
    modifies buckets, s.nodes
    ensures s' == AfterDelete(c, s, key) && Shape(buckets[..], first, s')
    ensures removed == Present(c, s.t, key) && deleted == Lookup(c, s.t, key)
  {
    assert c.size == buckets.Length && i < c.size;
    hide *;
    ghost var heads := buckets[..];
    ShapeAt(heads, first, s, i);
    removed, deleted, s' := false, Null, s;
    if buckets[i] == null {
      NoPosition(c, s.t.buckets[i], key);
      DeletesNothing(c, s, key, i, 0);
      return;
    }
    ghost var a := IndexOf(s.t.order, i);
    var e, p := Search(c, buckets[i], key, s.chains[i], s.t.buckets[i], i, s.link, s.nodes);
    if e != null {
      DeletesEntry(c, s, key, i, p, a);
      removed, deleted := true, e.data.entry.value;
      s' := UnlinkEntry(e, heads, first, s, i, p);
      ShapeAt(heads, first, s', i);
    } else {
      DeletesNothing(c, s, key, i, a);
    }
    s' := DeleteIfBare(buckets, i, first, s', a);
  }

  lemma NoPosition<K, V>(c: Config<K>, es: seq<Entry<K, V>>, key: K)
    requires es == []
    ensures Position(c, es, key) == |es|
  {
  }

  /** The tail of insert_hash_entry: make the bucket if it is gone, then put the entry in front. */
  method PrependWithin<K, V>(c: Config<K>, buckets: array<Node?<K, V>>, i: nat, e: Entry<K, V>,
                             first: Node<K, V>, ghost s: Picture<K, V>)
    returns (ghost s': Picture<K, V>)
    requires Sized(c, s.t) && Shape(buckets[..], first, s) && i == Slot(c, e.key)
    requires Heights(s) && IndexInv(s.t)
    modifies buckets, s.nodes
    ensures Shape(buckets[..], first, s') && Heights(s') && s'.t == Prepend(c, s.t, e.key, e.value)
    ensures s.nodes <= s'.nodes && fresh(s'.nodes - s.nodes)
  {
    s' := s;
    assert ChainOk(buckets[..][i], s.chains[i], s.t.buckets[i], i, s.link, s.nodes);
    if buckets[i] == null {
      s' := NewBucket(buckets, i, first, s);
    }
    s' := PrependEntry(buckets[i], e, buckets[..], first, s', i);
  }

  lemma PrependKeeps<K(!new), V>(c: Config<K>, t: Table<K, V>, k: K, v: Ptr<V>)
    requires Lawful(c) && Inv(c, t) && !Present(c, t, k)
    ensures Inv(c, Prepend(c, t, k, v)) && |Contents(Prepend(c, t, k, v))| == |Contents(t)| + 1
  {
    PrependInv(c, t, k, v);
    PrependContents(c, t, k, v);
  }

  /** What a table's picture must be like, whatever the heap holds. */
  ghost predicate Fit<K(!new), V>(c: Config<K>, s: Picture<K, V>, length: int) {
    Lawful(c) && Inv(c, s.t) && Heights(s) && length == |Contents(s.t)|
  }

  lemma DeleteFits<K(!new), V>(c: Config<K>, s: Picture<K, V>, k: K, length: int)
    requires Fit(c, s, length)
    ensures Fit(c, AfterDelete(c, s, k), length - if Present(c, s.t, k) then 1 else 0)
    ensures AfterDelete(c, s, k).t == Delete(c, s.t, k)
  {
    AfterDeleteKeeps(c, s, k);
  }

  lemma PrependFits<K(!new), V>(c: Config<K>, s: Picture<K, V>, k: K, v: Ptr<V>, s': Picture<K, V>, length: int)
    requires Fit(c, s, length) && !Present(c, s.t, k) && s'.t == Prepend(c, s.t, k, v) && Heights(s')
    ensures Fit(c, s', length + 1)
  {
    PrependKeeps(c, s.t, k, v);
  }

  /** What deleting a key does and what looking it up gives, by where the key is in its bucket. */
  lemma Deletes<K, V>(c: Config<K>, t: Table<K, V>, key: K, i: nat)
    requires Sized(c, t) && i == Slot(c, key)
    ensures i < |t.buckets| && Position(c, t.buckets[i], key) <= |t.buckets[i]|
    ensures var p := Position(c, t.buckets[i], key);
            if p < |t.buckets[i]| then Lookup(c, t, key) == t.buckets[i][p].value
            else Delete(c, t, key) == t && Lookup(c, t, key) == Null
  {
  }

  lemma AfterDeleteNodes<K, V>(c: Config<K>, s: Picture<K, V>, key: K)
    requires Sized(c, s.t) && |s.chains| == c.size
    ensures AfterDelete(c, s, key).nodes == s.nodes
  {
  }

  class Hash<K(!new), V> {
    const config: Config<K>
    const buckets: array<Node?<K, V>>
    const nonempty: Node<K, V>
    var length: int
    ghost var s: Picture<K, V>

    ghost predicate Valid()
      reads this, buckets, s.index, s.nodes
    {
      Fit(config, s, length) && Shape(buckets[..], nonempty, s)
    }

    /** create_hash_with_size. */
    constructor (config: Config<K>)
      requires Lawful(config)
      ensures Valid() && fresh(buckets) && fresh(s.nodes)
      ensures this.config == config && s.t == Empty(config)
    {
      this.config := config;
      buckets := new Node?<K, V>[config.size](_ => null);
      nonempty := new Element(Nil);
      length := 0;
      new;
      nonempty.home := -1;
      s := Picture(Empty(config), [nonempty], seq(config.size, _ => []), map[], {nonempty});
      EmptyInv<K, V>(config);
    }

    method LookupHashEntry(key: K) returns (value: Ptr<V>)
      requires Valid()
      ensures value == Lookup(config, s.t, key)
    {
      var i := Slot(config, key);
      value := Null;
      assert ChainOk(buckets[..][i], s.chains[i], s.t.buckets[i], i, s.link, s.nodes);
      if buckets[i] != null {
        var e, p := Search(config, buckets[i], key, s.chains[i], s.t.buckets[i], i, s.link, s.nodes);
        if e != null {
          value := e.data.entry.value;
        }
      }
    }

    /** No node is this object, nor is the array. */
    lemma Apart(x: Picture<K, V>)
      ensures buckets as object != this && forall n :: n in x.nodes || n in x.index ==> n as object != this
    {
    }

    /** delete_hash_entry but for its effect on length. */
    method Remove(key: K) returns (removed: bool, deleted: Ptr<V>, ghost s': Picture<K, V>)
      requires Valid()
      modifies buckets, s.nodes
      ensures s' == AfterDelete(config, s, key) && Shape(buckets[..], nonempty, s')
      ensures Fit(config, s', if removed then length - 1 else length)
      ensures s'.t == Delete(config, s.t, key) && deleted == Lookup(config, s.t, key)
    {
      var i := Slot(config, key);
      assert Fit(config, s, length) && Sized(config, s.t);
      assert |s.chains[i]| != 1 && (s.chains[i] != [] ==> i in s.t.order);
      DeleteFits(config, s, key, length);
      Apart(s);
      hide *;
      removed, deleted, s' := DeleteWithin(config, buckets, i, key, nonempty, s);
    }

    method DeleteHashEntry(key: K) returns (deleted: Ptr<V>)
      requires Valid()
      modifies this, buckets, s.nodes
      ensures Valid() && s == AfterDelete(config, old(s), key)
      ensures s.t == Delete(config, old(s.t), key) && deleted == Lookup(config, old(s.t), key)
    {
      assert Sized(config, s.t);
      Apart(s);
      hide *;
      var removed;
      ghost var s';
      removed, deleted, s' := Remove(key);
      Adopt(s', if removed then length - 1 else length);
    }

    method Adopt(ghost s': Picture<K, V>, n: int)
      requires Shape(buckets[..], nonempty, s') && Fit(config, s', n)
      modifies this
      ensures Valid() && s == s' && length == n
    {
      Apart(s');
      hide Shape, Fit;
      length, s := n, s';
    }

    /** The bucket a key belongs to. */
    method SlotOf(key: K) returns (i: nat)
      requires Valid()
      ensures i == Slot(config, key) < buckets.Length == config.size
      ensures Sized(config, s.t) && Shape(buckets[..], nonempty, s)
    {
      i := Slot(config, key);
    }

    /** The delete inside insert leaves no equal key behind. */
    lemma Cleared(key: K, value: Ptr<V>)
      requires Valid()
      ensures Sized(config, s.t) && Sized(config, Delete(config, s.t, key)) &&
              !Present(config, Delete(config, s.t, key), key)
      ensures Insert(config, s.t, key, value) == Prepend(config, Delete(config, s.t, key), key, value)
    {
      DeleteClears(config, s.t, key);
    }

    /** insert_hash_entry, first half: an entry with an equal key is deleted, its value kept. */
    method DeleteOld(key: K) returns (oldValue: Ptr<V>)
      requires Valid()
      modifies this, buckets, s.nodes
      ensures Valid() && s.nodes == old(s.nodes)
      ensures s.t == Delete(config, old(s.t), key) && oldValue == Lookup(config, old(s.t), key)
    {
      hide *;
      oldValue := Null;
      var i := SlotOf(key);
      ShapeAt(buckets[..], nonempty, s, i);
      Deletes(config, s.t, key, i);
      AfterDeleteNodes(config, s, key);
      if buckets[i] == null {
        NoPosition(config, s.t.buckets[i], key);
      } else {
        var oldElement, p := Search(config, buckets[i], key, s.chains[i], s.t.buckets[i], i, s.link, s.nodes);
        if oldElement != null {
          oldValue := oldElement.data.entry.value;
          var _ := DeleteHashEntry(key);
        }
      }
    }

    /** insert_hash_entry, second half. */
    method AddNew(key: K, value: Ptr<V>)
      requires Valid() && !Present(config, s.t, key)
      modifies this, buckets, s.nodes
      ensures Valid() && fresh(s.nodes - old(s.nodes))
      ensures s.t == Prepend(config, old(s.t), key, value)
    {
      assert Fit(config, s, length) && Heights(s) && IndexInv(s.t) && Sized(config, s.t) && config.size > 0;
      hide Shape, Fit, Sized, Heights, IndexInv, Prepend, Present, Slot;
      ghost var s0 := s;
      ghost var s' := PrependWithin(config, buckets, Slot(config, key), Entry(key, value), nonempty, s);
      PrependFits(config, s0, key, value, s', length);
      Adopt(s', length + 1);
    }

    method InsertHashEntry(key: K, value: Ptr<V>) returns (oldValue: Ptr<V>)
      requires Valid()
      modifies this, buckets, s.nodes
      ensures Valid() && fresh(s.nodes - old(s.nodes))
      ensures s.t == Insert(config, old(s.t), key, value) && oldValue == Lookup(config, old(s.t), key)
    {
      hide *;
      Cleared(key, value);
      oldValue := DeleteOld(key);
      AddNew(key, value);
    }
  }
}
