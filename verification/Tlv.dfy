/**
 Regions made of elements that carry their own length: actions, queue
 properties, packet queues and flow statistics all have this form.
 */
module Tlv {

  import opened Bytes

  /** Where an element keeps its 16-bit length, and how long it is at least. */
  datatype Kind = Kind(at: nat, min: nat)

  const ACTIONS := Kind(2, 8)
  const PROPERTIES := Kind(2, 8)
  const QUEUES := Kind(4, 8)
  const FLOWS := Kind(0, 88)

  predicate Sound(k: Kind) {
    k.at + 2 <= k.min
  }

  function Len(o: Order, k: Kind, b: seq<byte>): u16
    requires Sound(k) && k.min <= |b|
  {
    Get16(o, b, k.at)
  }

  /** A region that is exactly one element. */
  predicate Whole(o: Order, k: Kind, c: seq<byte>) {
    Sound(k) && k.min <= |c| && Len(o, k, c) == |c|
  }

  /** Elements of at least the least length, laid end to end. */
  predicate Tiled(o: Order, k: Kind, b: seq<byte>)
    decreases |b|
  {
    Sound(k) && (b == [] || (k.min <= |b| && k.min <= Len(o, k, b) <= |b| && Tiled(o, k, b[Len(o, k, b)..])))
  }

  function Split(o: Order, k: Kind, b: seq<byte>): (cs: seq<seq<byte>>)
    requires Tiled(o, k, b)
    ensures forall i :: 0 <= i < |cs| ==> Whole(o, k, cs[i])
    ensures cs == [] <==> b == []
    decreases |b|
  {
    if b == [] then [] else [b[..Len(o, k, b)]] + Split(o, k, b[Len(o, k, b)..])
  }

  function Flatten(cs: seq<seq<byte>>): seq<byte> {
    if cs == [] then [] else cs[0] + Flatten(cs[1..])
  }

  predicate AllWhole(o: Order, k: Kind, cs: seq<seq<byte>>) {
    forall i :: 0 <= i < |cs| ==> Whole(o, k, cs[i])
  }

  /** Splitting loses nothing. */
  lemma {:induction false} FlattenSplit(o: Order, k: Kind, b: seq<byte>)
    requires Tiled(o, k, b)
    ensures Flatten(Split(o, k, b)) == b
    decreases |b|
  {
    if b != [] {
      FlattenSplit(o, k, b[Len(o, k, b)..]);
    }
  }

  lemma FirstLen(o: Order, k: Kind, c: seq<byte>, rest: seq<byte>)
    requires Whole(o, k, c)
    ensures Len(o, k, c + rest) == |c| && (c + rest)[..|c|] == c && (c + rest)[|c|..] == rest
  {
  }

  /** Laying whole elements end to end tiles, and splitting finds the same elements again. */
  lemma {:induction false} SplitFlatten(o: Order, k: Kind, cs: seq<seq<byte>>)
    requires Sound(k) && AllWhole(o, k, cs)
    ensures Tiled(o, k, Flatten(cs)) && Split(o, k, Flatten(cs)) == cs
  {
    if cs != [] {
      SplitFlatten(o, k, cs[1..]);
      FirstLen(o, k, cs[0], Flatten(cs[1..]));
    }
  }

  lemma {:induction false} FlattenAppend(cs: seq<seq<byte>>, c: seq<byte>)
    ensures Flatten(cs + [c]) == Flatten(cs) + c
  {
    if cs == [] {
      assert Flatten([c]) == c;
    } else {
      assert (cs + [c])[1..] == cs[1..] + [c];
      FlattenAppend(cs[1..], c);
    }
  }

  /** From one element boundary to the next. */
  lemma NextElement(o: Order, k: Kind, b: seq<byte>, at: nat)
    requires at < |b| && Tiled(o, k, b[at..])
    ensures k.min <= |b| - at && var n := Len(o, k, b[at..]);
            && k.min <= n && at + n <= |b| && Tiled(o, k, b[at + n..])
            && b[at..][..n] == b[at..at + n]
            && Split(o, k, b[at..]) == [b[at..at + n]] + Split(o, k, b[at + n..])
  {
    var n := Len(o, k, b[at..]);
    assert b[at..][n..] == b[at + n..];
  }

  /** A walk over the elements cs of the region b has come to `at`; n elements are behind. */
  ghost predicate Standing(o: Order, k: Kind, b: seq<byte>, at: nat, cs: seq<seq<byte>>, n: nat) {
    at <= |b| && n <= |cs| && Tiled(o, k, b[at..]) && cs[n..] == Split(o, k, b[at..])
  }

  lemma StandingStart(o: Order, k: Kind, b: seq<byte>)
    requires Tiled(o, k, b)
    ensures Standing(o, k, b, 0, Split(o, k, b), 0)
  {
    assert b[0..] == b;
  }

  lemma StandingEnd(o: Order, k: Kind, b: seq<byte>, at: nat, cs: seq<seq<byte>>, n: nat)
    requires Standing(o, k, b, at, cs, n)
    ensures at <= |b| && n <= |cs| && (at == |b| <==> n == |cs|)
  {
    assert |cs[n..]| == |cs| - n && |b[at..]| == |b| - at;
  }

  lemma StandingTiled(o: Order, k: Kind, b: seq<byte>, at: nat, cs: seq<seq<byte>>, n: nat)
    requires Standing(o, k, b, at, cs, n)
    ensures at <= |b| && n <= |cs| && Tiled(o, k, b[at..]) && cs[n..] == Split(o, k, b[at..])
  {
  }

  lemma StandingAt(o: Order, k: Kind, b: seq<byte>, at: nat, cs: seq<seq<byte>>, n: nat)
    requires at <= |b| && n <= |cs| && Tiled(o, k, b[at..]) && cs[n..] == Split(o, k, b[at..])
    ensures Standing(o, k, b, at, cs, n)
  {
  }

  /** The length of the element at `at`, read in place. */
  lemma LenAt(o: Order, k: Kind, b: seq<byte>, at: nat)
    requires Sound(k) && at + k.min <= |b|
    ensures k.at + 2 <= k.min && Len(o, k, b[at..]) == Get16(o, b, at + k.at)
  {
  }

  lemma TiledSound(o: Order, k: Kind, b: seq<byte>)
    requires Tiled(o, k, b)
    ensures Sound(k)
  {
  }

  lemma Tail<T>(cs: seq<T>, n: nat, c: T, rest: seq<T>)
    requires n <= |cs| && cs[n..] == [c] + rest
    ensures n < |cs| && cs[n] == c && cs[n + 1..] == rest
  {
    assert cs[n] == cs[n..][0];
    assert cs[n + 1..] == cs[n..][1..];
  }

  lemma StandingNext(o: Order, k: Kind, b: seq<byte>, at: nat, cs: seq<seq<byte>>, n: nat)
    requires Standing(o, k, b, at, cs, n) && at < |b|
    ensures at + k.min <= |b| && k.at + 2 <= k.min && n < |cs| && var len := Get16(o, b, at + k.at);
            && k.min <= len && at + len <= |b| && cs[n] == b[at..at + len] && |cs[n]| == len
            && Standing(o, k, b, at + len, cs, n + 1)
  {
    hide *;
    StandingTiled(o, k, b, at, cs, n);
    TiledSound(o, k, b[at..]);
    NextElement(o, k, b, at);
    LenAt(o, k, b, at);
    var len := Len(o, k, b[at..]);
    Tail(cs, n, b[at..at + len], Split(o, k, b[at + len..]));
    StandingAt(o, k, b, at + len, cs, n + 1);
  }

  // ----- converting a region element by element

  function Other(o: Order): Order {
    if o.Host? then Wire else Host
  }

  /** What a conversion makes of an element, given the bytes the destination held before. */
  type Conversion = (seq<byte>, seq<byte>) -> seq<byte>

  function MapTiles(o: Order, k: Kind, b: seq<byte>, p: seq<byte>, f: Conversion): seq<byte>
    requires Tiled(o, k, b) && |p| == |b|
    decreases |b|
  {
    if b == [] then []
    else var n := Len(o, k, b); f(b[..n], p[..n]) + MapTiles(o, k, b[n..], p[n..], f)
  }

  predicate KeepsLength(f: Conversion, c: seq<byte>, p: seq<byte>) {
    |f(c, p)| == |c|
  }

  lemma {:induction false} MapLength(o: Order, k: Kind, b: seq<byte>, p: seq<byte>, f: Conversion)
    requires Tiled(o, k, b) && |p| == |b|
    requires forall c, q :: |q| == |c| ==> KeepsLength(f, c, q)
    ensures |MapTiles(o, k, b, p, f)| == |b|
    decreases |b|
  {
    if b != [] {
      var n := Len(o, k, b);
      assert KeepsLength(f, b[..n], p[..n]);
      MapLength(o, k, b[n..], p[n..], f);
    }
  }

  lemma MapNext(o: Order, k: Kind, b: seq<byte>, p: seq<byte>, f: Conversion, at: nat)
    requires at < |b| == |p| && Tiled(o, k, b[at..])
    ensures k.min <= |b| - at && var n := Len(o, k, b[at..]);
            && k.min <= n && at + n <= |b| && Tiled(o, k, b[at + n..])
            && MapTiles(o, k, b[at..], p[at..], f) ==
               f(b[at..at + n], p[at..at + n]) + MapTiles(o, k, b[at + n..], p[at + n..], f)
  {
    NextElement(o, k, b, at);
    var n := Len(o, k, b[at..]);
    assert b[at..][n..] == b[at + n..] && p[at..][n..] == p[at + n..] && p[at..][..n] == p[at..at + n];
    hide Len, Split, Get16, Sound;
  }

  lemma MapFirst(o: Order, k: Kind, c: seq<byte>, rest: seq<byte>, q: seq<byte>, f: Conversion)
    requires Whole(o, k, c) && Tiled(o, k, rest) && |q| == |c| + |rest|
    ensures Tiled(o, k, c + rest)
    ensures MapTiles(o, k, c + rest, q, f) == f(c, q[..|c|]) + MapTiles(o, k, rest, q[|c|..], f)
  {
    FirstLen(o, k, c, rest);
  }

  /** f turns the element c into one of the other byte order, which g turns into h's result. */
  ghost predicate Undone(o: Order, k: Kind, c: seq<byte>, f: Conversion, g: Conversion, h: Conversion) {
    forall p, q {:trigger g(f(c, p), q)} :: |p| == |c| && |q| == |c| ==>
      Whole(Other(o), k, f(c, p)) && |f(c, p)| == |c| && g(f(c, p), q) == h(c, q)
  }

  /** A conversion that is undone element by element is undone on the whole region: the
      result is tiled in the same way, and converting it back gives h's result everywhere. */
  lemma {:induction false} MapUndone(o: Order, k: Kind, b: seq<byte>, p: seq<byte>, q: seq<byte>,
                                     f: Conversion, g: Conversion, h: Conversion)
    requires Tiled(o, k, b) && |p| == |q| == |b|
    requires forall i :: 0 <= i < |Split(o, k, b)| ==> Undone(o, k, Split(o, k, b)[i], f, g, h)
    ensures var r := MapTiles(o, k, b, p, f);
            && |r| == |b| && Tiled(Other(o), k, r)
            && MapTiles(Other(o), k, r, q, g) == MapTiles(o, k, b, q, h)
    decreases |b|
  {
    if b != [] {
      var n := Len(o, k, b);
      var c, x := b[..n], f(b[..n], p[..n]);
      assert Split(o, k, b)[0] == c && Split(o, k, b)[1..] == Split(o, k, b[n..]);
      assert Undone(o, k, c, f, g, h);
      assert g(x, q[..n]) == h(c, q[..n]);
      MapUndone(o, k, b[n..], p[n..], q[n..], f, g, h);
      FirstLen(Other(o), k, x, MapTiles(o, k, b[n..], p[n..], f));
    }
  }

  /** The elements of a region, each read by dec. */
  function ReadAll<T>(o: Order, k: Kind, b: seq<byte>, dec: seq<byte> -> T): (r: seq<T>)
    requires Tiled(o, k, b)
    ensures |r| == |Split(o, k, b)| && forall i :: 0 <= i < |r| ==> r[i] == dec(Split(o, k, b)[i])
    decreases |b|
  {
    if b == [] then [] else var n := Len(o, k, b); [dec(b[..n])] + ReadAll(o, k, b[n..], dec)
  }

  /** f turns the element c into one of the other byte order that reads the same. */
  ghost predicate Kept<T(!new)>(o: Order, k: Kind, c: seq<byte>, f: Conversion, dec: seq<byte> -> T,
                                dec2: seq<byte> -> T) {
    forall p {:trigger f(c, p)} :: |p| == |c| ==>
      Whole(Other(o), k, f(c, p)) && |f(c, p)| == |c| && dec2(f(c, p)) == dec(c)
  }

  lemma {:induction false} MapKept<T(!new)>(o: Order, k: Kind, b: seq<byte>, p: seq<byte>, f: Conversion,
                                            dec: seq<byte> -> T, dec2: seq<byte> -> T)
    requires Tiled(o, k, b) && |p| == |b|
    requires forall i :: 0 <= i < |Split(o, k, b)| ==> Kept(o, k, Split(o, k, b)[i], f, dec, dec2)
    ensures var r := MapTiles(o, k, b, p, f);
            |r| == |b| && Tiled(Other(o), k, r) && ReadAll(Other(o), k, r, dec2) == ReadAll(o, k, b, dec)
    decreases |b|
  {
    if b != [] {
      var n := Len(o, k, b);
      var c, x := b[..n], f(b[..n], p[..n]);
      assert Split(o, k, b)[0] == c && Split(o, k, b)[1..] == Split(o, k, b[n..]);
      assert Kept(o, k, c, f, dec, dec2);
      MapKept(o, k, b[n..], p[n..], f, dec, dec2);
      FirstLen(Other(o), k, x, MapTiles(o, k, b[n..], p[n..], f));
    }
  }

  /** Where h ignores what f changed, it gives the same over f's result as over p. */
  lemma {:induction false} MapOver(o: Order, k: Kind, b: seq<byte>, p: seq<byte>, f: Conversion, h: Conversion)
    requires Tiled(o, k, b) && |p| == |b|
    requires forall i :: 0 <= i < |Split(o, k, b)| ==> Ignores(Split(o, k, b)[i], f, h)
    ensures var r := MapTiles(o, k, b, p, f);
            |r| == |b| && MapTiles(o, k, b, r, h) == MapTiles(o, k, b, p, h)
    decreases |b|
  {
    if b != [] {
      var n := Len(o, k, b);
      var c, x := b[..n], f(b[..n], p[..n]);
      assert Split(o, k, b)[0] == c && Split(o, k, b)[1..] == Split(o, k, b[n..]);
      assert Ignores(c, f, h) && h(c, x) == h(c, p[..n]);
      MapOver(o, k, b[n..], p[n..], f, h);
      assert MapTiles(o, k, b, p, f)[..n] == x && MapTiles(o, k, b, p, f)[n..] == MapTiles(o, k, b[n..], p[n..], f);
    }
  }

  ghost predicate Ignores(c: seq<byte>, f: Conversion, h: Conversion) {
    forall p {:trigger f(c, p)} :: |p| == |c| ==> |f(c, p)| == |c| && h(c, f(c, p)) == h(c, p)
  }
}
