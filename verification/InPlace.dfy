/**
 hton_packet_queue and hton_queue_property of lib/cc_byte_order.c where the source
 is not separate from the destination: both read from the source again what they
 have just written, the one the queue's length, the other the property's type.
 */
module InPlace {

  import opened Bytes
  import opened Tlv
  import opened Records
  import opened Regions

  // ----- one property

  /** The type bytes are there in reverse when the type is read again. */
  function FlipInPlace(c: seq<byte>): seq<byte>
    requires |c| >= 2
  {
    FlipAs(Get16(Wire, c, 0), c, c)
  }

  /** In place a property is converted as it should be exactly if it is neither MIN_RATE nor
      of the type that reads as MIN_RATE in reverse, or its rate reads the same from either end. */
  lemma PropertyInPlaceWhen(c: seq<byte>)
    requires KnownProperty(Host, c) && (Get16(Wire, c, 0) == MIN_RATE ==> 10 <= |c|)
    ensures FlipInPlace(c) == FlipProperty(Host, c, c) <==>
            (Get16(Host, c, 0) in {MIN_RATE, 0x100} ==> c[8] == c[9])
  {
    var y, z := FlipInPlace(c), FlipProperty(Host, c, c);
    if Get16(Host, c, 0) in {MIN_RATE, 0x100} {
      assert y[8] != z[8] <==> c[8] != c[9];
      if c[8] == c[9] {
        assert forall i {:trigger y[i]} :: 0 <= i < |c| ==> y[i] == z[i];
      }
    }
  }

  /** A minimum rate of 5 is left unconverted. */
  lemma RateLost(c: seq<byte>)
    requires c == [1, 0, 16, 0, 0, 0, 0, 0, 5, 0, 0, 0, 0, 0, 0, 0]
    ensures KnownProperty(Host, c) && FlipInPlace(c) != FlipProperty(Host, c, c)
  {
    PropertyInPlaceWhen(c);
  }

  // ----- the loop over the properties

  /** What is left of the 16-bit count after a property of n bytes. */
  function Less(r: u16, n: u16): u16 {
    (r + 0x1_0000 - n) % 0x1_0000
  }

  /** A loop that starts with the count r stays within the properties b. */
  predicate Crosses(b: seq<byte>, r: u16)
    requires Tiled(Host, PROPERTIES, b)
    decreases |b|
  {
    r >= 8 ==> b != [] && var n := Len(Host, PROPERTIES, b); Crosses(b[n..], Less(r, n))
  }

  /** What it makes of them over the bytes p: those it does not come to are not written. */
  function FlipSome(b: seq<byte>, p: seq<byte>, r: u16): (y: seq<byte>)
    requires Tiled(Host, PROPERTIES, b) && Crosses(b, r) && |p| == |b|
    ensures |y| == |b|
    decreases |b|
  {
    if r < 8 then p
    else
      var n := Len(Host, PROPERTIES, b);
      FlipProperty(Host, b[..n], p[..n]) + FlipSome(b[n..], p[n..], Less(r, n))
  }

  /** A property that is its own conversion in place. */
  predicate Alike(c: seq<byte>) {
    |c| >= 4 && c[0] == c[1] && c[2] == c[3]
  }

  /** All properties the loop does not come to are their own conversion. */
  predicate RestAlike(b: seq<byte>, r: u16)
    requires Tiled(Host, PROPERTIES, b)
    decreases |b|
  {
    b == [] ||
    var n := Len(Host, PROPERTIES, b);
    if r < 8 then Alike(b[..n]) && RestAlike(b[n..], r) else RestAlike(b[n..], Less(r, n))
  }

  lemma AlikeWhen(c: seq<byte>)
    requires KnownProperty(Host, c)
    ensures FlipProperty(Host, c, c) == c <==> Alike(c)
  {
    var y := FlipProperty(Host, c, c);
    assert y[0] == c[1] && y[1] == c[0] && y[2] == c[3] && y[3] == c[2];
    if Alike(c) {
      assert Get16(Host, c, 0) != MIN_RATE;
      assert forall i {:trigger y[i]} :: 0 <= i < |c| ==> y[i] == c[i];
    }
  }

  lemma FlipFirst(b: seq<byte>, p: seq<byte>)
    requires KnownProperties(Host, b) && b != [] && |p| == |b|
    ensures var n := Len(Host, PROPERTIES, b);
            && KnownProperty(Host, b[..n]) && KnownProperties(Host, b[n..])
            && FlipProperties(Host, b, p) == FlipProperty(Host, b[..n], p[..n]) + FlipProperties(Host, b[n..], p[n..])
  {
    assert b[0..] == b;
    PropertyNext(Host, b, 0);
  }

  /** Converted in place, the region comes out right exactly if what the loop does not
      come to is its own conversion. */
  lemma {:induction false} SomeIsAll(b: seq<byte>, r: u16)
    requires KnownProperties(Host, b) && Crosses(b, r)
    ensures FlipSome(b, b, r) == FlipProperties(Host, b, b) <==> RestAlike(b, r)
    decreases |b|
  {
    if b != [] {
      var n := Len(Host, PROPERTIES, b);
      var c, rest, y := b[..n], b[n..], FlipProperty(Host, b[..n], b[..n]);
      FlipFirst(b, b);
      AlikeWhen(c);
      assert b == c + rest;
      if r < 8 {
        SomeIsAll(rest, r);
        SameParts(c, rest, y, FlipProperties(Host, rest, rest));
      } else {
        SomeIsAll(rest, Less(r, n));
        SameParts(y, FlipSome(rest, rest, Less(r, n)), y, FlipProperties(Host, rest, rest));
      }
    }
  }

  /** With the right count, or up to seven more, the loop comes to every property. */
  lemma {:induction false} RightCount(b: seq<byte>, p: seq<byte>, r: u16)
    requires KnownProperties(Host, b) && |p| == |b| <= r < |b| + 8
    ensures Crosses(b, r) && FlipSome(b, p, r) == FlipProperties(Host, b, p)
    decreases |b|
  {
    if b != [] {
      var n := Len(Host, PROPERTIES, b);
      FlipFirst(b, p);
      RightCount(b[n..], p[n..], Less(r, n));
    }
  }

  /** With eight more it runs past the last property. */
  lemma {:induction false} RunsOver(b: seq<byte>, r: u16)
    requires Tiled(Host, PROPERTIES, b) && |b| + 8 <= r
    ensures !Crosses(b, r)
    decreases |b|
  {
    if b != [] {
      var n := Len(Host, PROPERTIES, b);
      RunsOver(b[n..], Less(r, n));
    }
  }

  /** Properties of eight or sixteen bytes: the lengths required for NONE and MIN_RATE. */
  predicate Regular(b: seq<byte>) {
    KnownProperties(Host, b) &&
    forall i :: 0 <= i < |Split(Host, PROPERTIES, b)| ==> |Split(Host, PROPERTIES, b)[i]| in {8, 16}
  }

  lemma RegularNext(b: seq<byte>)
    requires Regular(b) && b != []
    ensures var n := Len(Host, PROPERTIES, b); n in {8, 16} && Regular(b[n..])
  {
    FlipFirst(b, b);
    var n := Len(Host, PROPERTIES, b);
    var cs := Split(Host, PROPERTIES, b);
    var rest := Split(Host, PROPERTIES, b[n..]);
    assert cs[0] == b[..n] && cs[1..] == rest;
    forall i | 0 <= i < |rest| ensures |rest[i]| in {8, 16} {
      assert rest[i] == cs[i + 1];
    }
  }

  /** With less it leaves a property out, or wraps the count and runs past the last one. */
  lemma {:induction false} ShortCount(b: seq<byte>, r: u16)
    requires Regular(b) && r < |b| <= 0xfff7
    ensures Crosses(b, r) ==> !RestAlike(b, r)
    decreases |b|
  {
    RegularNext(b);
    var n := Len(Host, PROPERTIES, b);
    if r >= 8 {
      if n <= r {
        ShortCount(b[n..], Less(r, n));
      } else {
        RunsOver(b[n..], Less(r, n));
      }
    }
  }

  /** The first property, then the others. */
  lemma SomeFirst(b: seq<byte>, p: seq<byte>, r: u16)
    requires KnownProperties(Host, b) && Crosses(b, r) && |p| == |b| && r >= 8
    ensures |b| >= 8 && var n := Len(Host, PROPERTIES, b);
            && 8 <= n <= |b| && KnownProperty(Host, b[..n])
            && KnownProperties(Host, b[n..]) && Crosses(b[n..], Less(r, n))
            && FlipSome(b, p, r) == FlipProperty(Host, b[..n], p[..n]) + FlipSome(b[n..], p[n..], Less(r, n))
  {
    FlipFirst(b, p);
  }

  // ----- the queue

  /** The count the loop starts with when it reads `back` as the queue's length. */
  function Count(back: u16): u16 {
    Less(back, 8)
  }

  /** The queue x over the bytes p when `back` is read as its length. */
  function FlipQueueBy(x: seq<byte>, p: seq<byte>, back: u16): seq<byte>
    requires KnownQueue(Host, x) && |p| == |x| && Crosses(x[8..], Count(back))
  {
    QueueHead(x) + FlipSome(x[8..], p[8..], Count(back))
  }

  /** With its own length the queue is converted, over any bytes. */
  lemma OwnLength(x: seq<byte>, p: seq<byte>)
    requires KnownQueue(Host, x) && |p| == |x|
    ensures Crosses(x[8..], Count(|x|)) && FlipQueueBy(x, p, |x|) == FlipQueue(Host, x, p)
  {
    RightCount(x[8..], p[8..], Count(|x|));
  }

  /** What the length field holds in place once it is written: the length in reverse. */
  lemma LengthBack(x: seq<byte>, rest: seq<byte>)
    requires Whole(Host, QUEUES, x)
    ensures Get16(Host, QueueHead(x) + rest, 4) == Get16(Wire, x, 4)
    ensures Get16(Wire, x, 4) == |x| <==> x[4] == x[5]
  {
  }

  /** The loop stays within the queue in place, and the queue comes out as it should. */
  predicate WorksInPlace(x: seq<byte>)
    requires KnownQueue(Host, x)
  {
    Crosses(x[8..], Count(Get16(Wire, x, 4))) && FlipQueueBy(x, x, Get16(Wire, x, 4)) == FlipQueue(Host, x, x)
  }

  /** In place the queue comes out right exactly if the loop stays within it and the
      properties that are not reached are their own conversion. */
  lemma InPlaceWhen(x: seq<byte>)
    requires KnownQueue(Host, x)
    ensures var r := Count(Get16(Wire, x, 4));
            WorksInPlace(x) <==> Crosses(x[8..], r) && RestAlike(x[8..], r)
  {
    var r, b, h := Count(Get16(Wire, x, 4)), x[8..], QueueHead(x);
    if Crosses(b, r) {
      SomeIsAll(b, r);
      SameParts(h, FlipSome(b, b, r), h, FlipProperties(Host, b, b));
    }
  }

  /** For queues whose properties have the required lengths: in place works exactly if the
      length reads the same from either end. */
  lemma RegularInPlace(x: seq<byte>)
    requires KnownQueue(Host, x) && Regular(x[8..])
    ensures WorksInPlace(x) <==> x[4] == x[5]
  {
    var b, back := x[8..], Get16(Wire, x, 4);
    var r := Count(back);
    assert |x| == x[4] as int + 0x100 * x[5] as int && |b| == |x| - 8;
    if x[4] == x[5] {
      OwnLength(x, x);
    } else if r < |b| {
      ShortCount(b, r);
      InPlaceWhen(x);
    } else {
      assert back as int - |x| == 0xff * (x[4] as int - x[5] as int);
      RunsOver(b, r);
    }
  }

  /** A queue of 24 bytes: 6144 is read back, and the loop runs past its only property. */
  lemma InPlaceRunsOver(x: seq<byte>)
    requires x == [7, 0, 0, 0, 24, 0, 0, 0] + [1, 0, 16, 0, 0, 0, 0, 0, 5, 0, 0, 0, 0, 0, 0, 0]
    ensures KnownQueue(Host, x) && !Crosses(x[8..], Count(Get16(Wire, x, 4)))
  {
    var b := x[8..];
    assert b == [1, 0, 16, 0, 0, 0, 0, 0, 5, 0, 0, 0, 0, 0, 0, 0];
    assert Len(Host, PROPERTIES, b) == 16 && b[16..] == [] && b[..16] == b;
    assert Split(Host, PROPERTIES, b) == [b];
    RunsOver(b, Count(Get16(Wire, x, 4)));
  }

  /** A queue of 513 bytes: 258 is read back, the loop ends after the first property, and
      the second stays as it was. */
  lemma InPlaceLeavesOut(x: seq<byte>)
    requires |x| == 513 && x[4] == 1 && x[5] == 2
    requires x[8] == 0 && x[9] == 0 && x[10] == 247 && x[11] == 0
    requires x[255] == 0 && x[256] == 0 && x[257] == 2 && x[258] == 1
    ensures KnownQueue(Host, x) && Crosses(x[8..], Count(Get16(Wire, x, 4))) && !WorksInPlace(x)
  {
    var b, c := x[8..], x[255..];
    assert b[247..] == c && |c| == 258 && c[258..] == [] && c[..258] == c;
    assert Len(Host, PROPERTIES, c) == 258 && Split(Host, PROPERTIES, c) == [c];
    assert Len(Host, PROPERTIES, b) == 247 && Split(Host, PROPERTIES, b) == [b[..247], c];
    assert Count(Get16(Wire, x, 4)) == 250 && Less(250, 247) == 3;
    assert KnownProperty(Host, b[..247]) && KnownProperty(Host, c);
    var cs := Split(Host, PROPERTIES, b);
    assert cs[0] == b[..247] && cs[1] == c;
    assert KnownProperties(Host, b);
    assert Crosses(c, 3) && Crosses(b, 250);
    assert !Alike(c[..258]) && !RestAlike(c, 3) && !RestAlike(b, 250);
    InPlaceWhen(x);
  }
}
