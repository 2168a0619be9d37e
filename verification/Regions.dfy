/**
 Whole regions in either byte order: action lists, flow statistics (section
 5.3.5) and packet queues with their properties (section 5.2.2), what converting
 them yields and that converting back restores them.
 */
module Regions {

  import opened Bytes
  import opened Options
  import opened Tlv
  import opened Records

  // ----- action lists

  predicate KnownActions(o: Order, b: seq<byte>) {
    Tiled(o, ACTIONS, b) && forall i :: 0 <= i < |Split(o, ACTIONS, b)| ==> Known(o, Split(o, ACTIONS, b)[i])
  }

  lemma KnownNext(o: Order, b: seq<byte>, at: nat)
    requires at < |b| && KnownActions(o, b[at..])
    ensures |b| - at >= 8 && var n := Len(o, ACTIONS, b[at..]);
            8 <= n && at + n <= |b| && Known(o, b[at..at + n]) && KnownActions(o, b[at + n..])
  {
    NextElement(o, ACTIONS, b, at);
    hide Tiled, Split, Len, Known;
    var cs, n := Split(o, ACTIONS, b[at..]), Len(o, ACTIONS, b[at..]);
    assert cs[0] == b[at..at + n];
    var rest := Split(o, ACTIONS, b[at + n..]);
    forall i | 0 <= i < |rest| ensures Known(o, rest[i]) {
      assert cs[i + 1] == rest[i];
    }
  }

  function ActionDecoder(o: Order): seq<byte> -> Option<Action> {
    (x: seq<byte>) => DecodeAction(o, x)
  }

  /** The actions a region holds, in order. */
  function Actions(o: Order, b: seq<byte>): seq<Option<Action>>
    requires Tiled(o, ACTIONS, b)
  {
    ReadAll(o, ACTIONS, b, ActionDecoder(o))
  }

  function FlipActions(o: Order, b: seq<byte>, p: seq<byte>): (r: seq<byte>)
    requires Tiled(o, ACTIONS, b) && |p| == |b|
    ensures |r| == |b|
  {
    MapLength(o, ACTIONS, b, p, Flipper(o));
    MapTiles(o, ACTIONS, b, p, Flipper(o))
  }

  /** b with all padding zeroed, over the bytes p wherever an action is longer than its type. */
  function SettleActions(o: Order, b: seq<byte>, p: seq<byte>): (r: seq<byte>)
    requires Tiled(o, ACTIONS, b) && |p| == |b|
    ensures |r| == |b|
  {
    MapLength(o, ACTIONS, b, p, Settler(o));
    MapTiles(o, ACTIONS, b, p, Settler(o))
  }

  lemma ActionKept(o: Order, x: seq<byte>)
    requires Known(o, x)
    ensures Kept(o, ACTIONS, x, Flipper(o), ActionDecoder(o), ActionDecoder(Other(o)))
  {
    forall p {:trigger Flipper(o)(x, p)} | |p| == |x|
      ensures Whole(Other(o), ACTIONS, FlipAction(o, x, p))
      ensures DecodeAction(Other(o), FlipAction(o, x, p)) == DecodeAction(o, x)
    {
      FlipHeader(o, x, p);
      FlipMeans(o, x, p);
    }
  }

  lemma ActionUndone(o: Order, x: seq<byte>)
    requires Known(o, x)
    ensures Undone(o, ACTIONS, x, Flipper(o), Flipper(Other(o)), Settler(o))
  {
    forall p, q | |p| == |x| && |q| == |x|
      ensures Whole(Other(o), ACTIONS, FlipAction(o, x, p))
      ensures FlipAction(Other(o), FlipAction(o, x, p), q) == SettleAction(o, x, q)
    {
      FlipHeader(o, x, p);
      FlipTwice(o, x, p, q);
    }
  }

  /** Converting an action list keeps its boundaries and the meaning of every action. */
  lemma ActionsKept(o: Order, b: seq<byte>, p: seq<byte>)
    requires KnownActions(o, b) && |p| == |b|
    ensures var r := FlipActions(o, b, p);
            |r| == |b| && KnownActions(Other(o), r) && Actions(Other(o), r) == Actions(o, b)
  {
    forall i | 0 <= i < |Split(o, ACTIONS, b)|
      ensures Kept(o, ACTIONS, Split(o, ACTIONS, b)[i], Flipper(o), ActionDecoder(o), ActionDecoder(Other(o)))
    {
      ActionKept(o, Split(o, ACTIONS, b)[i]);
    }
    MapKept(o, ACTIONS, b, p, Flipper(o), ActionDecoder(o), ActionDecoder(Other(o)));
    var r := FlipActions(o, b, p);
    forall i | 0 <= i < |Split(Other(o), ACTIONS, r)| ensures Known(Other(o), Split(Other(o), ACTIONS, r)[i]) {
      assert Actions(Other(o), r)[i] == Actions(o, b)[i];
    }
  }

  /** Converting an action list twice gives it back with its padding zeroed. */
  lemma ActionsTwice(o: Order, b: seq<byte>, p: seq<byte>, q: seq<byte>)
    requires KnownActions(o, b) && |p| == |q| == |b|
    ensures var r := FlipActions(o, b, p);
            |r| == |b| && KnownActions(Other(o), r) && FlipActions(Other(o), r, q) == SettleActions(o, b, q)
  {
    ActionsKept(o, b, p);
    forall i | 0 <= i < |Split(o, ACTIONS, b)|
      ensures Undone(o, ACTIONS, Split(o, ACTIONS, b)[i], Flipper(o), Flipper(Other(o)), Settler(o))
    {
      ActionUndone(o, Split(o, ACTIONS, b)[i]);
    }
    MapUndone(o, ACTIONS, b, p, q, Flipper(o), Flipper(Other(o)), Settler(o));
  }

  /** Done in place both times, even the bytes beyond an action's own length come back. */
  lemma ActionsInPlace(o: Order, b: seq<byte>)
    requires KnownActions(o, b)
    ensures var r := FlipActions(o, b, b);
            |r| == |b| && SettleActions(o, b, r) == SettleActions(o, b, b)
  {
    forall i | 0 <= i < |Split(o, ACTIONS, b)|
      ensures Ignores(Split(o, ACTIONS, b)[i], Flipper(o), Settler(o))
    {
      forall p {:trigger Flipper(o)(Split(o, ACTIONS, b)[i], p)} | |p| == |Split(o, ACTIONS, b)[i]|
        ensures var c := Split(o, ACTIONS, b)[i]; SettleAction(o, c, FlipAction(o, c, p)) == SettleAction(o, c, p)
      {
      }
    }
    MapOver(o, ACTIONS, b, b, Flipper(o), Settler(o));
  }

  predicate ExactActions(o: Order, b: seq<byte>) {
    Tiled(o, ACTIONS, b) && forall i :: 0 <= i < |Split(o, ACTIONS, b)| ==> Exact(o, Split(o, ACTIONS, b)[i])
  }

  /** A single action comes back over other bytes exactly if those agree beyond its type's length. */
  lemma SettlesWhen(o: Order, x: seq<byte>, q: seq<byte>)
    requires Known(o, x) && |q| == |x|
    ensures SettleAction(o, x, q) == SettleAction(o, x, x) <==>
            x[Span(Get16(o, x, 0), |x|)..] == q[Span(Get16(o, x, 0), |x|)..]
  {
    var n, s := Span(Get16(o, x, 0), |x|), SettleAction(o, x, q);
    assert s[n..] == q[n..];
    assert SettleAction(o, x, x)[n..] == x[n..];
    assert s[..n] == SettleAction(o, x, x)[..n];
    assert s == s[..n] + s[n..];
    assert SettleAction(o, x, x) == SettleAction(o, x, x)[..n] + SettleAction(o, x, x)[n..];
  }

  /** x and q agree beyond the length of x's type. */
  predicate SameBeyond(o: Order, x: seq<byte>, q: seq<byte>)
    requires |q| == |x|
  {
    forall i :: Span(CodeOf(o, x), |x|) <= i < |x| ==> x[i] == q[i]
  }

  /** q holds the bytes of b wherever an action is longer than its type. */
  predicate AgreeBeyond(o: Order, b: seq<byte>, q: seq<byte>)
    requires Tiled(o, ACTIONS, b) && |q| == |b|
    decreases |b|
  {
    b == [] ||
    var n := Len(o, ACTIONS, b); SameBeyond(o, b[..n], q[..n]) && AgreeBeyond(o, b[n..], q[n..])
  }

  lemma FirstAgrees(o: Order, x: seq<byte>, q: seq<byte>)
    requires Known(o, x) && |q| == |x|
    ensures SettleAction(o, x, q) == SettleAction(o, x, x) <==> SameBeyond(o, x, q)
  {
    SettlesWhen(o, x, q);
    var m := Span(Get16(o, x, 0), |x|);
    forall i | m <= i < |x| ensures x[i] == x[m..][i - m] && q[i] == q[m..][i - m] {
    }
  }

  /** A region is settled over q as over itself exactly if q agrees beyond every action's type. */
  lemma {:induction false} ActionsSettleWhen(o: Order, b: seq<byte>, q: seq<byte>)
    requires KnownActions(o, b) && |q| == |b|
    ensures SettleActions(o, b, q) == SettleActions(o, b, b) <==> AgreeBeyond(o, b, q)
    decreases |b|
  {
    if b != [] {
      assert b[0..] == b;
      KnownNext(o, b, 0);
      var n := Len(o, ACTIONS, b);
      var c, rest := b[..n], b[n..];
      assert |c| == n && b[0..n] == c;
      assert AgreeBeyond(o, b, q) <==> SameBeyond(o, c, q[..n]) && AgreeBeyond(o, rest, q[n..]);
      hide *;
      SettleFirst(o, b, q);
      SettleFirst(o, b, b);
      FirstAgrees(o, c, q[..n]);
      ActionsSettleWhen(o, rest, q[n..]);
      SameParts(SettleAction(o, c, q[..n]), SettleActions(o, rest, q[n..]),
                SettleAction(o, c, c), SettleActions(o, rest, rest));
    }
  }

  lemma SettleFirst(o: Order, b: seq<byte>, q: seq<byte>)
    requires b != [] && Tiled(o, ACTIONS, b) && |q| == |b|
    ensures var n := Len(o, ACTIONS, b);
            && SettleActions(o, b, q) == SettleAction(o, b[..n], q[..n]) + SettleActions(o, b[n..], q[n..])
            && |SettleAction(o, b[..n], q[..n])| == n
  {
  }

  lemma SameParts(a: seq<byte>, b: seq<byte>, c: seq<byte>, d: seq<byte>)
    requires |a| == |c|
    ensures a + b == c + d <==> a == c && b == d
  {
    assert (a + b)[..|a|] == a && (a + b)[|a|..] == b;
    assert (c + d)[..|c|] == c && (c + d)[|c|..] == d;
  }

  /** An action no longer than its type has nothing beyond it. */
  lemma {:induction false} ExactAgrees(o: Order, b: seq<byte>, q: seq<byte>)
    requires ExactActions(o, b) && |q| == |b|
    ensures AgreeBeyond(o, b, q)
    decreases |b|
  {
    if b != [] {
      var n := Len(o, ACTIONS, b);
      assert Split(o, ACTIONS, b)[0] == b[..n] && Split(o, ACTIONS, b)[1..] == Split(o, ACTIONS, b[n..]);
      ExactAgrees(o, b[n..], q[n..]);
    }
  }

  // ----- flow statistics

  predicate KnownFlow(o: Order, x: seq<byte>) {
    Whole(o, FLOWS, x) && KnownActions(o, x[88..])
  }

  function FlipFlow(o: Order, x: seq<byte>, p: seq<byte>): seq<byte> {
    if !KnownFlow(o, x) || |p| != |x| then x
    else Mirror(FlowStatsStruct, x[..88]) + FlipActions(o, x[88..], p[88..])
  }

  function SettleFlow(o: Order, x: seq<byte>, p: seq<byte>): seq<byte> {
    if !KnownFlow(o, x) || |p| != |x| then x
    else ZeroPads(FlowStatsStruct, x[..88]) + SettleActions(o, x[88..], p[88..])
  }

  lemma FlowTwice(o: Order, x: seq<byte>, p: seq<byte>, q: seq<byte>)
    requires KnownFlow(o, x) && |p| == |q| == |x|
    ensures var y := FlipFlow(o, x, p);
            |y| == |x| && KnownFlow(Other(o), y) && FlipFlow(Other(o), y, q) == SettleFlow(o, x, q)
  {
    var y, h := FlipFlow(o, x, p), Mirror(FlowStatsStruct, x[..88]);
    ActionsTwice(o, x[88..], p[88..], q[88..]);
    MirrorTwice(FlowStatsStruct, x[..88]);
    assert y[..88] == h && y[88..] == FlipActions(o, x[88..], p[88..]);
    assert h[0] == x[..88][1] && h[1] == x[..88][0];
    assert y[0] == x[1] && y[1] == x[0];
  }

  /** Every field of the record and every action mean the same after the conversion. */
  lemma FlowKept(o: Order, x: seq<byte>, p: seq<byte>)
    requires KnownFlow(o, x) && |p| == |x|
    ensures var y := FlipFlow(o, x, p);
            && |y| == |x| && KnownFlow(Other(o), y)
            && DecodeFlowStats(Other(o), y[..88]) == DecodeFlowStats(o, x[..88])
            && Actions(Other(o), y[88..]) == Actions(o, x[88..])
  {
    var y, h := FlipFlow(o, x, p), Mirror(FlowStatsStruct, x[..88]);
    FlowTwice(o, x, p, p);
    FlowStatsMeans(o, x[..88]);
    ActionsKept(o, x[88..], p[88..]);
    assert y[..88] == h && y[88..] == FlipActions(o, x[88..], p[88..]);
  }

  /** Converted in place and back in place, the record returns with only its padding
      zeroed, whatever lies beyond an action's own length. */
  lemma FlowInPlace(o: Order, x: seq<byte>)
    requires KnownFlow(o, x)
    ensures var y := FlipFlow(o, x, x);
            |y| == |x| && FlipFlow(Other(o), y, y) == SettleFlow(o, x, x)
  {
    var y := FlipFlow(o, x, x);
    FlowTwice(o, x, x, x);
    FlowTwice(o, x, x, y);
    ActionsInPlace(o, x[88..]);
    assert y[88..] == FlipActions(o, x[88..], x[88..]);
  }

  /** Through separate memory the same holds exactly if the last destination held the record's
      own bytes wherever an action is longer than its type; so it does if none is. */
  lemma FlowElsewhere(o: Order, x: seq<byte>, p: seq<byte>, q: seq<byte>)
    requires KnownFlow(o, x) && |p| == |q| == |x|
    ensures var y := FlipFlow(o, x, p);
            |y| == |x| && (FlipFlow(Other(o), y, q) == SettleFlow(o, x, x) <==> AgreeBeyond(o, x[88..], q[88..]))
    ensures ExactActions(o, x[88..]) ==> AgreeBeyond(o, x[88..], q[88..])
  {
    FlowTwice(o, x, p, q);
    ActionsSettleWhen(o, x[88..], q[88..]);
    var h := ZeroPads(FlowStatsStruct, x[..88]);
    SameParts(h, SettleActions(o, x[88..], q[88..]), h, SettleActions(o, x[88..], x[88..]));
    if ExactActions(o, x[88..]) {
      ExactAgrees(o, x[88..], q[88..]);
    }
  }

  /** A record with one output action that declares 16 bytes is known, yet through zeroed
      memory the last eight of them do not come back. */
  lemma OverlongLost(x: seq<byte>, q: seq<byte>)
    requires |x| == 104 && x[0] == 0 && x[1] == 104
    requires x[88..] == [0, 0, 0, 16, 0, 1, 0, 0, 1, 2, 3, 4, 5, 6, 7, 8]
    requires |q| == 104 && forall i :: 0 <= i < 104 ==> q[i] == 0
    ensures KnownFlow(Wire, x) && !ExactActions(Wire, x[88..])
    ensures FlipFlow(Host, FlipFlow(Wire, x, q), q) != SettleFlow(Wire, x, x)
  {
    var b := x[88..];
    assert Len(Wire, ACTIONS, b) == 16 && b[16..] == [] && b[..16] == b;
    assert Split(Wire, ACTIONS, b) == [b];
    assert Split(Wire, ACTIONS, b)[0] == b;
    assert b[8] == 1 && q[88..][8] == 0;
    FlowElsewhere(Wire, x, q, q);
  }

  // ----- queue properties and packet queues

  /** A min-rate property carries its rate; any other property converts by its header. */
  predicate KnownProperty(o: Order, x: seq<byte>) {
    Whole(o, PROPERTIES, x) && (Get16(o, x, 0) == MIN_RATE ==> 16 <= |x|)
  }

  /** The source byte of byte i of a converted property; -1 for padding, which is not written. */
  function PropertyFrom(code: u16, i: nat): int {
    if i < 2 then 1 - i
    else if i < 4 then 5 - i
    else if code == MIN_RATE && 8 <= i < 10 then 17 - i
    else -1
  }

  /** A property converted as one of type `code`; padding keeps the destination's bytes p. */
  function FlipAs(code: u16, x: seq<byte>, p: seq<byte>): (y: seq<byte>)
    ensures |y| == |x|
    ensures forall i {:trigger y[i]} :: 0 <= i < |x| && |p| == |x| ==>
              y[i] == if 0 <= PropertyFrom(code, i) < |x| then x[PropertyFrom(code, i)] else p[i]
  {
    seq(|x|, i requires 0 <= i < |x| =>
      if 0 <= PropertyFrom(code, i) < |x| then x[PropertyFrom(code, i)] else if i < |p| then p[i] else 0)
  }

  function FlipProperty(o: Order, x: seq<byte>, p: seq<byte>): (y: seq<byte>)
    ensures |y| == |x|
  {
    FlipAs(CodeOf(o, x), x, p)
  }

  function SettleProperty(o: Order, x: seq<byte>, p: seq<byte>): (y: seq<byte>)
    ensures |y| == |x|
    ensures forall i {:trigger y[i]} :: 0 <= i < |x| && |p| == |x| ==>
              y[i] == if PropertyFrom(CodeOf(o, x), i) >= 0 then x[i] else p[i]
  {
    var code := CodeOf(o, x);
    seq(|x|, i requires 0 <= i < |x| =>
      if PropertyFrom(code, i) >= 0 then x[i] else if i < |p| then p[i] else 0)
  }

  function PropertyFlipper(o: Order): Conversion {
    (x: seq<byte>, p: seq<byte>) => FlipProperty(o, x, p)
  }

  function PropertySettler(o: Order): Conversion {
    (x: seq<byte>, p: seq<byte>) => SettleProperty(o, x, p)
  }

  datatype Property = Property(code: u16, len: nat, rate: Option<u16>)

  function DecodeProperty(o: Order, x: seq<byte>): Option<Property> {
    if !KnownProperty(o, x) then None
    else
      var code := Get16(o, x, 0);
      Some(Property(code, |x|, if code == MIN_RATE then Some(Get16(o, x, 8)) else None))
  }

  function PropertyDecoder(o: Order): seq<byte> -> Option<Property> {
    (x: seq<byte>) => DecodeProperty(o, x)
  }

  predicate KnownProperties(o: Order, b: seq<byte>) {
    Tiled(o, PROPERTIES, b) &&
    forall i :: 0 <= i < |Split(o, PROPERTIES, b)| ==> KnownProperty(o, Split(o, PROPERTIES, b)[i])
  }

  lemma PropertyNext(o: Order, b: seq<byte>, at: nat)
    requires at < |b| && KnownProperties(o, b[at..])
    ensures |b| - at >= 8 && var n := Len(o, PROPERTIES, b[at..]);
            8 <= n && at + n <= |b| && KnownProperty(o, b[at..at + n]) && KnownProperties(o, b[at + n..])
  {
    hide Tiled, Split, Len, KnownProperty;
    NextElement(o, PROPERTIES, b, at);
    var cs, n := Split(o, PROPERTIES, b[at..]), Len(o, PROPERTIES, b[at..]);
    assert cs[0] == b[at..at + n];
    var rest := Split(o, PROPERTIES, b[at + n..]);
    forall i | 0 <= i < |rest| ensures KnownProperty(o, rest[i]) {
      assert cs[i + 1] == rest[i];
    }
  }

  lemma PropertyFlips(o: Order, x: seq<byte>, p: seq<byte>)
    requires KnownProperty(o, x) && |p| == |x|
    ensures var y := FlipProperty(o, x, p);
            KnownProperty(Other(o), y) && CodeOf(Other(o), y) == CodeOf(o, x) &&
            DecodeProperty(Other(o), y) == DecodeProperty(o, x)
  {
    var y := FlipProperty(o, x, p);
    assert y[0] == x[1] && y[1] == x[0] && y[2] == x[3] && y[3] == x[2];
    if Get16(o, x, 0) == MIN_RATE {
      assert y[8] == x[9] && y[9] == x[8];
    }
  }

  lemma PropertyTwice(o: Order, x: seq<byte>, p: seq<byte>, q: seq<byte>)
    requires KnownProperty(o, x) && |p| == |q| == |x|
    ensures FlipProperty(Other(o), FlipProperty(o, x, p), q) == SettleProperty(o, x, q)
  {
    PropertyFlips(o, x, p);
  }

  lemma PropertyKept(o: Order, x: seq<byte>)
    requires KnownProperty(o, x)
    ensures Kept(o, PROPERTIES, x, PropertyFlipper(o), PropertyDecoder(o), PropertyDecoder(Other(o)))
  {
    forall p {:trigger PropertyFlipper(o)(x, p)} | |p| == |x|
      ensures Whole(Other(o), PROPERTIES, FlipProperty(o, x, p))
      ensures DecodeProperty(Other(o), FlipProperty(o, x, p)) == DecodeProperty(o, x)
    {
      PropertyFlips(o, x, p);
    }
  }

  lemma PropertyUndone(o: Order, x: seq<byte>)
    requires KnownProperty(o, x)
    ensures Undone(o, PROPERTIES, x, PropertyFlipper(o), PropertyFlipper(Other(o)), PropertySettler(o))
  {
    forall p, q | |p| == |x| && |q| == |x|
      ensures Whole(Other(o), PROPERTIES, FlipProperty(o, x, p))
      ensures FlipProperty(Other(o), FlipProperty(o, x, p), q) == SettleProperty(o, x, q)
    {
      PropertyFlips(o, x, p);
      PropertyTwice(o, x, p, q);
    }
  }

  function Properties(o: Order, b: seq<byte>): seq<Option<Property>>
    requires Tiled(o, PROPERTIES, b)
  {
    ReadAll(o, PROPERTIES, b, PropertyDecoder(o))
  }

  function FlipProperties(o: Order, b: seq<byte>, p: seq<byte>): (r: seq<byte>)
    requires Tiled(o, PROPERTIES, b) && |p| == |b|
    ensures |r| == |b|
  {
    MapLength(o, PROPERTIES, b, p, PropertyFlipper(o));
    MapTiles(o, PROPERTIES, b, p, PropertyFlipper(o))
  }

  function SettleProperties(o: Order, b: seq<byte>, p: seq<byte>): (r: seq<byte>)
    requires Tiled(o, PROPERTIES, b) && |p| == |b|
    ensures |r| == |b|
  {
    MapLength(o, PROPERTIES, b, p, PropertySettler(o));
    MapTiles(o, PROPERTIES, b, p, PropertySettler(o))
  }

  lemma PropertiesKept(o: Order, b: seq<byte>, p: seq<byte>)
    requires KnownProperties(o, b) && |p| == |b|
    ensures var r := FlipProperties(o, b, p);
            |r| == |b| && KnownProperties(Other(o), r) && Properties(Other(o), r) == Properties(o, b)
  {
    forall i | 0 <= i < |Split(o, PROPERTIES, b)|
      ensures Kept(o, PROPERTIES, Split(o, PROPERTIES, b)[i], PropertyFlipper(o), PropertyDecoder(o),
                   PropertyDecoder(Other(o)))
    {
      PropertyKept(o, Split(o, PROPERTIES, b)[i]);
    }
    MapKept(o, PROPERTIES, b, p, PropertyFlipper(o), PropertyDecoder(o), PropertyDecoder(Other(o)));
    var r := FlipProperties(o, b, p);
    forall i | 0 <= i < |Split(Other(o), PROPERTIES, r)|
      ensures KnownProperty(Other(o), Split(Other(o), PROPERTIES, r)[i])
    {
      assert Properties(Other(o), r)[i] == Properties(o, b)[i];
    }
  }

  lemma PropertiesTwice(o: Order, b: seq<byte>, p: seq<byte>, q: seq<byte>)
    requires KnownProperties(o, b) && |p| == |q| == |b|
    ensures var r := FlipProperties(o, b, p);
            |r| == |b| && KnownProperties(Other(o), r) && FlipProperties(Other(o), r, q) == SettleProperties(o, b, q)
  {
    PropertiesKept(o, b, p);
    forall i | 0 <= i < |Split(o, PROPERTIES, b)|
      ensures Undone(o, PROPERTIES, Split(o, PROPERTIES, b)[i],
                     PropertyFlipper(o), PropertyFlipper(Other(o)), PropertySettler(o))
    {
      PropertyUndone(o, Split(o, PROPERTIES, b)[i]);
    }
    MapUndone(o, PROPERTIES, b, p, q, PropertyFlipper(o), PropertyFlipper(Other(o)), PropertySettler(o));
  }

  predicate KnownQueue(o: Order, x: seq<byte>) {
    Whole(o, QUEUES, x) && KnownProperties(o, x[8..])
  }

  datatype Queue = Queue(id: u32, properties: seq<Option<Property>>)

  function DecodeQueue(o: Order, x: seq<byte>): Option<Queue> {
    if KnownQueue(o, x) then Some(Queue(Get32(o, x, 0), Properties(o, x[8..]))) else None
  }

  /** The eight bytes before the properties: id, length, zeroed padding. */
  function QueueHead(x: seq<byte>): seq<byte>
    requires |x| >= 8
  {
    [x[3], x[2], x[1], x[0], x[5], x[4], 0, 0]
  }

  function FlipQueue(o: Order, x: seq<byte>, p: seq<byte>): seq<byte> {
    if !KnownQueue(o, x) || |p| != |x| then x else QueueHead(x) + FlipProperties(o, x[8..], p[8..])
  }

  /** x with its own padding zeroed and its properties' padding as in p. */
  function SettleQueue(o: Order, x: seq<byte>, p: seq<byte>): seq<byte> {
    if !KnownQueue(o, x) || |p| != |x| then x else x[..6] + [0, 0] + SettleProperties(o, x[8..], p[8..])
  }

  lemma QueueHeadReads(o: Order, x: seq<byte>, r: seq<byte>)
    requires |x| >= 8
    ensures var y := QueueHead(x) + r;
            Get32(Other(o), y, 0) == Get32(o, x, 0) && Get16(Other(o), y, 4) == Get16(o, x, 4) && y[8..] == r
  {
  }

  /** Id, length and every property's type, length and rate survive a conversion. */
  lemma QueueKept(o: Order, x: seq<byte>, p: seq<byte>)
    requires KnownQueue(o, x) && |p| == |x|
    ensures var y := FlipQueue(o, x, p);
            |y| == |x| && KnownQueue(Other(o), y) && DecodeQueue(Other(o), y) == DecodeQueue(o, x)
  {
    PropertiesKept(o, x[8..], p[8..]);
    QueueHeadReads(o, x, FlipProperties(o, x[8..], p[8..]));
    hide QueueHead, FlipProperties, Get16, Get32, Properties;
  }

  lemma QueueHeadTwice(x: seq<byte>, r: seq<byte>)
    requires |x| >= 8
    ensures QueueHead(QueueHead(x) + r) == x[..6] + [0, 0] && (QueueHead(x) + r)[8..] == r
  {
  }

  lemma QueueTwice(o: Order, x: seq<byte>, p: seq<byte>, q: seq<byte>)
    requires KnownQueue(o, x) && |p| == |q| == |x|
    ensures FlipQueue(Other(o), FlipQueue(o, x, p), q) == SettleQueue(o, x, q)
  {
    QueueKept(o, x, p);
    PropertiesTwice(o, x[8..], p[8..], q[8..]);
    hide QueueHead, FlipProperties, SettleProperties, KnownProperties, Get16;
    QueueHeadTwice(x, FlipProperties(o, x[8..], p[8..]));
  }
}
