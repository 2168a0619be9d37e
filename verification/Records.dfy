/**
 The structures of OpenFlow 1.0.0 (sections 5.2.1 to 5.2.4, 5.3.5) as byte
 layouts: where each byte of a record lands when its fields change byte order,
 and what the record means in either order.
 */
module Records {

  import opened Bytes
  import opened Options
  import opened Tlv

  // enum ofp_action_type
  const OUTPUT: u16 := 0
  const SET_VLAN_VID: u16 := 1
  const SET_VLAN_PCP: u16 := 2
  const STRIP_VLAN: u16 := 3
  const SET_DL_SRC: u16 := 4
  const SET_DL_DST: u16 := 5
  const SET_NW_SRC: u16 := 6
  const SET_NW_DST: u16 := 7
  const SET_NW_TOS: u16 := 8
  const SET_TP_SRC: u16 := 9
  const SET_TP_DST: u16 := 10
  const ENQUEUE: u16 := 11
  const VENDOR: u16 := 0xffff

  // enum ofp_queue_properties
  const NONE: u16 := 0
  const MIN_RATE: u16 := 1

  datatype Struct = MatchStruct | PhyPortStruct | FlowStatsStruct | ActionStruct(code: u16)

  function MatchFrom(i: nat): int {
    if i < 4 then 3 - i
    else if i < 6 then 9 - i
    else if i < 18 then i
    else if i < 20 then 37 - i
    else if i == 20 then i
    else if i == 21 then -1
    else if i < 24 then 45 - i
    else if i < 26 then i
    else if i < 28 then -1
    else if i < 32 then 59 - i
    else if i < 36 then 67 - i
    else if i < 38 then 73 - i
    else 77 - i
  }

  /** The source byte of byte i of a converted record; -1 where padding is zeroed. */
  function From(r: Struct, i: nat): int {
    match r
    case MatchStruct => MatchFrom(i)
    case PhyPortStruct =>
      if i < 2 then 1 - i
      else if i < 24 then i
      else if i < 28 then 51 - i
      else if i < 32 then 59 - i
      else if i < 36 then 67 - i
      else if i < 40 then 75 - i
      else if i < 44 then 83 - i
      else 91 - i
    case FlowStatsStruct =>
      if i < 2 then 1 - i
      else if i == 2 then i
      else if i == 3 then -1
      else if i < 44 then if MatchFrom(i - 4) < 0 then -1 else MatchFrom(i - 4) + 4
      else if i < 48 then 91 - i
      else if i < 52 then 99 - i
      else if i < 54 then 105 - i
      else if i < 56 then 109 - i
      else if i < 58 then 113 - i
      else if i < 64 then -1
      else if i < 72 then 135 - i
      else if i < 80 then 151 - i
      else 167 - i
    case ActionStruct(code) =>
      if i < 2 then 1 - i
      else if i < 4 then 5 - i
      else if code == OUTPUT then if i < 6 then 9 - i else 13 - i
      else if code in {SET_VLAN_VID, SET_TP_SRC, SET_TP_DST} then if i < 6 then 9 - i else -1
      else if code in {SET_VLAN_PCP, SET_NW_TOS} then if i == 4 then i else -1
      else if code in {SET_DL_SRC, SET_DL_DST} then if i < 10 then i else -1
      else if code in {SET_NW_SRC, SET_NW_DST} then 11 - i
      else if code == ENQUEUE then if i < 6 then 9 - i else if i < 12 then -1 else 27 - i
      else if code == VENDOR then if i < 8 then 11 - i else i
      else -1
  }

  /** sizeof of the record; for a vendor action its header, which any body may follow. */
  function Size(r: Struct): nat {
    match r
    case MatchStruct => 40
    case PhyPortStruct => 48
    case FlowStatsStruct => 88
    case ActionStruct(code) => if code in {SET_DL_SRC, SET_DL_DST, ENQUEUE} then 16 else 8
  }

  function Mirror(r: Struct, x: seq<byte>): (y: seq<byte>)
    ensures |y| == |x|
    ensures forall i {:trigger y[i]} :: 0 <= i < |x| ==> y[i] == if 0 <= From(r, i) < |x| then x[From(r, i)] else 0
  {
    seq(|x|, i requires 0 <= i < |x| => if 0 <= From(r, i) < |x| then x[From(r, i)] else 0)
  }

  function ZeroPads(r: Struct, x: seq<byte>): (y: seq<byte>)
    ensures |y| == |x|
    ensures forall i {:trigger y[i]} :: 0 <= i < |x| ==> y[i] == if From(r, i) < 0 then 0 else x[i]
  {
    seq(|x|, i requires 0 <= i < |x| => if From(r, i) < 0 then 0 else x[i])
  }

  predicate Fits(r: Struct, n: nat) {
    n == Size(r) || (r == ActionStruct(VENDOR) && n > Size(r))
  }

  lemma MatchFromTwice(i: nat)
    requires i < 40
    ensures MatchFrom(i) < 0 || (MatchFrom(i) < 40 && MatchFrom(MatchFrom(i)) == i)
  {
  }

  /** A byte that comes from another one goes there too. */
  lemma FromTwice(r: Struct, n: nat, i: nat)
    requires Fits(r, n) && i < n
    ensures From(r, i) < 0 || (From(r, i) < n && From(r, From(r, i)) == i)
  {
    match r
    case MatchStruct =>
      MatchFromTwice(i);
      hide MatchFrom;
    case FlowStatsStruct =>
      if 4 <= i < 44 {
        MatchFromTwice(i - 4);
      }
      hide MatchFrom;
    case _ =>
  }

  /** Converting twice gives the record back, with its padding zeroed. */
  lemma MirrorTwice(r: Struct, x: seq<byte>)
    requires Fits(r, |x|)
    ensures Mirror(r, Mirror(r, x)) == ZeroPads(r, x)
  {
    forall i | 0 <= i < |x| ensures From(r, i) < 0 || (From(r, i) < |x| && From(r, From(r, i)) == i) {
      FromTwice(r, |x|, i);
    }
    hide From, Fits;
  }

  /** The n bytes at k are those of x in reverse. */
  predicate Reversed(x: seq<byte>, w: seq<byte>, k: nat, n: nat) {
    |w| == |x| && k + n <= |x| && forall i {:trigger w[i]} :: k <= i < k + n ==> w[i] == x[2 * k + n - 1 - i]
  }

  lemma Reversed16(o: Order, x: seq<byte>, w: seq<byte>, k: nat)
    requires Reversed(x, w, k, 2)
    ensures Get16(Other(o), w, k) == Get16(o, x, k)
  {
    assert w[k] == x[k + 1] && w[k + 1] == x[k];
  }

  lemma Reversed32(o: Order, x: seq<byte>, w: seq<byte>, k: nat)
    requires Reversed(x, w, k, 4)
    ensures Get32(Other(o), w, k) == Get32(o, x, k)
  {
    assert w[k] == x[k + 3] && w[k + 1] == x[k + 2] && w[k + 2] == x[k + 1] && w[k + 3] == x[k];
  }

  lemma Reversed64(o: Order, x: seq<byte>, w: seq<byte>, k: nat)
    requires Reversed(x, w, k, 8)
    ensures Get64(Other(o), w, k) == Get64(o, x, k)
  {
    assert w[k] == x[k + 7] && w[k + 1] == x[k + 6] && w[k + 2] == x[k + 5] && w[k + 3] == x[k + 4];
    assert w[k + 4] == x[k + 3] && w[k + 5] == x[k + 2] && w[k + 6] == x[k + 1] && w[k + 7] == x[k];
    HalfReversed(o, x, w, k, k + 4);
    HalfReversed(o, x, w, k + 4, k);
    hide Get32;
  }

  lemma HalfReversed(o: Order, x: seq<byte>, w: seq<byte>, k: nat, at: nat)
    requires k + 4 <= |w| && at + 4 <= |x|
    requires w[k] == x[at + 3] && w[k + 1] == x[at + 2] && w[k + 2] == x[at + 1] && w[k + 3] == x[at]
    ensures Get32(Other(o), w, k) == Get32(o, x, at)
  {
  }

  // ----- actions, section 5.2.4

  predicate Defined(code: u16) {
    code <= ENQUEUE || code == VENDOR
  }

  /** One action of a defined type, long enough for its type. */
  predicate Known(o: Order, x: seq<byte>) {
    Whole(o, ACTIONS, x) && Defined(Get16(o, x, 0)) && Size(ActionStruct(Get16(o, x, 0))) <= |x|
  }

  /** Not longer than its type either. */
  predicate Exact(o: Order, x: seq<byte>) {
    Known(o, x) && Fits(ActionStruct(Get16(o, x, 0)), |x|)
  }

  /** How much of the action the converters write. */
  function Span(code: u16, n: nat): nat {
    if code == VENDOR then n else Size(ActionStruct(code))
  }

  function CodeOf(o: Order, x: seq<byte>): u16 {
    if |x| < 2 then 0 else Get16(o, x, 0)
  }

  /** z as far as an action of this type is written, then the bytes p. */
  function Over(code: u16, z: seq<byte>, p: seq<byte>): (y: seq<byte>)
    ensures |y| == |z|
    ensures forall i {:trigger y[i]} :: 0 <= i < |z| ==> y[i] == if i < Span(code, |z|) || |p| <= i then z[i] else p[i]
  {
    seq(|z|, i requires 0 <= i < |z| => if i < Span(code, |z|) || |p| <= i then z[i] else p[i])
  }

  /** x converted over the bytes p; what lies beyond the type's own length is not written. */
  function FlipAction(o: Order, x: seq<byte>, p: seq<byte>): seq<byte> {
    Over(CodeOf(o, x), Mirror(ActionStruct(CodeOf(o, x)), x), p)
  }

  /** x with its padding zeroed, over the bytes p beyond the type's own length. */
  function SettleAction(o: Order, x: seq<byte>, p: seq<byte>): seq<byte> {
    Over(CodeOf(o, x), ZeroPads(ActionStruct(CodeOf(o, x)), x), p)
  }

  function Flipper(o: Order): Conversion {
    (x: seq<byte>, p: seq<byte>) => FlipAction(o, x, p)
  }

  function Settler(o: Order): Conversion {
    (x: seq<byte>, p: seq<byte>) => SettleAction(o, x, p)
  }

  lemma FlipHeader(o: Order, x: seq<byte>, p: seq<byte>)
    requires Known(o, x) && |p| == |x|
    ensures var y := FlipAction(o, x, p);
            Get16(Other(o), y, 0) == Get16(o, x, 0) && Get16(Other(o), y, 2) == |x| && Known(Other(o), y)
  {
    var y, code := FlipAction(o, x, p), Get16(o, x, 0);
    assert From(ActionStruct(code), 0) == 1 && From(ActionStruct(code), 1) == 0;
    assert y[0] == x[1] && y[1] == x[0] && y[2] == x[3] && y[3] == x[2];
  }

  lemma FlipTwice(o: Order, x: seq<byte>, p: seq<byte>, q: seq<byte>)
    requires Known(o, x) && |p| == |q| == |x|
    ensures FlipAction(Other(o), FlipAction(o, x, p), q) == SettleAction(o, x, q)
  {
    var code, y := Get16(o, x, 0), FlipAction(o, x, p);
    var n := Span(code, |x|);
    FlipHeader(o, x, p);
    MirrorTwice(ActionStruct(code), x[..n]);
    forall i | 0 <= i < n ensures From(ActionStruct(code), i) < 0 || From(ActionStruct(code), i) < n {
    }
    forall i | 0 <= i < n ensures FlipAction(Other(o), y, q)[i] == SettleAction(o, x, q)[i] {
      assert Mirror(ActionStruct(code), Mirror(ActionStruct(code), x[..n]))[i] ==
             ZeroPads(ActionStruct(code), x[..n])[i];
    }
  }

  datatype Action =
    | Output(port: u16, maxLen: u16)
    | SetVlanVid(vid: u16)
    | SetVlanPcp(pcp: byte)
    | StripVlan
    | SetDlAddr(isSource: bool, mac: seq<byte>)
    | SetNwAddr(isSource: bool, addr: u32)
    | SetNwTos(tos: byte)
    | SetTpPort(isSource: bool, tp: u16)
    | Enqueue(port: u16, queueId: u32)
    | Vendor(vendor: u32, body: seq<byte>)

  /** The fields of an action, by its type. */
  function ActionFields(o: Order, code: u16, x: seq<byte>): Action
    requires 8 <= |x| && (code in {SET_DL_SRC, SET_DL_DST, ENQUEUE} ==> 16 <= |x|)
  {
    if code == OUTPUT then Output(Get16(o, x, 4), Get16(o, x, 6))
    else if code == SET_VLAN_VID then SetVlanVid(Get16(o, x, 4))
    else if code == SET_VLAN_PCP then SetVlanPcp(x[4])
    else if code == STRIP_VLAN then StripVlan
    else if code == SET_DL_SRC || code == SET_DL_DST then SetDlAddr(code == SET_DL_SRC, x[4..10])
    else if code == SET_NW_SRC || code == SET_NW_DST then SetNwAddr(code == SET_NW_SRC, Get32(o, x, 4))
    else if code == SET_NW_TOS then SetNwTos(x[4])
    else if code == SET_TP_SRC || code == SET_TP_DST then SetTpPort(code == SET_TP_SRC, Get16(o, x, 4))
    else if code == ENQUEUE then Enqueue(Get16(o, x, 4), Get32(o, x, 12))
    else Vendor(Get32(o, x, 4), x[8..])
  }

  /** What an action's bytes mean in the given byte order. */
  function DecodeAction(o: Order, x: seq<byte>): Option<Action> {
    if Known(o, x) then Some(ActionFields(o, Get16(o, x, 0), x)) else None
  }

  /** Where the n bytes at i of an action of this type land in reverse. */
  predicate Mirrors(code: u16, i: nat, n: nat) {
    forall j {:trigger From(ActionStruct(code), j)} :: i <= j < i + n ==>
             From(ActionStruct(code), j) == 2 * i + n - 1 - j
  }

  lemma FlipReverses(o: Order, x: seq<byte>, p: seq<byte>, i: nat, n: nat)
    requires Known(o, x) && |p| == |x| && Mirrors(Get16(o, x, 0), i, n) && i + n <= Span(Get16(o, x, 0), |x|)
    ensures Reversed(x, FlipAction(o, x, p), i, n)
  {
    var y, code := FlipAction(o, x, p), Get16(o, x, 0);
    assert CodeOf(o, x) == code && Span(code, |x|) <= |x|;
    hide From, Get16, Known, Span;
    forall j {:trigger y[j]} | i <= j < i + n ensures y[j] == x[2 * i + n - 1 - j] {
      assert From(ActionStruct(code), j) == 2 * i + n - 1 - j;
    }
  }

  lemma FlipReads16(o: Order, x: seq<byte>, p: seq<byte>, i: nat)
    requires Known(o, x) && |p| == |x| && Mirrors(Get16(o, x, 0), i, 2) && i + 2 <= Span(Get16(o, x, 0), |x|)
    ensures i + 2 <= |x| == |FlipAction(o, x, p)| && Get16(Other(o), FlipAction(o, x, p), i) == Get16(o, x, i)
  {
    FlipReverses(o, x, p, i, 2);
    assert i + 2 <= |x| == |FlipAction(o, x, p)|;
    hide *;
    Reversed16(o, x, FlipAction(o, x, p), i);
  }

  lemma FlipReads32(o: Order, x: seq<byte>, p: seq<byte>, i: nat)
    requires Known(o, x) && |p| == |x| && Mirrors(Get16(o, x, 0), i, 4) && i + 4 <= Span(Get16(o, x, 0), |x|)
    ensures i + 4 <= |x| == |FlipAction(o, x, p)| && Get32(Other(o), FlipAction(o, x, p), i) == Get32(o, x, i)
  {
    FlipReverses(o, x, p, i, 4);
    assert i + 4 <= |x| == |FlipAction(o, x, p)|;
    hide *;
    Reversed32(o, x, FlipAction(o, x, p), i);
  }

  /** Where the bytes from i on stay where they are. */
  predicate Stays(code: u16, i: nat, n: nat) {
    forall j {:trigger From(ActionStruct(code), j)} :: i <= j < n ==> From(ActionStruct(code), j) == j
  }

  lemma FlipKeeps(o: Order, x: seq<byte>, p: seq<byte>, i: nat, n: nat)
    requires Known(o, x) && |p| == |x| && Stays(Get16(o, x, 0), i, n) && i <= n <= Span(Get16(o, x, 0), |x|)
    ensures n <= |x| == |FlipAction(o, x, p)| && FlipAction(o, x, p)[i..n] == x[i..n]
  {
    var y, code := FlipAction(o, x, p), Get16(o, x, 0);
    assert CodeOf(o, x) == code && Span(code, |x|) <= |x|;
    hide From, Get16, Known, Span;
    forall j {:trigger y[j]} | i <= j < n ensures y[j] == x[j] {
      assert From(ActionStruct(code), j) == j;
    }
  }

  lemma KnownRoom(o: Order, x: seq<byte>, p: seq<byte>)
    requires Known(o, x)
    ensures 8 <= |x| == |FlipAction(o, x, p)| && Size(ActionStruct(Get16(o, x, 0))) <= |x| && Defined(Get16(o, x, 0))
  {
  }

  lemma FieldsMean(o: Order, code: u16, x: seq<byte>, p: seq<byte>)
    requires Known(o, x) && |p| == |x| && code == Get16(o, x, 0)
    ensures |FlipAction(o, x, p)| == |x| >= 8 && (code in {SET_DL_SRC, SET_DL_DST, ENQUEUE} ==> 16 <= |x|)
    ensures ActionFields(Other(o), code, FlipAction(o, x, p)) == ActionFields(o, code, x)
  {
    hide Known, FlipAction, Get16, Get32, Other;
    KnownRoom(o, x, p);
    if code == OUTPUT {
      FlipReads16(o, x, p, 4);
      FlipReads16(o, x, p, 6);
    } else if code in {SET_VLAN_VID, SET_TP_SRC, SET_TP_DST} {
      FlipReads16(o, x, p, 4);
    } else if code in {SET_VLAN_PCP, SET_NW_TOS} {
      FlipKeeps(o, x, p, 4, 5);
      assert x[4..5][0] == x[4] && FlipAction(o, x, p)[4..5][0] == FlipAction(o, x, p)[4];
    } else if code in {SET_DL_SRC, SET_DL_DST} {
      FlipKeeps(o, x, p, 4, 10);
    } else if code in {SET_NW_SRC, SET_NW_DST} {
      FlipReads32(o, x, p, 4);
    } else if code == ENQUEUE {
      FlipReads16(o, x, p, 4);
      FlipReads32(o, x, p, 12);
    } else if code == VENDOR {
      FlipReads32(o, x, p, 4);
      FlipKeeps(o, x, p, 8, |x|);
      assert x[8..|x|] == x[8..] && FlipAction(o, x, p)[8..|x|] == FlipAction(o, x, p)[8..];
    } else {
      assert code == STRIP_VLAN;
    }
  }

  /** Changing byte order keeps the meaning of every action. */
  lemma FlipMeans(o: Order, x: seq<byte>, p: seq<byte>)
    requires Known(o, x) && |p| == |x|
    ensures DecodeAction(Other(o), FlipAction(o, x, p)) == DecodeAction(o, x)
  {
    hide FlipAction, ActionFields, Get16, Known;
    KnownRoom(o, x, p);
    FlipHeader(o, x, p);
    FieldsMean(o, Get16(o, x, 0), x, p);
  }

  // ----- match, flow statistics and port descriptions, sections 5.2.3, 5.3.5 and 5.2.1

  datatype Match = Match(wildcards: u32, inPort: u16, dlSrc: seq<byte>, dlDst: seq<byte>, dlVlan: u16, dlVlanPcp: byte,
                         dlType: u16, nwTos: byte, nwProto: byte, nwSrc: u32, nwDst: u32, tpSrc: u16, tpDst: u16)

  function DecodeMatch(o: Order, x: seq<byte>, at: nat): Match
    requires at + 40 <= |x|
  {
    Match(Get32(o, x, at), Get16(o, x, at + 4), x[at + 6..at + 12], x[at + 12..at + 18], Get16(o, x, at + 18),
          x[at + 20], Get16(o, x, at + 22), x[at + 24], x[at + 25], Get32(o, x, at + 28), Get32(o, x, at + 32),
          Get16(o, x, at + 36), Get16(o, x, at + 38))
  }

  lemma MatchMeans(o: Order, x: seq<byte>)
    requires |x| == 40
    ensures DecodeMatch(Other(o), Mirror(MatchStruct, x), 0) == DecodeMatch(o, x, 0)
  {
    var y := Mirror(MatchStruct, x);
    assert y[6..12] == x[6..12] && y[12..18] == x[12..18];
  }

  datatype FlowStats = FlowStats(length: u16, tableId: byte, fields: Match, durationSec: u32, durationNsec: u32,
                                 priority: u16, idleTimeout: u16, hardTimeout: u16, cookie: u64, packetCount: u64,
                                 byteCount: u64)

  function DecodeFlowStats(o: Order, x: seq<byte>): FlowStats
    requires |x| >= 88
  {
    FlowStats(Get16(o, x, 0), x[2], DecodeMatch(o, x, 4), Get32(o, x, 44), Get32(o, x, 48), Get16(o, x, 52),
              Get16(o, x, 54), Get16(o, x, 56), Get64(o, x, 64), Get64(o, x, 72), Get64(o, x, 80))
  }

  lemma MatchInside(o: Order, x: seq<byte>, at: nat)
    requires at + 40 <= |x|
    ensures DecodeMatch(o, x, at) == DecodeMatch(o, x[at..at + 40], 0)
  {
    SubSlice(x, at, at + 40, 6, 12);
    SubSlice(x, at, at + 40, 12, 18);
  }

  /** Where the numbers of a flow record land. */
  lemma FlowStatsReversed(x: seq<byte>)
    requires |x| == 88
    ensures var w := Mirror(FlowStatsStruct, x);
            && Reversed(x, w, 0, 2) && w[2] == x[2]
            && Reversed(x, w, 44, 4) && Reversed(x, w, 48, 4) && Reversed(x, w, 52, 2) && Reversed(x, w, 54, 2)
            && Reversed(x, w, 56, 2) && Reversed(x, w, 64, 8) && Reversed(x, w, 72, 8) && Reversed(x, w, 80, 8)
  {
  }

  lemma FlowStatsNumbers(o: Order, x: seq<byte>)
    requires |x| == 88
    ensures var y, p := Mirror(FlowStatsStruct, x), Other(o);
            && Get16(p, y, 0) == Get16(o, x, 0) && y[2] == x[2]
            && Get32(p, y, 44) == Get32(o, x, 44) && Get32(p, y, 48) == Get32(o, x, 48)
            && Get16(p, y, 52) == Get16(o, x, 52) && Get16(p, y, 54) == Get16(o, x, 54)
            && Get16(p, y, 56) == Get16(o, x, 56) && Get64(p, y, 64) == Get64(o, x, 64)
            && Get64(p, y, 72) == Get64(o, x, 72) && Get64(p, y, 80) == Get64(o, x, 80)
  {
    hide *;
    var y := Mirror(FlowStatsStruct, x);
    FlowStatsReversed(x);
    Reversed16(o, x, y, 0);
    Reversed32(o, x, y, 44);
    Reversed32(o, x, y, 48);
    Reversed16(o, x, y, 52);
    Reversed16(o, x, y, 54);
    Reversed16(o, x, y, 56);
    Reversed64(o, x, y, 64);
    Reversed64(o, x, y, 72);
    Reversed64(o, x, y, 80);
  }

  lemma FlowStatsMatch(x: seq<byte>)
    requires |x| == 88
    ensures Mirror(FlowStatsStruct, x)[4..44] == Mirror(MatchStruct, x[4..44])
  {
  }

  lemma FlowStatsMeans(o: Order, x: seq<byte>)
    requires |x| == 88
    ensures DecodeFlowStats(Other(o), Mirror(FlowStatsStruct, x)) == DecodeFlowStats(o, x)
  {
    hide Mirror, Get16, Get32, Get64, DecodeMatch;
    var y := Mirror(FlowStatsStruct, x);
    FlowStatsMatch(x);
    MatchMeans(o, x[4..44]);
    MatchInside(o, x, 4);
    MatchInside(Other(o), y, 4);
    FlowStatsNumbers(o, x);
  }

  datatype PhyPort = PhyPort(portNo: u16, hwAddr: seq<byte>, name: seq<byte>, config: u32, state: u32,
                             curr: u32, advertised: u32, supported: u32, peer: u32)

  function DecodePhyPort(o: Order, x: seq<byte>, at: nat): PhyPort
    requires at + 48 <= |x|
  {
    PhyPort(Get16(o, x, at), x[at + 2..at + 8], x[at + 8..at + 24], Get32(o, x, at + 24), Get32(o, x, at + 28),
            Get32(o, x, at + 32), Get32(o, x, at + 36), Get32(o, x, at + 40), Get32(o, x, at + 44))
  }

  lemma PhyPortMeans(o: Order, x: seq<byte>)
    requires |x| == 48
    ensures DecodePhyPort(Other(o), Mirror(PhyPortStruct, x), 0) == DecodePhyPort(o, x, 0)
  {
    var y := Mirror(PhyPortStruct, x);
    assert y[2..8] == x[2..8] && y[8..24] == x[8..24];
  }
}
