/**
 What the builders of src/cc_of_msg_prep.c produce against what src/cc_of_err.c
 accepts and lib/cc_byte_order.c reads back.
 */
module Agreement {

  import opened Bytes
  import opened Tlv
  import opened Records
  import opened Regions
  import opened Validator
  import opened Messages
  import opened MsgPrep

  // ----- action regions

  /** A host structure with its padding zeroed. */
  function Settled(x: seq<byte>): seq<byte> {
    ZeroPads(ActionStruct(CodeOf(Host, x)), x)
  }

  function SettledAll(xs: seq<seq<byte>>): (ys: seq<seq<byte>>)
    ensures |ys| == |xs| && forall i :: 0 <= i < |xs| ==> ys[i] == Settled(xs[i])
  {
    seq(|xs|, i requires 0 <= i < |xs| => Settled(xs[i]))
  }

  lemma WireActionIs(x: seq<byte>, q: seq<byte>)
    requires Exact(Host, x) && |q| == |x|
    ensures Exact(Wire, WireAction(x)) && DecodeAction(Wire, WireAction(x)) == DecodeAction(Host, x)
    ensures FlipAction(Wire, WireAction(x), q) == Settled(x)
  {
    FlipHeader(Host, x, Zeros(|x|));
    FlipMeans(Host, x, Zeros(|x|));
    FlipTwice(Host, x, Zeros(|x|), q);
    assert SettleAction(Host, x, q) == Settled(x);
  }

  /** The region the flow mod and packet out loops write is tiled by the wire forms of
      the listed actions, each exactly as long as its type and meaning the same. */
  lemma ActionRegion(xs: seq<seq<byte>>)
    requires AllExact(xs)
    ensures var r := Flatten(WireActions(xs));
            && |r| == |Flatten(xs)| && ExactActions(Wire, r) && KnownActions(Wire, r)
            && Split(Wire, ACTIONS, r) == WireActions(xs)
            && |Actions(Wire, r)| == |xs|
            && forall i :: 0 <= i < |xs| ==> Actions(Wire, r)[i] == DecodeAction(Host, xs[i])
  {
    var ws := WireActions(xs);
    forall i | 0 <= i < |xs|
      ensures Exact(Wire, ws[i]) && DecodeAction(Wire, ws[i]) == DecodeAction(Host, xs[i])
    {
      WireActionIs(xs[i], Zeros(|xs[i]|));
    }
    SplitFlatten(Wire, ACTIONS, ws);
    SameLength(xs, ws);
  }

  /** Walking the region with ntoh_action gives the same list back, padding zeroed. */
  lemma ActionsRoundTrip(xs: seq<seq<byte>>, q: seq<byte>)
    requires AllExact(xs) && |q| == |Flatten(xs)|
    ensures var r := Flatten(WireActions(xs));
            && |r| == |q| && Tiled(Wire, ACTIONS, r)
            && FlipActions(Wire, r, q) == Flatten(SettledAll(xs))
            && Tiled(Host, ACTIONS, FlipActions(Wire, r, q))
            && Split(Host, ACTIONS, FlipActions(Wire, r, q)) == SettledAll(xs)
  {
    ActionRegion(xs);
    RoundTripBytes(xs, q);
    forall i | 0 <= i < |xs| ensures Whole(Host, ACTIONS, SettledAll(xs)[i]) {
      SettledWhole(xs[i]);
    }
    SplitFlatten(Host, ACTIONS, SettledAll(xs));
  }

  lemma SettledWhole(x: seq<byte>)
    requires Exact(Host, x)
    ensures Whole(Host, ACTIONS, Settled(x)) && DecodeAction(Host, Settled(x)) == DecodeAction(Host, x)
  {
    var y := Settled(x);
    assert y[0] == x[0] && y[1] == x[1] && y[2] == x[2] && y[3] == x[3];
    WireActionIs(x, Zeros(|x|));
    FlipHeader(Host, x, Zeros(|x|));
    FlipMeans(Wire, WireAction(x), Zeros(|x|));
  }

  lemma ListHead(xs: seq<seq<byte>>)
    requires xs != []
    ensures Flatten(WireActions(xs)) == WireAction(xs[0]) + Flatten(WireActions(xs[1..]))
    ensures Flatten(SettledAll(xs)) == Settled(xs[0]) + Flatten(SettledAll(xs[1..]))
  {
    assert WireActions(xs)[1..] == WireActions(xs[1..]);
    assert SettledAll(xs)[1..] == SettledAll(xs[1..]);
  }

  lemma {:induction false} RoundTripBytes(xs: seq<seq<byte>>, q: seq<byte>)
    requires AllExact(xs) && |q| == |Flatten(xs)|
    ensures var r := Flatten(WireActions(xs));
            |r| == |q| && Tiled(Wire, ACTIONS, r) && FlipActions(Wire, r, q) == Flatten(SettledAll(xs))
  {
    ActionRegion(xs);
    if xs != [] {
      var w, rest, n := WireAction(xs[0]), Flatten(WireActions(xs[1..])), |xs[0]|;
      WireActionIs(xs[0], q[..n]);
      assert Flipper(Wire)(w, q[..n]) == Settled(xs[0]);
      hide *;
      ListHead(xs);
      ActionRegion(xs[1..]);
      RoundTripBytes(xs[1..], q[n..]);
      MapFirst(Wire, ACTIONS, w, rest, q, Flipper(Wire));
    }
  }

  predicate ActionsOk(xs: seq<seq<byte>>) {
    forall i :: 0 <= i < |xs| ==> DecodeAction(Host, xs[i]).Some? && ActionOk(DecodeAction(Host, xs[i]).value)
  }

  /** The walk over a region of well-formed actions accepts exactly if their fields are in range. */
  lemma RegionOutcome(xs: seq<seq<byte>>, b: seq<byte>, n: nat)
    requires AllExact(xs) && n < 0x1_0000 && n <= |b| && b[..n] == Flatten(WireActions(xs))
    ensures WalkableActions(b, n)
    ensures ActionsOutcome(b, n).code == 0 <==> ActionsOk(xs)
  {
    var ws := WireActions(xs);
    ActionRegion(xs);
    ActionsFold(b, n);
    forall i | 0 <= i < |xs|
      ensures CheckAction()(ws[i]) == 0 <==> ActionOk(DecodeAction(Host, xs[i]).value)
    {
      WireActionIs(xs[i], Zeros(|xs[i]|));
      ActionAccepted(ws[i]);
    }
  }

  // ----- messages: built with arguments in range, and only then, a message validates

  lemma HeaderPasses(m: seq<byte>, type_: byte, xid: u32)
    requires HeaderIs(m, type_, xid) && type_ <= OFPT_QUEUE_GET_CONFIG_REPLY && 8 <= LeastLength(type_) <= |m|
    ensures HeaderOf(m) == 0
    ensures type_ != OFPT_FLOW_MOD ==> ReadableFlowMod(m)
    ensures type_ != OFPT_PACKET_OUT ==> ReadablePacketOut(m)
    ensures type_ != OFPT_STATS_REPLY ==> ReadableFlowStatsReply(m)
    ensures type_ != OFPT_QUEUE_GET_CONFIG_REPLY ==> ReadableQueueConfigReply(m)
  {
    HeaderAccepted(m, type_, LeastLength(type_), 0xffff);
  }

  lemma FlowModInRangeIs(m: seq<byte>, f: FlowModArgs)
    requires |m| >= 72 && FlowModFieldsAre(m, f)
    ensures FlowModInRange(m) <==> FlowModOk(Wire, m, 8, f.command, f.priority, f.outPort, f.flags)
  {
  }

  /** What is asked of a match is asked of the same fields in either byte order. */
  lemma SamePriority(m: seq<byte>, at: nat, x: seq<byte>, from: nat, priority: u16)
    requires at + 40 <= |m| && from + 40 <= |x| && DecodeMatch(Wire, m, at) == DecodeMatch(Host, x, from)
    ensures PrioritizedMatch(Wire, m, at, priority) <==> PrioritizedMatch(Host, x, from, priority)
  {
    hide *;
    PrioritizedIs(Wire, m, at, priority);
    PrioritizedIs(Host, x, from, priority);
  }

  lemma FlowModOkIs(o: Order, b: seq<byte>, at: nat, f: FlowModArgs)
    requires at + 40 <= |b|
    ensures FlowModOk(o, b, at, f.command, f.priority, f.outPort, f.flags) <==>
            && PrioritizedMatch(o, b, at, f.priority) && f.command <= 4
            && (f.command in {3, 4} && f.outPort != 0xffff ==> PortOk(f.outPort))
            && f.flags < 8
  {
  }

  lemma MatchConverted(m: seq<byte>, fields: seq<byte>)
    requires |fields| == 40 && |m| >= 48 && m[8..48] == Mirror(MatchStruct, fields)
    ensures DecodeMatch(Wire, m, 8) == DecodeMatch(Host, fields, 0)
  {
    hide *;
    MatchMeans(Host, fields);
    MatchInside(Wire, m, 8);
    OtherHost();
  }

  lemma OtherHost()
    ensures Other(Host) == Wire
  {
  }

  /** The message of cc_create_flow_mod validates exactly if its match, fields and actions are in range. */
  lemma FlowModAgrees(m: seq<byte>, xid: u32, fields: seq<byte>, f: FlowModArgs, xs: seq<seq<byte>>)
    requires |fields| == 40 && AllExact(xs) && IsFlowMod(m, xid, fields, f, Flatten(WireActions(xs)))
    ensures Readable(m)
    ensures MessageCode(m) == 0 <==>
            FlowModOk(Host, fields, 0, f.command, f.priority, f.outPort, f.flags) && ActionsOk(xs)
  {
    hide *;
    FlowModReadable(m, xid, fields, f, xs);
    BodyDecides(m);
    FlowModInRangeIs(m, f);
    FlowModOkIs(Wire, m, 8, f);
    FlowModOkIs(Host, fields, 0, f);
    MatchConverted(m, fields);
    SamePriority(m, 8, fields, 0, f.priority);
    FlowModFieldsPass(m, ActionsOutcome(m[72..], |m| - 72).code);
  }

  lemma FlowModReadable(m: seq<byte>, xid: u32, fields: seq<byte>, f: FlowModArgs, xs: seq<seq<byte>>)
    requires |fields| == 40 && AllExact(xs) && IsFlowMod(m, xid, fields, f, Flatten(WireActions(xs)))
    ensures Readable(m) && HeaderOf(m) == 0 && |m| >= 72 && m[1] == OFPT_FLOW_MOD
    ensures FlowModFieldsAre(m, f) && m[8..48] == Mirror(MatchStruct, fields)
    ensures WalkableActions(m[72..], |m| - 72)
    ensures ActionsOutcome(m[72..], |m| - 72).code == 0 <==> ActionsOk(xs)
  {
    var n := |m| - 72;
    assert m[72..][..n] == m[72..];
    hide Flatten, WireActions, AllExact, Mirror, FlowModFieldsAre, WalkableActions, ActionsOutcome, ActionsOk,
         HeaderOf;
    RegionOutcome(xs, m[72..], n);
    HeaderPasses(m, OFPT_FLOW_MOD, xid);
  }

  /** The same for cc_create_packet_out; the frame that follows the actions is not looked at. */
  lemma PacketOutAgrees(m: seq<byte>, xid: u32, bufferId: u32, inPort: u16, xs: seq<seq<byte>>, data: seq<byte>)
    requires AllExact(xs) && IsPacketOut(m, xid, bufferId, inPort, Flatten(WireActions(xs)), data)
    ensures Readable(m)
    ensures MessageCode(m) == 0 <==> PortOk(inPort) && ActionsOk(xs)
  {
    hide *;
    PacketOutReadable(m, xid, bufferId, inPort, xs, data);
    BodyDecides(m);
    PacketOutPass(m, ActionsOutcome(m[16..], Get16(Wire, m, 14)).code);
  }

  lemma PacketOutReadable(m: seq<byte>, xid: u32, bufferId: u32, inPort: u16, xs: seq<seq<byte>>, data: seq<byte>)
    requires AllExact(xs) && IsPacketOut(m, xid, bufferId, inPort, Flatten(WireActions(xs)), data)
    ensures Readable(m) && HeaderOf(m) == 0 && |m| >= 16 && m[1] == OFPT_PACKET_OUT && Get16(Wire, m, 12) == inPort
    ensures WalkableActions(m[16..], Get16(Wire, m, 14))
    ensures ActionsOutcome(m[16..], Get16(Wire, m, 14)).code == 0 <==> ActionsOk(xs)
  {
    var n: nat := Get16(Wire, m, 14);
    SubSlice(m, 16, |m|, 0, n);
    hide Flatten, WireActions, AllExact, WalkableActions, ActionsOutcome, ActionsOk, HeaderOf;
    RegionOutcome(xs, m[16..], n);
    HeaderPasses(m, OFPT_PACKET_OUT, xid);
  }

  // ----- features reply

  lemma {:induction false} PortInside(xs: seq<seq<byte>>, i: nat)
    requires i < |xs| && forall j :: 0 <= j < |xs| ==> |xs[j]| == 48
    ensures |Flatten(xs)| == 48 * |xs| && 48 * i + 48 <= |Flatten(xs)|
    ensures Flatten(xs)[48 * i..48 * i + 48] == xs[i]
  {
    PortsLength(xs);
    if i > 0 {
      PortInside(xs[1..], i - 1);
      var r := Flatten(xs[1..]);
      PortsLength(xs[1..]);
      assert xs[0] + r == Flatten(xs);
      assert (xs[0] + r)[48 * i..48 * i + 48] == r[48 * (i - 1)..48 * (i - 1) + 48];
    }
  }

  lemma PortBytes(m: seq<byte>, xs: seq<seq<byte>>, i: nat, at: nat)
    requires i < |xs| && (forall j :: 0 <= j < |xs| ==> |xs[j]| == 48) && |m| == 32 + 48 * |xs| && at == 32 + 48 * i
    requires m[32..] == Flatten(WirePorts(xs))
    ensures at + 48 <= |m| && m[at..at + 48] == Mirror(PhyPortStruct, xs[i])
  {
    PortInside(WirePorts(xs), i);
    hide Flatten, Mirror;
    SubSlice(m, 32, |m|, at - 32, at + 16);
  }

  lemma PortAtIs(m: seq<byte>, i: nat, at: nat)
    requires at == 32 + 48 * i && at + 48 <= |m|
    ensures PortAt(m, i) == DecodePhyPort(Wire, m, at)
  {
  }

  lemma PhyPortAtMeans(m: seq<byte>, xs: seq<seq<byte>>, i: nat)
    requires i < |xs| && (forall j :: 0 <= j < |xs| ==> |xs[j]| == 48) && |m| == 32 + 48 * |xs|
    requires m[32..] == Flatten(WirePorts(xs))
    ensures PortAt(m, i) == DecodePhyPort(Host, xs[i], 0)
  {
    var at := 32 + 48 * i;
    PortBytes(m, xs, i, at);
    hide *;
    PhyPortMeans(Host, xs[i]);
    PhyPortInside(m, at);
    PortAtIs(m, i, at);
  }

  lemma PhyPortInside(m: seq<byte>, at: nat)
    requires at + 48 <= |m|
    ensures DecodePhyPort(Wire, m, at) == DecodePhyPort(Wire, m[at..at + 48], 0)
  {
    SubSlice(m, at, at + 48, 2, 8);
    SubSlice(m, at, at + 48, 8, 24);
  }

  lemma PortCodesMean(m: seq<byte>, xs: seq<seq<byte>>)
    requires (forall j :: 0 <= j < |xs| ==> |xs[j]| == 48) && |m| == 32 + 48 * |xs|
    requires m[32..] == Flatten(WirePorts(xs))
    ensures First(PortCodes(m)) == 0 <==> forall i :: 0 <= i < |xs| ==> PortInRange(Host, xs[i], 0)
  {
    hide PortInRange, PhyPortOk, DecodePhyPort, PhyPortCode;
    forall i | 0 <= i < |xs| ensures PortCodes(m)[i] == 0 <==> PortInRange(Host, xs[i], 0) {
      PortInRangeIs(Host, xs[i], 0);
      PhyPortAtMeans(m, xs, i);
      PhyPortAccepted(DecodePhyPort(Host, xs[i], 0));
    }
  }

  /** The message of cc_create_features_reply validates exactly if it has a table and every port is in range. */
  lemma FeaturesReplyAgrees(m: seq<byte>, xid: u32, datapathId: u64, nBuffers: u32, nTables: byte,
                            capabilities: u32, actions: u32, xs: seq<seq<byte>>)
    requires forall j :: 0 <= j < |xs| ==> |xs[j]| == 48
    requires IsFeaturesReply(m, xid, datapathId, nBuffers, nTables, capabilities, actions, Flatten(WirePorts(xs)))
    ensures Readable(m)
    ensures MessageCode(m) == 0 <==>
            nTables != 0 && forall i :: 0 <= i < |xs| ==> PortInRange(Host, xs[i], 0)
  {
    hide *;
    FeaturesReplyReadable(m, xid, datapathId, nBuffers, nTables, capabilities, actions, xs);
    BodyDecides(m);
    FeaturesPass(m);
    PortCodesMean(m, xs);
  }

  lemma FeaturesReplyReadable(m: seq<byte>, xid: u32, datapathId: u64, nBuffers: u32, nTables: byte,
                              capabilities: u32, actions: u32, xs: seq<seq<byte>>)
    requires forall j :: 0 <= j < |xs| ==> |xs[j]| == 48
    requires IsFeaturesReply(m, xid, datapathId, nBuffers, nTables, capabilities, actions, Flatten(WirePorts(xs)))
    ensures Readable(m) && HeaderOf(m) == 0 && m[1] == OFPT_FEATURES_REPLY && m[20] == nTables
    ensures m[32..] == Flatten(WirePorts(xs)) && |m| == 32 + 48 * |xs| && (|m| - 32) % 48 == 0
  {
    hide *;
    PortsLength(WirePorts(xs));
    FeaturesReplyParts(m, xid, datapathId, nBuffers, nTables, capabilities, actions, Flatten(WirePorts(xs)));
    HeaderPasses(m, OFPT_FEATURES_REPLY, xid);
    FeaturesReadable(m);
  }

  lemma FeaturesReplyParts(m: seq<byte>, xid: u32, datapathId: u64, nBuffers: u32, nTables: byte,
                           capabilities: u32, actions: u32, ports: seq<byte>)
    requires IsFeaturesReply(m, xid, datapathId, nBuffers, nTables, capabilities, actions, ports)
    ensures |m| == 32 + |ports| && HeaderIs(m, OFPT_FEATURES_REPLY, xid) && m[1] == OFPT_FEATURES_REPLY
    ensures m[20] == nTables && m[32..] == ports
    ensures OFPT_FEATURES_REPLY <= OFPT_QUEUE_GET_CONFIG_REPLY && LeastLength(OFPT_FEATURES_REPLY) == 32
    ensures OFPT_FEATURES_REPLY !in {OFPT_FLOW_MOD, OFPT_PACKET_OUT, OFPT_STATS_REPLY, OFPT_QUEUE_GET_CONFIG_REPLY}
  {
    hide Get16, Get32, Get64;
    assert m[20..24][0] == m[20];
  }

  lemma FeaturesReadable(m: seq<byte>)
    requires |m| >= 8 && m[1] == OFPT_FEATURES_REPLY
    requires ReadableFlowMod(m) && ReadablePacketOut(m) && ReadableFlowStatsReply(m) && ReadableQueueConfigReply(m)
    ensures Readable(m)
  {
  }

  // ----- flow statistics reply

  function Verdict(o: Order): seq<byte> -> bool {
    (x: seq<byte>) => Exact(o, x) && ActionOk(DecodeAction(o, x).value)
  }

  /** Every action is as long as its type, with its fields in range. */
  predicate ActionsInRange(o: Order, b: seq<byte>)
    requires Tiled(o, ACTIONS, b)
  {
    forall i :: 0 <= i < |ReadAll(o, ACTIONS, b, Verdict(o))| ==> ReadAll(o, ACTIONS, b, Verdict(o))[i]
  }

  lemma VerdictKept(o: Order, b: seq<byte>, p: seq<byte>)
    requires KnownActions(o, b) && |p| == |b|
    ensures Tiled(Other(o), ACTIONS, FlipActions(o, b, p))
    ensures ActionsInRange(Other(o), FlipActions(o, b, p)) <==> ActionsInRange(o, b)
  {
    forall i | 0 <= i < |Split(o, ACTIONS, b)|
      ensures Kept(o, ACTIONS, Split(o, ACTIONS, b)[i], Flipper(o), Verdict(o), Verdict(Other(o)))
    {
      var x := Split(o, ACTIONS, b)[i];
      forall q {:trigger Flipper(o)(x, q)} | |q| == |x|
        ensures Whole(Other(o), ACTIONS, FlipAction(o, x, q))
        ensures Verdict(Other(o))(FlipAction(o, x, q)) == Verdict(o)(x)
      {
        FlipHeader(o, x, q);
        FlipMeans(o, x, q);
      }
    }
    MapKept(o, ACTIONS, b, p, Flipper(o), Verdict(o), Verdict(Other(o)));
  }

  lemma NoneFails(b: seq<byte>)
    requires Tiled(Wire, ACTIONS, b)
    ensures FirstFailure(CheckAction(), Split(Wire, ACTIONS, b)) == 0 <==> ActionsInRange(Wire, b)
  {
    var cs, vs := Split(Wire, ACTIONS, b), ReadAll(Wire, ACTIONS, b, Verdict(Wire));
    forall i | 0 <= i < |cs| ensures CheckAction()(cs[i]) == 0 <==> vs[i] {
      ActionAccepted(cs[i]);
    }
  }

  lemma WalkInRange(b: seq<byte>)
    requires |b| < 0x1_0000 && Tiled(Wire, ACTIONS, b)
    ensures WalkableActions(b, |b|)
    ensures ActionsOutcome(b, |b|).code == 0 <==> ActionsInRange(Wire, b)
  {
    assert b[..|b|] == b;
    hide *;
    ActionsFold(b, |b|);
    NoneFails(b);
  }

  /** A flow record in host order whose match, priority and actions are in range. */
  predicate FlowOk(x: seq<byte>) {
    && KnownFlow(Host, x) && PrioritizedMatch(Host, x, 4, Get16(Host, x, 52))
    && ActionsInRange(Host, x[88..])
  }

  lemma FlowHeadKept(x: seq<byte>)
    requires KnownFlow(Host, x)
    ensures var w := WireFlow(x);
            && Whole(Wire, FLOWS, w) && |w| == |x|
            && DecodeMatch(Wire, w, 4) == DecodeMatch(Host, x, 4) && Get16(Wire, w, 52) == Get16(Host, x, 52)
            && w[88..] == FlipActions(Host, x[88..], Zeros(|x|)[88..])
  {
    var w := WireFlow(x);
    FlowKept(Host, x, Zeros(|x|));
    assert w[88..] == FlipActions(Host, x[88..], Zeros(|x|)[88..]);
    assert DecodeFlowStats(Wire, w[..88]).fields == DecodeMatch(Wire, w[..88], 4);
    MatchPrefix(Wire, w);
    MatchPrefix(Host, x);
    assert DecodeFlowStats(Wire, w[..88]).priority == DecodeFlowStats(Host, x[..88]).priority;
  }

  lemma MatchPrefix(o: Order, x: seq<byte>)
    requires |x| >= 88
    ensures DecodeMatch(o, x[..88], 4) == DecodeMatch(o, x, 4)
    ensures DecodeFlowStats(o, x[..88]).priority == Get16(o, x, 52)
  {
    SubSlice(x, 0, 88, 10, 16);
    SubSlice(x, 0, 88, 16, 22);
  }

  lemma FlowActionsMean(x: seq<byte>)
    requires KnownFlow(Host, x)
    ensures |WireFlow(x)| == |x| && WalkableActions(WireFlow(x)[88..], |x| - 88)
    ensures ActionsOutcome(WireFlow(x)[88..], |x| - 88).code == 0 <==> ActionsInRange(Host, x[88..])
  {
    FlowHeadKept(x);
    hide WireFlow, FlipActions, Zeros, ActionsInRange, ActionsOutcome, WalkableActions;
    VerdictKept(Host, x[88..], Zeros(|x|)[88..]);
    assert |WireFlow(x)[88..]| == |x| - 88;
    WalkInRange(WireFlow(x)[88..]);
  }

  lemma FlowCodeMeans(x: seq<byte>)
    requires KnownFlow(Host, x)
    ensures WalkableFlow(WireFlow(x)) && (FlowCode(WireFlow(x)) == 0 <==> FlowOk(x))
  {
    hide WireFlow, KnownFlow, DecodeMatch, ActionsOutcome, WalkableActions, ActionsInRange, PrioritizedMatch, FlowCode,
         Get16;
    FlowActionsMean(x);
    FlowHeadKept(x);
    assert |x| >= 88;
    SamePriority(WireFlow(x), 4, x, 4, Get16(Host, x, 52));
    FlowCodeZero(WireFlow(x));
  }

  lemma FlowsMean(xs: seq<seq<byte>>)
    requires AllKnownFlows(xs)
    ensures forall i :: 0 <= i < |xs| ==>
              var w := WireFlows(xs)[i];
              Whole(Wire, FLOWS, w) && WalkableFlow(w) && (FlowCode(w) == 0 <==> FlowOk(xs[i]))
  {
    forall i | 0 <= i < |xs|
      ensures var w := WireFlows(xs)[i];
              Whole(Wire, FLOWS, w) && WalkableFlow(w) && (FlowCode(w) == 0 <==> FlowOk(xs[i]))
    {
      FlowHeadKept(xs[i]);
      FlowCodeMeans(xs[i]);
    }
  }

  /** The message of cc_create_flow_stats_reply validates exactly if its flags and every record are in range. */
  lemma FlowStatsReplyAgrees(m: seq<byte>, xid: u32, flags: u16, xs: seq<seq<byte>>)
    requires AllKnownFlows(xs)
    requires IsFlowStatsReply(m, xid, flags, Flatten(WireFlows(xs)))
    ensures Readable(m)
    ensures MessageCode(m) == 0 <==> flags < 2 && forall i :: 0 <= i < |xs| ==> FlowOk(xs[i])
  {
    hide *;
    FlowStatsReplyReadable(m, xid, flags, xs);
    FlowReplyBody(m);
    FlowsMean(xs);
    FlowResultsPass(WireFlows(xs));
  }

  lemma FlowStatsReplyReadable(m: seq<byte>, xid: u32, flags: u16, xs: seq<seq<byte>>)
    requires AllKnownFlows(xs)
    requires IsFlowStatsReply(m, xid, flags, Flatten(WireFlows(xs)))
    ensures Readable(m) && HeaderOf(m) == 0 && |m| >= 12 && m[1] == OFPT_STATS_REPLY && Get16(Wire, m, 10) == flags
    ensures WalkableFlows(WireFlows(xs)) && Split(Wire, FLOWS, m[12..]) == WireFlows(xs)
  {
    var ws := WireFlows(xs);
    FlowsMean(xs);
    assert AllWhole(Wire, FLOWS, ws) && WalkableFlows(ws) && Sound(FLOWS);
    hide Flatten, WireFlows, AllKnownFlows, WalkableFlow, Whole, AllWhole, HeaderOf, FlowCode, FlowOk;
    SplitFlatten(Wire, FLOWS, ws);
    HeaderPasses(m, OFPT_STATS_REPLY, xid);
  }

  // ----- queue configuration reply

  /** A queue with at least one property, each of the length its type requires. */
  predicate QueueOk(x: seq<byte>) {
    && KnownQueue(Host, x) && 16 <= |x|
    && forall i :: 0 <= i < |Properties(Host, x[8..])| ==> PropertyOk(Properties(Host, x[8..])[i].value)
  }

  lemma PropertiesOutcomeMeans(b: seq<byte>)
    requires |b| < 0x1_0000 && KnownProperties(Wire, b)
    ensures WalkableProperties(b)
    ensures PropertiesOutcome(b).code == 0 <==>
            forall i :: 0 <= i < |Properties(Wire, b)| ==> PropertyOk(Properties(Wire, b)[i].value)
  {
    PropertiesTiled(b);
    forall i | 0 <= i < |Split(Wire, PROPERTIES, b)|
      ensures CheckProperty()(Split(Wire, PROPERTIES, b)[i]) == 0 <==> PropertyOk(Properties(Wire, b)[i].value)
    {
      PropertyAccepted(Split(Wire, PROPERTIES, b)[i]);
    }
  }

  lemma QueueCodeMeans(x: seq<byte>)
    requires KnownQueue(Host, x)
    ensures var w := WireQueue(x);
            && WalkableQueue(w) && |w| == |x|
            && (16 <= |w| && PropertiesOutcome(w[8..]).code == 0 <==> QueueOk(x))
  {
    var p := Zeros(|x|);
    QueueKept(Host, x, p);
    PropertiesKept(Host, x[8..], p[8..]);
    assert WireQueue(x)[8..] == FlipProperties(Host, x[8..], p[8..]);
    PropertiesOutcomeMeans(WireQueue(x)[8..]);
  }

  /** The message of cc_create_queue_get_config_reply, with at least one queue, validates
      exactly if the port and every queue are in range. */
  lemma QueueConfigReplyAgrees(m: seq<byte>, xid: u32, port: u16, xs: seq<seq<byte>>)
    requires xs != [] && AllKnownQueues(xs)
    requires IsQueueConfigReply(m, xid, port, Flatten(WireQueues(xs)))
    ensures Readable(m)
    ensures MessageCode(m) == 0 <==> PortOk(port) && forall i :: 0 <= i < |xs| ==> QueueOk(xs[i])
  {
    hide *;
    QueueConfigReplyReadable(m, xid, port, xs);
    QueueRegion(xs, m[16..]);
    QueueReplyBody(m);
  }

  lemma QueueConfigReplyReadable(m: seq<byte>, xid: u32, port: u16, xs: seq<seq<byte>>)
    requires xs != [] && AllKnownQueues(xs)
    requires IsQueueConfigReply(m, xid, port, Flatten(WireQueues(xs)))
    ensures Readable(m) && HeaderOf(m) == 0 && |m| >= 24 && m[1] == OFPT_QUEUE_GET_CONFIG_REPLY
    ensures Get16(Wire, m, 8) == port && m[16..] == Flatten(WireQueues(xs))
  {
    hide Flatten, WireQueues, AllKnownQueues, WalkableQueues, HeaderOf, QueueOk;
    QueueRegion(xs, m[16..]);
    HeaderPasses(m, OFPT_QUEUE_GET_CONFIG_REPLY, xid);
  }

  lemma QueueRegion(xs: seq<seq<byte>>, b: seq<byte>)
    requires xs != [] && AllKnownQueues(xs)
    requires b == Flatten(WireQueues(xs))
    ensures |b| >= 8 && Tiled(Wire, QUEUES, b) && Split(Wire, QUEUES, b) == WireQueues(xs)
    ensures WalkableQueues(WireQueues(xs))
    ensures QueuesResult(WireQueues(xs)) == 0 <==> forall i :: 0 <= i < |xs| ==> QueueOk(xs[i])
  {
    var ws := WireQueues(xs);
    assert ws != [] && Sound(QUEUES);
    QueuesMean(xs);
    hide *;
    SplitFlatten(Wire, QUEUES, ws);
    FlattenFirst(ws);
  }

  lemma FlattenFirst(ws: seq<seq<byte>>)
    requires ws != []
    ensures |Flatten(ws)| >= |ws[0]|
  {
  }

  lemma QueuesMean(xs: seq<seq<byte>>)
    requires AllKnownQueues(xs)
    ensures |WireQueues(xs)| == |xs| && AllWhole(Wire, QUEUES, WireQueues(xs))
    ensures forall i :: 0 <= i < |xs| ==> |WireQueues(xs)[i]| >= 8
    ensures WalkableQueues(WireQueues(xs))
    ensures QueuesResult(WireQueues(xs)) == 0 <==> forall i :: 0 <= i < |xs| ==> QueueOk(xs[i])
  {
    var ws := WireQueues(xs);
    forall i | 0 <= i < |xs|
      ensures Whole(Wire, QUEUES, ws[i]) && WalkableQueue(ws[i]) && |ws[i]| >= 8
      ensures 16 <= |ws[i]| && PropertiesOutcome(ws[i][8..]).code == 0 <==> QueueOk(xs[i])
    {
      QueueCodeMeans(xs[i]);
    }
    hide QueueOk, WireQueue, PropertiesOutcome, QueuesResult, Whole, WalkableQueue;
    QueuesPass(ws);
  }
}
