/**
 The structures and messages of OpenFlow 1.0.0 (section 5) byte by byte: what the
 definitions of the other modules come to, said in positions, literal numbers and
 the value of a run of bytes.
 */
module Layout {

  import opened Bytes
  import opened Options
  import opened Tlv
  import opened Records
  import opened Regions
  import opened ActionList
  import opened MsgPrep

  // ----- where each byte goes when the fields change byte order

  lemma MatchLayout(x: seq<byte>)
    requires |x| == 40
    ensures Mirror(MatchStruct, x) ==
            [x[3], x[2], x[1], x[0], x[5], x[4]] + x[6..18]
            + [x[19], x[18], x[20], 0, x[23], x[22], x[24], x[25], 0, 0]
            + [x[31], x[30], x[29], x[28], x[35], x[34], x[33], x[32], x[37], x[36], x[39], x[38]]
  {
    var y := Mirror(MatchStruct, x);
    assert y[..6] == [x[3], x[2], x[1], x[0], x[5], x[4]];
    assert y[6..18] == x[6..18];
    assert y[18..28] == [x[19], x[18], x[20], 0, x[23], x[22], x[24], x[25], 0, 0];
    assert y[28..] == [x[31], x[30], x[29], x[28], x[35], x[34], x[33], x[32], x[37], x[36], x[39], x[38]];
    assert y == y[..6] + y[6..18] + y[18..28] + y[28..];
  }

  lemma PhyPortLayout(x: seq<byte>)
    requires |x| == 48
    ensures Mirror(PhyPortStruct, x) ==
            [x[1], x[0]] + x[2..24]
            + [x[27], x[26], x[25], x[24], x[31], x[30], x[29], x[28], x[35], x[34], x[33], x[32]]
            + [x[39], x[38], x[37], x[36], x[43], x[42], x[41], x[40], x[47], x[46], x[45], x[44]]
  {
    var y := Mirror(PhyPortStruct, x);
    assert y[..2] == [x[1], x[0]] && y[2..24] == x[2..24];
    assert y[24..36] == [x[27], x[26], x[25], x[24], x[31], x[30], x[29], x[28], x[35], x[34], x[33], x[32]];
    assert y[36..] == [x[39], x[38], x[37], x[36], x[43], x[42], x[41], x[40], x[47], x[46], x[45], x[44]];
    assert y == y[..2] + y[2..24] + y[24..36] + y[36..];
  }

  lemma FlowStatsLayout(x: seq<byte>)
    requires |x| == 88
    ensures Mirror(FlowStatsStruct, x) ==
            [x[1], x[0], x[2], 0] + Mirror(MatchStruct, x[4..44])
            + [x[47], x[46], x[45], x[44], x[51], x[50], x[49], x[48]]
            + [x[53], x[52], x[55], x[54], x[57], x[56], 0, 0, 0, 0, 0, 0]
            + [x[71], x[70], x[69], x[68], x[67], x[66], x[65], x[64]]
            + [x[79], x[78], x[77], x[76], x[75], x[74], x[73], x[72]]
            + [x[87], x[86], x[85], x[84], x[83], x[82], x[81], x[80]]
  {
    var y := Mirror(FlowStatsStruct, x);
    FlowStatsMatch(x);
    assert y[..4] == [x[1], x[0], x[2], 0];
    assert y[44..52] == [x[47], x[46], x[45], x[44], x[51], x[50], x[49], x[48]];
    assert y[52..64] == [x[53], x[52], x[55], x[54], x[57], x[56], 0, 0, 0, 0, 0, 0];
    assert y[64..72] == [x[71], x[70], x[69], x[68], x[67], x[66], x[65], x[64]];
    assert y[72..80] == [x[79], x[78], x[77], x[76], x[75], x[74], x[73], x[72]];
    assert y[80..] == [x[87], x[86], x[85], x[84], x[83], x[82], x[81], x[80]];
    hide Mirror;
    assert y == y[..4] + y[4..44] + y[44..52] + y[52..64] + y[64..72] + y[72..80] + y[80..];
  }

  /** An action over the bytes p: its type's own length is converted, the rest of p stays. */
  lemma ActionLayout(o: Order, x: seq<byte>, p: seq<byte>)
    requires Known(o, x) && |p| == |x|
    ensures |x| >= 8 && (Get16(o, x, 0) in {4, 5, 11} ==> |x| >= 16)
    ensures FlipAction(o, x, p) ==
            [x[1], x[0], x[3], x[2]] +
            match Get16(o, x, 0)
            case 0 => [x[5], x[4], x[7], x[6]] + p[8..]
            case 1 => [x[5], x[4], 0, 0] + p[8..]
            case 2 => [x[4], 0, 0, 0] + p[8..]
            case 3 => [0, 0, 0, 0] + p[8..]
            case 4 => x[4..10] + [0, 0, 0, 0, 0, 0] + p[16..]
            case 5 => x[4..10] + [0, 0, 0, 0, 0, 0] + p[16..]
            case 6 => [x[7], x[6], x[5], x[4]] + p[8..]
            case 7 => [x[7], x[6], x[5], x[4]] + p[8..]
            case 8 => [x[4], 0, 0, 0] + p[8..]
            case 9 => [x[5], x[4], 0, 0] + p[8..]
            case 10 => [x[5], x[4], 0, 0] + p[8..]
            case 11 => [x[5], x[4], 0, 0, 0, 0, 0, 0, x[15], x[14], x[13], x[12]] + p[16..]
            case _ => [x[7], x[6], x[5], x[4]] + x[8..]
  {
    hide Get16, Get32;
  }

  /** A property over the bytes p: its header is converted, of a minimum rate the rate as well. */
  lemma PropertyLayout(o: Order, x: seq<byte>, p: seq<byte>)
    requires KnownProperty(o, x) && |p| == |x|
    ensures |x| >= 8 && (Get16(o, x, 0) == 1 ==> |x| >= 16)
    ensures FlipProperty(o, x, p) ==
            [x[1], x[0], x[3], x[2]] + p[4..8] + if Get16(o, x, 0) == 1 then [x[9], x[8]] + p[10..] else p[8..]
  {
    hide Get16;
    var y := FlipProperty(o, x, p);
    assert y[..8] == [x[1], x[0], x[3], x[2]] + p[4..8];
    if Get16(o, x, 0) == 1 {
      assert y[8..] == [x[9], x[8]] + p[10..];
    } else {
      assert y[8..] == p[8..];
    }
    assert y == y[..8] + y[8..];
  }

  lemma QueueLayout(o: Order, x: seq<byte>, p: seq<byte>)
    requires KnownQueue(o, x) && |p| == |x|
    ensures |x| >= 8 && KnownProperties(o, x[8..])
    ensures FlipQueue(o, x, p) ==
            [x[3], x[2], x[1], x[0], x[5], x[4], 0, 0] + FlipProperties(o, x[8..], p[8..])
  {
    hide FlipProperties, KnownProperties, Get16;
  }

  // ----- where the elements of a region end

  /** Actions and properties have their length at 2, queues at 4, flow records at 0; the least is 8, 8, 8 and 88. */
  lemma Boundary(o: Order, k: Kind, at: nat, min: nat, b: seq<byte>)
    requires b != [] && (k, at, min) in {(ACTIONS, 2, 8), (PROPERTIES, 2, 8), (QUEUES, 4, 8), (FLOWS, 0, 88)}
    ensures Tiled(o, k, b) <==>
            at + 2 <= |b| && min <= Get16(o, b, at) <= |b| && Tiled(o, k, b[Get16(o, b, at)..])
    ensures Tiled(o, k, b) ==> Split(o, k, b) == [b[..Get16(o, b, at)]] + Split(o, k, b[Get16(o, b, at)..])
  {
    hide Get16;
  }

  // ----- what the bytes mean

  /** The fields of a match, each at its place, a number with its most significant byte first. */
  lemma MatchOnWire(b: seq<byte>, at: nat)
    requires at + 40 <= |b|
    ensures var f := DecodeMatch(Wire, b, at);
            && f.wildcards == Number(b[at..at + 4]) && f.inPort == Number(b[at + 4..at + 6])
            && f.dlSrc == b[at + 6..at + 12] && f.dlDst == b[at + 12..at + 18]
            && f.dlVlan == Number(b[at + 18..at + 20]) && f.dlVlanPcp == b[at + 20]
            && f.dlType == Number(b[at + 22..at + 24]) && f.nwTos == b[at + 24] && f.nwProto == b[at + 25]
            && f.nwSrc == Number(b[at + 28..at + 32]) && f.nwDst == Number(b[at + 32..at + 36])
            && f.tpSrc == Number(b[at + 36..at + 38]) && f.tpDst == Number(b[at + 38..at + 40])
  {
    hide Number, Get16, Get32;
    OnWire32(b, at);
    OnWire16(b, at + 4);
    OnWire16(b, at + 18);
    OnWire16(b, at + 22);
    OnWire32(b, at + 28);
    OnWire32(b, at + 32);
    OnWire16(b, at + 36);
    OnWire16(b, at + 38);
  }

  lemma FlowStatsOnWire(b: seq<byte>)
    requires |b| >= 88
    ensures var f := DecodeFlowStats(Wire, b);
            && f.length == Number(b[0..2]) && f.tableId == b[2] && f.fields == DecodeMatch(Wire, b, 4)
            && f.durationSec == Number(b[44..48]) && f.durationNsec == Number(b[48..52])
            && f.priority == Number(b[52..54]) && f.idleTimeout == Number(b[54..56])
            && f.hardTimeout == Number(b[56..58]) && f.cookie == Number(b[64..72])
            && f.packetCount == Number(b[72..80]) && f.byteCount == Number(b[80..88])
  {
    hide Number, Get16, Get32, Get64, DecodeMatch;
    OnWire16(b, 0);
    OnWire32(b, 44);
    OnWire32(b, 48);
    OnWire16(b, 52);
    OnWire16(b, 54);
    OnWire16(b, 56);
    OnWire64(b, 64);
    OnWire64(b, 72);
    OnWire64(b, 80);
  }

  lemma PhyPortOnWire(b: seq<byte>, at: nat)
    requires at + 48 <= |b|
    ensures var p := DecodePhyPort(Wire, b, at);
            && p.portNo == Number(b[at..at + 2]) && p.hwAddr == b[at + 2..at + 8] && p.name == b[at + 8..at + 24]
            && p.config == Number(b[at + 24..at + 28]) && p.state == Number(b[at + 28..at + 32])
            && p.curr == Number(b[at + 32..at + 36]) && p.advertised == Number(b[at + 36..at + 40])
            && p.supported == Number(b[at + 40..at + 44]) && p.peer == Number(b[at + 44..at + 48])
  {
    hide Number, Get16, Get32;
    OnWire16(b, at);
    OnWire32(b, at + 24);
    OnWire32(b, at + 28);
    OnWire32(b, at + 32);
    OnWire32(b, at + 36);
    OnWire32(b, at + 40);
    OnWire32(b, at + 44);
  }

  /** Which bytes are an action, and which one, by its type. */
  lemma ActionMeaning(o: Order, x: seq<byte>)
    ensures DecodeAction(o, x) != None <==>
            && 8 <= |x| && Get16(o, x, 2) == |x| && (Get16(o, x, 0) <= 11 || Get16(o, x, 0) == 0xffff)
            && (Get16(o, x, 0) in {4, 5, 11} ==> 16 <= |x|)
    ensures DecodeAction(o, x) != None ==>
              DecodeAction(o, x).value ==
              match Get16(o, x, 0)
              case 0 => Output(Get16(o, x, 4), Get16(o, x, 6))
              case 1 => SetVlanVid(Get16(o, x, 4))
              case 2 => SetVlanPcp(x[4])
              case 3 => StripVlan
              case 4 => SetDlAddr(true, x[4..10])
              case 5 => SetDlAddr(false, x[4..10])
              case 6 => SetNwAddr(true, Get32(o, x, 4))
              case 7 => SetNwAddr(false, Get32(o, x, 4))
              case 8 => SetNwTos(x[4])
              case 9 => SetTpPort(true, Get16(o, x, 4))
              case 10 => SetTpPort(false, Get16(o, x, 4))
              case 11 => Enqueue(Get16(o, x, 4), Get32(o, x, 12))
              case _ => Vendor(Get32(o, x, 4), x[8..])
  {
    hide Get16, Get32;
  }

  lemma PropertyMeaning(o: Order, x: seq<byte>)
    ensures DecodeProperty(o, x) != None <==>
            8 <= |x| && Get16(o, x, 2) == |x| && (Get16(o, x, 0) == 1 ==> 16 <= |x|)
    ensures DecodeProperty(o, x) != None ==>
              DecodeProperty(o, x).value ==
              Property(Get16(o, x, 0), |x|, if Get16(o, x, 0) == 1 then Some(Get16(o, x, 8)) else None)
  {
    hide Get16;
  }

  /** A queue: id, length, two bytes of padding, properties end to end. */
  lemma QueueMeaning(o: Order, x: seq<byte>)
    ensures DecodeQueue(o, x) != None <==>
            && 8 <= |x| && Get16(o, x, 4) == |x| && Tiled(o, PROPERTIES, x[8..])
            && forall i :: 0 <= i < |Split(o, PROPERTIES, x[8..])| ==>
                             DecodeProperty(o, Split(o, PROPERTIES, x[8..])[i]) != None
    ensures DecodeQueue(o, x) != None ==>
              var q, cs := DecodeQueue(o, x).value, Split(o, PROPERTIES, x[8..]);
              && q.id == Get32(o, x, 0) && |q.properties| == |cs|
              && forall i :: 0 <= i < |cs| ==> q.properties[i] == DecodeProperty(o, cs[i])
  {
    hide Get16, Get32, KnownProperty;
    if 8 <= |x| && Tiled(o, PROPERTIES, x[8..]) {
      PropertiesKnown(o, x[8..]);
    }
  }

  lemma PropertiesKnown(o: Order, b: seq<byte>)
    requires Tiled(o, PROPERTIES, b)
    ensures KnownProperties(o, b) <==>
            forall i :: 0 <= i < |Split(o, PROPERTIES, b)| ==> DecodeProperty(o, Split(o, PROPERTIES, b)[i]) != None
  {
    var cs := Split(o, PROPERTIES, b);
    if forall i :: 0 <= i < |cs| ==> DecodeProperty(o, cs[i]) != None {
      forall i | 0 <= i < |cs| ensures KnownProperty(o, cs[i]) {
        assert DecodeProperty(o, cs[i]) != None;
      }
    }
    if KnownProperties(o, b) {
      forall i | 0 <= i < |cs| ensures DecodeProperty(o, cs[i]) != None {
        assert KnownProperty(o, cs[i]);
      }
    }
  }

  // ----- what the list of actions stores, in host order

  /** The bytes of every action a list may hold; numbers have their least significant byte first. */
  lemma ActionStored(x: seq<byte>, a: Action)
    requires Is(x, a)
    ensures match a
            case Output(port, maxLen) =>
              |x| == 8 && x[..4] == [0, 0, 8, 0] && Number([x[5], x[4]]) == port && Number([x[7], x[6]]) == maxLen
            case SetVlanVid(vid) => |x| == 8 && x[..4] == [1, 0, 8, 0] && Number([x[5], x[4]]) == vid
            case SetVlanPcp(pcp) => |x| == 8 && x[..5] == [2, 0, 8, 0, pcp]
            case StripVlan => |x| == 8 && x[..4] == [3, 0, 8, 0]
            case SetDlAddr(isSource, mac) =>
              |x| == 16 && x[..4] == [if isSource then 4 else 5, 0, 16, 0] && x[4..10] == mac
            case SetNwAddr(isSource, addr) =>
              && |x| == 8 && x[..4] == [if isSource then 6 else 7, 0, 8, 0]
              && Number([x[7], x[6], x[5], x[4]]) == addr
            case SetNwTos(tos) => |x| == 8 && x[..5] == [8, 0, 8, 0, tos]
            case SetTpPort(isSource, port) =>
              |x| == 8 && x[..4] == [if isSource then 9 else 10, 0, 8, 0] && Number([x[5], x[4]]) == port
            case Enqueue(port, queueId) =>
              && |x| == 16 && x[..4] == [11, 0, 16, 0] && Number([x[5], x[4]]) == port
              && Number([x[15], x[14], x[13], x[12]]) == queueId
            case Vendor(vendor, body) =>
              && |x| == 8 + |body| && x[..2] == [0xff, 0xff] && Number([x[3], x[2]]) == |x|
              && Number([x[7], x[6], x[5], x[4]]) == vendor && x[8..] == body
  {
    hide Get16, Get32, Number;
    ActionMeaning(Host, x);
    StoredLength(x, a);
    InHost16(x, 2);
    InHost16(x, 4);
    InHost16(x, 6);
    InHost32(x, 4);
    if a.Enqueue? {
      InHost32(x, 12);
    }
    TypeAndLength(x);
  }

  lemma StoredLength(x: seq<byte>, a: Action)
    requires Is(x, a)
    ensures 8 <= |x| && Get16(Host, x, 2) == |x|
    ensures Get16(Host, x, 0) != 0xffff ==> |x| == if Get16(Host, x, 0) in {4, 5, 11} then 16 else 8
  {
    hide Get16, Get32;
  }

  lemma TypeAndLength(x: seq<byte>)
    requires 8 <= |x|
    ensures Get16(Host, x, 0) < 0x100 ==> x[0] == Get16(Host, x, 0) && x[1] == 0
    ensures Get16(Host, x, 2) < 0x100 ==> x[2] == Get16(Host, x, 2) && x[3] == 0
    ensures Get16(Host, x, 0) == 0xffff ==> x[0] == 0xff && x[1] == 0xff
  {
  }

  // ----- the messages that are built

  /** Version, type, length and transaction id. */
  lemma HeaderOnWire(m: seq<byte>, type_: byte, xid: u32)
    requires HeaderIs(m, type_, xid)
    ensures 8 <= |m| <= 0xffff && m[..2] == [1, type_] && Number(m[2..4]) == |m| && Number(m[4..8]) == xid
  {
    hide Get16, Get32, Number;
    OnWire16(m, 2);
    OnWire32(m, 4);
  }

  /** A flow mod, type 14: header, converted match, cookie, command, idle and hard timeout, priority,
      buffer id, out port, flags, actions. */
  lemma FlowModOnWire(m: seq<byte>, xid: u32, x: seq<byte>, f: FlowModArgs, actions: seq<byte>)
    requires |x| == 40 && IsFlowMod(m, xid, x, f, actions)
    ensures |m| == 72 + |actions| <= 0xffff
    ensures m[..2] == [1, 14] && Number(m[2..4]) == |m| && Number(m[4..8]) == xid
    ensures m[8..48] ==
            [x[3], x[2], x[1], x[0], x[5], x[4]] + x[6..18]
            + [x[19], x[18], x[20], 0, x[23], x[22], x[24], x[25], 0, 0]
            + [x[31], x[30], x[29], x[28], x[35], x[34], x[33], x[32], x[37], x[36], x[39], x[38]]
    ensures Number(m[48..56]) == f.cookie && Number(m[56..58]) == f.command
    ensures Number(m[58..60]) == f.idleTimeout && Number(m[60..62]) == f.hardTimeout
    ensures Number(m[62..64]) == f.priority && Number(m[64..68]) == f.bufferId
    ensures Number(m[68..70]) == f.outPort && Number(m[70..72]) == f.flags && m[72..] == actions
  {
    FlowModParts(m, xid, x, f, actions);
    hide *;
    HeaderOnWire(m, 14, xid);
    MatchLayout(x);
    OnWire64(m, 48);
    OnWire16(m, 56);
    OnWire16(m, 58);
    OnWire16(m, 60);
    OnWire16(m, 62);
    OnWire32(m, 64);
    OnWire16(m, 68);
    OnWire16(m, 70);
  }

  lemma FlowModParts(m: seq<byte>, xid: u32, x: seq<byte>, f: FlowModArgs, actions: seq<byte>)
    requires |x| == 40 && IsFlowMod(m, xid, x, f, actions)
    ensures |m| == 72 + |actions| && HeaderIs(m, 14, xid) && m[8..48] == Mirror(MatchStruct, x) && m[72..] == actions
    ensures Get64(Wire, m, 48) == f.cookie && Get16(Wire, m, 56) == f.command
    ensures Get16(Wire, m, 58) == f.idleTimeout && Get16(Wire, m, 60) == f.hardTimeout
    ensures Get16(Wire, m, 62) == f.priority && Get32(Wire, m, 64) == f.bufferId
    ensures Get16(Wire, m, 68) == f.outPort && Get16(Wire, m, 70) == f.flags
  {
    hide HeaderIs, Mirror, Get16, Get32, Get64;
  }

  /** A packet out, type 13: header, buffer id, in port, length of the actions, actions, frame. */
  lemma PacketOutOnWire(m: seq<byte>, xid: u32, bufferId: u32, inPort: u16, actions: seq<byte>, data: seq<byte>)
    requires IsPacketOut(m, xid, bufferId, inPort, actions, data)
    ensures |m| == 16 + |actions| + |data| <= 0xffff
    ensures m[..2] == [1, 13] && Number(m[2..4]) == |m| && Number(m[4..8]) == xid
    ensures Number(m[8..12]) == bufferId && Number(m[12..14]) == inPort && Number(m[14..16]) == |actions|
    ensures m[16..] == actions + data
  {
    assert m[16..] == m[16..16 + |actions|] + m[16 + |actions|..];
    hide HeaderIs, Get16, Get32, Number;
    HeaderOnWire(m, 13, xid);
    OnWire32(m, 8);
    OnWire16(m, 12);
    OnWire16(m, 14);
  }

  /** A features reply, type 6: header, datapath id, buffers, tables, padding, capabilities, actions, ports. */
  lemma FeaturesReplyOnWire(m: seq<byte>, xid: u32, datapathId: u64, nBuffers: u32, nTables: byte, capabilities: u32,
                            actions: u32, ports: seq<byte>)
    requires IsFeaturesReply(m, xid, datapathId, nBuffers, nTables, capabilities, actions, ports)
    ensures |m| == 32 + |ports| <= 0xffff
    ensures m[..2] == [1, 6] && Number(m[2..4]) == |m| && Number(m[4..8]) == xid
    ensures Number(m[8..16]) == datapathId && Number(m[16..20]) == nBuffers && m[20..24] == [nTables, 0, 0, 0]
    ensures Number(m[24..28]) == capabilities && Number(m[28..32]) == actions && m[32..] == ports
  {
    hide HeaderIs, Get16, Get32, Get64, Number;
    HeaderOnWire(m, 6, xid);
    OnWire64(m, 8);
    OnWire32(m, 16);
    OnWire32(m, 24);
    OnWire32(m, 28);
  }

  /** A flow statistics reply, type 17 and kind 1: header, kind, flags, records. */
  lemma FlowStatsReplyOnWire(m: seq<byte>, xid: u32, flags: u16, flows: seq<byte>)
    requires IsFlowStatsReply(m, xid, flags, flows)
    ensures |m| == 12 + |flows| <= 0xffff
    ensures m[..2] == [1, 17] && Number(m[2..4]) == |m| && Number(m[4..8]) == xid
    ensures Number(m[8..10]) == 1 && Number(m[10..12]) == flags && m[12..] == flows
  {
    hide HeaderIs, Get16, Number;
    HeaderOnWire(m, 17, xid);
    OnWire16(m, 8);
    OnWire16(m, 10);
  }

  /** A queue configuration reply, type 21: header, port, padding, queues. */
  lemma QueueConfigReplyOnWire(m: seq<byte>, xid: u32, port: u16, queues: seq<byte>)
    requires IsQueueConfigReply(m, xid, port, queues)
    ensures |m| == 16 + |queues| <= 0xffff
    ensures m[..2] == [1, 21] && Number(m[2..4]) == |m| && Number(m[4..8]) == xid
    ensures Number(m[8..10]) == port && m[10..16] == [0, 0, 0, 0, 0, 0] && m[16..] == queues
  {
    hide HeaderIs, Get16, Number;
    HeaderOnWire(m, 21, xid);
    OnWire16(m, 8);
  }
}
