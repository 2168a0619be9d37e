/**
 The result codes of src/cc_of_err.c in numbers: which one a message gets, said of its bytes
 in the order of the checks.
 */
module Verdicts {

  import opened Bytes
  import opened Tlv
  import opened Records
  import opened Validator
  import opened Messages

  // ----- fields

  lemma FirstOfFour(a: int, b: int, c: int, d: int)
    ensures First([a, b, c, d]) == if a != 0 then a else if b != 0 then b else if c != 0 then c else d
  {
    FirstAt([a, b, c, d], if a != 0 then 0 else if b != 0 then 1 else if c != 0 then 2 else if d != 0 then 3 else 4);
  }

  /** A match at `at`: wildcards, vlan id, vlan priority and tos, in this order. */
  lemma MatchVerdict(b: seq<byte>, at: nat)
    requires at + 40 <= |b|
    ensures MatchCode(DecodeMatch(Wire, b, at)) ==
            if Get32(Wire, b, at) >= 0x40_0000 then -45
            else if 0x1000 <= Get16(Wire, b, at + 18) < 0xffff then -44
            else if b[at + 20] >= 8 then -43
            else if b[at + 24] % 4 != 0 then -42 else 0
  {
    hide Get16, Get32, First;
    var f := DecodeMatch(Wire, b, at);
    FirstOfFour(Fail(f.wildcards / 0x40_0000 != 0, ERROR_INVALID_WILDCARDS), VlanVidCode(f.dlVlan),
                VlanPcpCode(f.dlVlanPcp), NwTosCode(f.nwTos));
  }

  /** A port description at `at`: port number, configuration, state and features, in this order. */
  lemma PortVerdict(b: seq<byte>, at: nat)
    requires at + 48 <= |b|
    ensures PhyPortCode(DecodePhyPort(Wire, b, at)) ==
            if Get16(Wire, b, at) == 0 || 0xff00 < Get16(Wire, b, at) < 0xfff8 then -52
            else if Get32(Wire, b, at + 24) >= 0x80 then -51
            else if Get32(Wire, b, at + 28) >= 0x400 || Get32(Wire, b, at + 28) % 0x100 >= 2 then -50
            else if Get32(Wire, b, at + 32) >= 0x1000 || Get32(Wire, b, at + 36) >= 0x1000
                    || Get32(Wire, b, at + 40) >= 0x1000 || Get32(Wire, b, at + 44) >= 0x1000 then -49
            else 0
  {
    hide Get16, Get32, First;
    var p := DecodePhyPort(Wire, b, at);
    StateBits(p.state);
    FirstOfFour(PhyPortNoCode(p.portNo),
                Fail(p.config / 0x80 != 0, ERROR_INVALID_PORT_CONFIG),
                Fail(p.state / 0x400 != 0 || p.state / 2 % 0x80 != 0, ERROR_INVALID_PORT_STATE),
                Fail(p.curr / 0x1000 != 0 || p.advertised / 0x1000 != 0 || p.supported / 0x1000 != 0
                     || p.peer / 0x1000 != 0, ERROR_INVALID_PORT_FEATURES));
  }

  /** An action: its least length, its type, its type's own length, its field. */
  lemma ActionVerdict(x: seq<byte>)
    requires 8 <= |x|
    ensures var n := Get16(Wire, x, 2);
            ActionCode(x) ==
            if n < 8 then -36 else
            match Get16(Wire, x, 0)
            case 0 => if n > 8 then -32 else if PortOk(Get16(Wire, x, 4)) then 0 else -52
            case 1 => if n > 8 then -30 else if 0x1000 <= Get16(Wire, x, 4) < 0xffff then -44 else 0
            case 2 => if n > 8 then -28 else if x[4] >= 8 then -43 else 0
            case 3 => if n > 8 then -26 else 0
            case 4 => if n < 16 then -25 else if n > 16 then -24 else 0
            case 5 => if n < 16 then -23 else if n > 16 then -22 else 0
            case 6 => if n > 8 then -20 else 0
            case 7 => if n > 8 then -18 else 0
            case 8 => if n > 8 then -16 else if x[4] % 4 != 0 then -42 else 0
            case 9 => if n > 8 then -14 else 0
            case 10 => if n > 8 then -12 else 0
            case 11 => if n < 16 then -11 else if n > 16 then -10 else if PortOk(Get16(Wire, x, 4)) then 0 else -52
            case 0xffff => 0
            case _ => -35
  {
    hide Get16;
  }

  /** Which port numbers are in range. */
  lemma PortNumbers(port: u16)
    ensures PhyPortNoCode(port) == (if port == 0 || 0xff00 < port < 0xfff8 then -52 else 0)
    ensures PortOk(port) <==> 1 <= port <= 0xff00 || 0xfff8 <= port
  {
  }

  lemma PropertyVerdict(x: seq<byte>)
    requires 4 <= |x|
    ensures var n := Get16(Wire, x, 2);
            PropertyCode(x) ==
            if n < 8 then -39 else
            match Get16(Wire, x, 0)
            case 0 => if n > 8 then -38 else 0
            case 1 => if n < 16 then -39 else if n > 16 then -38 else 0
            case _ => -37
  {
    hide Get16;
  }

  // ----- lists

  /** The first element that fails decides. */
  lemma {:induction false} FailureAt(check: Check, cs: seq<seq<byte>>, i: nat)
    requires i < |cs| && check(cs[i]) != 0 && forall j :: 0 <= j < i ==> check(cs[j]) == 0
    ensures FirstFailure(check, cs) == check(cs[i])
  {
    if i > 0 {
      FailureAt(check, cs[1..], i - 1);
    }
  }

  /** A tiled list whose i-th action is the first that fails gets that action's code. */
  lemma ActionsVerdict(b: seq<byte>, length: nat, i: nat)
    requires length <= |b| && length < 0x1_0000 && Tiled(Wire, ACTIONS, b[..length])
    requires var cs := Split(Wire, ACTIONS, b[..length]);
             i < |cs| && ActionCode(cs[i]) != 0 && forall j :: 0 <= j < i ==> ActionCode(cs[j]) == 0
    ensures WalkableActions(b, length)
    ensures ActionsOutcome(b, length).code == ActionCode(Split(Wire, ACTIONS, b[..length])[i])
  {
    ActionsFold(b, length);
    FailureAt(CheckAction(), Split(Wire, ACTIONS, b[..length]), i);
  }

  lemma PropertiesVerdict(b: seq<byte>, i: nat)
    requires |b| < 0x1_0000 && Tiled(Wire, PROPERTIES, b)
    requires var cs := Split(Wire, PROPERTIES, b);
             i < |cs| && PropertyCode(cs[i]) != 0 && forall j :: 0 <= j < i ==> PropertyCode(cs[j]) == 0
    ensures WalkableProperties(b)
    ensures PropertiesOutcome(b).code == PropertyCode(Split(Wire, PROPERTIES, b)[i])
  {
    PropertiesTiled(b);
    FailureAt(CheckProperty(), Split(Wire, PROPERTIES, b), i);
  }

  /** The i-th code is the first that is not 0. */
  ghost predicate FirstFailing(codes: seq<int>, i: nat) {
    i < |codes| && codes[i] != 0 && forall j :: 0 <= j < i ==> codes[j] == 0
  }

  lemma FailingDecides(codes: seq<int>, i: nat)
    requires FirstFailing(codes, i)
    ensures First(codes) == codes[i]
  {
    FirstAt(codes, i);
  }

  // ----- messages

  /** validate_header, given the type it expects and the bounds of the length. */
  lemma HeaderVerdict(m: seq<byte>, type_: byte, min: nat, max: nat)
    ensures HeaderCode(m, type_, min, max) ==
            if |m| < 8 then -58
            else if m[0] != 1 then -60
            else if m[1] > 21 then -55
            else if m[1] != type_ then -56
            else
              var n := Get16(Wire, m, 2);
              if max < n then -57 else if n < min || |m| < n then -58 else if n < |m| then -57 else 0
  {
    hide Get16;
  }

  /** What the header decides: undefined type, other version, length below the type's least or not the buffer's. */
  lemma MessageHeaderVerdict(m: seq<byte>)
    requires Readable(m)
    ensures var n, least := Get16(Wire, m, 2),
                            match m[1] case 6 => 32 case 13 => 16 case 14 => 72 case 17 => 12 case _ => 24;
            && (m[1] > 21 ==> MessageCode(m) == -55)
            && (m[1] <= 21 && m[0] != 1 ==> MessageCode(m) == -60)
            && (m[1] <= 21 && m[0] == 1 && n < least ==> MessageCode(m) == -58)
            && (m[1] <= 21 && m[0] == 1 && least <= n < |m| ==> MessageCode(m) == -57)
            && (m[1] <= 21 && m[0] == 1 && least <= n && |m| < n ==> MessageCode(m) == -58)
  {
    hide Get16;
  }

  /** The header is in order: what follows decides. */
  lemma HeaderInOrder(m: seq<byte>, least: nat)
    requires Readable(m) && m[0] == 1 && Get16(Wire, m, 2) == |m| && m[1] <= 21 && least <= |m|
    requires least == match m[1] case 6 => 32 case 13 => 16 case 14 => 72 case 17 => 12 case _ => 24
    ensures HeaderOf(m) == 0
  {
    hide Get16;
  }

  /** A flow mod with its header in order. */
  lemma FlowModVerdict(m: seq<byte>)
    requires Readable(m) && m[0] == 1 && m[1] == 14 && 72 <= |m| == Get16(Wire, m, 2)
    ensures WalkableActions(m[72..], |m| - 72)
    ensures MessageCode(m) ==
            if Get32(Wire, m, 8) >= 0x40_0000 then -45
            else if 0x1000 <= Get16(Wire, m, 26) < 0xffff then -44
            else if m[28] >= 8 then -43
            else if m[32] % 4 != 0 then -42
            else if Get16(Wire, m, 56) > 4 then -1
            else if Get32(Wire, m, 8) == 0 && Get16(Wire, m, 62) != 0xffff then -6
            else if Get16(Wire, m, 56) in {3, 4} && Get16(Wire, m, 68) != 0xffff && !PortOk(Get16(Wire, m, 68)) then -52
            else if Get16(Wire, m, 70) >= 8 then -5
            else ActionsOutcome(m[72..], |m| - 72).code
  {
    HeaderInOrder(m, 72);
    BodyDecides(m);
    FlowModBody(m, ActionsOutcome(m[72..], |m| - 72).code);
    hide *;
  }

  lemma FlowModBody(m: seq<byte>, actions: int)
    requires 72 <= |m|
    ensures First(FlowModCodes(m, actions)) ==
            if Get32(Wire, m, 8) >= 0x40_0000 then -45
            else if 0x1000 <= Get16(Wire, m, 26) < 0xffff then -44
            else if m[28] >= 8 then -43
            else if m[32] % 4 != 0 then -42
            else if Get16(Wire, m, 56) > 4 then -1
            else if Get32(Wire, m, 8) == 0 && Get16(Wire, m, 62) != 0xffff then -6
            else if Get16(Wire, m, 56) in {3, 4} && Get16(Wire, m, 68) != 0xffff && !PortOk(Get16(Wire, m, 68)) then -52
            else if Get16(Wire, m, 70) >= 8 then -5
            else actions
  {
    hide Get16, Get32, First, MatchCode, MatchOk, DecodeMatch, ExactMatch, MatchInRange;
    MatchVerdict(m, 8);
    MatchAccepted(DecodeMatch(Wire, m, 8));
    MatchInRangeIs(Wire, m, 8);
    var codes := FlowModCodes(m, actions);
    FirstOfSix(codes[0], codes[1], codes[2], codes[3], codes[4], codes[5]);
    assert codes == [codes[0], codes[1], codes[2], codes[3], codes[4], codes[5]];
  }

  /** A packet out with its header in order. */
  lemma PacketOutVerdict(m: seq<byte>)
    requires Readable(m) && m[0] == 1 && m[1] == 13 && 16 <= |m| == Get16(Wire, m, 2)
    ensures WalkableActions(m[16..], Get16(Wire, m, 14))
    ensures MessageCode(m) ==
            if PortOk(Get16(Wire, m, 12)) then ActionsOutcome(m[16..], Get16(Wire, m, 14)).code else -52
  {
    HeaderInOrder(m, 16);
    BodyDecides(m);
    PortNumbers(Get16(Wire, m, 12));
    hide *;
    PacketOutBody(m, ActionsOutcome(m[16..], Get16(Wire, m, 14)).code);
  }

  lemma PacketOutBody(m: seq<byte>, actions: int)
    requires 16 <= |m|
    ensures First(PacketOutCodes(m, actions)) == if PortOk(Get16(Wire, m, 12)) then actions else -52
  {
    hide Get16, First;
    FirstOfTwo(PhyPortNoCode(Get16(Wire, m, 12)), actions);
  }

  /** A features reply with its header in order: no table, a part of a port, or the i-th port as
      the first that fails. */
  lemma FeaturesReplyVerdict(m: seq<byte>, i: nat)
    requires Readable(m) && m[0] == 1 && m[1] == 6 && 32 <= |m| == Get16(Wire, m, 2)
    ensures m[20] == 0 ==> MessageCode(m) == -53
    ensures m[20] != 0 && (|m| - 32) % 48 != 0 ==> MessageCode(m) == -59
    ensures m[20] != 0 && (|m| - 32) % 48 == 0 && i < (|m| - 32) / 48
            && (forall j :: 0 <= j < i ==> PortInRange(Wire, m, 32 + 48 * j))
            && !PortInRange(Wire, m, 32 + 48 * i) ==>
              MessageCode(m) == PhyPortCode(DecodePhyPort(Wire, m, 32 + 48 * i)) != 0
  {
    HeaderInOrder(m, 32);
    BodyDecides(m);
    hide *;
    FeaturesBody(m);
    if i < (|m| - 32) / 48 && forall j :: 0 <= j < i ==> PortInRange(Wire, m, 32 + 48 * j) {
      FirstBadPort(m, i);
    }
  }

  lemma FeaturesBody(m: seq<byte>)
    requires 32 <= |m|
    ensures First(FeaturesReplyCodes(m)) ==
            if m[20] == 0 then -53 else if (|m| - 32) % 48 != 0 then -59 else First(PortCodes(m))
  {
    var codes := FeaturesReplyCodes(m);
    hide First, PortCodes;
    assert codes == [codes[0], codes[1], codes[2]] && codes[2] == First(PortCodes(m));
    FirstOfThree(codes[0], codes[1], codes[2]);
  }

  lemma FirstBadPort(m: seq<byte>, i: nat)
    requires 32 <= |m| && i < (|m| - 32) / 48 && forall j :: 0 <= j < i ==> PortInRange(Wire, m, 32 + 48 * j)
    ensures !PortInRange(Wire, m, 32 + 48 * i) ==>
              First(PortCodes(m)) == PhyPortCode(DecodePhyPort(Wire, m, 32 + 48 * i)) != 0
  {
    var codes := PortCodes(m);
    assert codes[i] == PhyPortCode(DecodePhyPort(Wire, m, 32 + 48 * i));
    hide *;
    PortPasses(m, i);
    if !PortInRange(Wire, m, 32 + 48 * i) {
      forall j | 0 <= j < i ensures codes[j] == 0 {
        assert PortInRange(Wire, m, 32 + 48 * j);
        PortPasses(m, j);
      }
      FirstAt(codes, i);
    }
  }

  /** One flow record. */
  lemma FlowVerdict(c: seq<byte>)
    requires WalkableFlow(c)
    ensures 88 <= |c| && WalkableActions(c[88..], |c| - 88)
    ensures FlowCode(c) ==
            if Get32(Wire, c, 4) >= 0x40_0000 then -45
            else if 0x1000 <= Get16(Wire, c, 22) < 0xffff then -44
            else if c[24] >= 8 then -43
            else if c[28] % 4 != 0 then -42
            else if Get32(Wire, c, 4) == 0 && Get16(Wire, c, 52) != 0xffff then -6
            else ActionsOutcome(c[88..], |c| - 88).code
  {
    hide Get16, Get32, First, MatchCode, MatchOk, DecodeMatch, ExactMatch, MatchInRange, WalkableActions,
         ActionsOutcome;
    MatchVerdict(c, 4);
    MatchAccepted(DecodeMatch(Wire, c, 4));
    MatchInRangeIs(Wire, c, 4);
    var codes := FlowCodes(c, ActionsOutcome(c[88..], |c| - 88).code);
    FirstOfThree(codes[0], codes[1], codes[2]);
    assert codes == [codes[0], codes[1], codes[2]];
  }

  /** A flow statistics reply with its header in order: its flags, or the i-th record as the first that fails. */
  lemma FlowStatsReplyVerdict(m: seq<byte>, i: nat)
    requires Readable(m) && m[0] == 1 && m[1] == 17 && 12 <= |m| == Get16(Wire, m, 2)
    ensures Tiled(Wire, FLOWS, m[12..]) && WalkableFlows(Split(Wire, FLOWS, m[12..]))
    ensures Get16(Wire, m, 10) >= 2 ==> MessageCode(m) == -7
    ensures var cs := Split(Wire, FLOWS, m[12..]);
            Get16(Wire, m, 10) < 2 && FirstFailing(FlowResults(cs), i) ==> MessageCode(m) == FlowCode(cs[i])
  {
    FlowStatsBody(m);
    hide *;
    var cs := Split(Wire, FLOWS, m[12..]);
    if FirstFailing(FlowResults(cs), i) {
      FailingDecides(FlowResults(cs), i);
    }
  }

  lemma FlowStatsBody(m: seq<byte>)
    requires Readable(m) && m[0] == 1 && m[1] == 17 && 12 <= |m| == Get16(Wire, m, 2)
    ensures Tiled(Wire, FLOWS, m[12..]) && WalkableFlows(Split(Wire, FLOWS, m[12..]))
    ensures MessageCode(m) == if Get16(Wire, m, 10) >= 2 then -7 else First(FlowResults(Split(Wire, FLOWS, m[12..])))
  {
    HeaderInOrder(m, 12);
    BodyDecides(m);
    StatsFlags(m);
    hide *;
    FirstOfTwo(Fail(Get16(Wire, m, 10) / 2 != 0, ERROR_INVALID_STATS_REPLY_FLAGS),
               First(FlowResults(Split(Wire, FLOWS, m[12..]))));
  }

  lemma StatsFlags(m: seq<byte>)
    requires 12 <= |m|
    ensures Fail(Get16(Wire, m, 10) / 2 != 0, ERROR_INVALID_STATS_REPLY_FLAGS) ==
            if Get16(Wire, m, 10) >= 2 then -7 else 0
  {
  }

  /** One queue: its least length, then its properties. */
  lemma QueueVerdict(c: seq<byte>)
    requires WalkableQueue(c)
    ensures |c| < 16 ==> QueueCode(c) == -40
    ensures |c| >= 16 ==> WalkableProperties(c[8..]) && QueueCode(c) == PropertiesOutcome(c[8..]).code
  {
  }

  /** A queue configuration reply with its header in order: its port, a last queue without properties,
      or the i-th queue as the first that fails. */
  lemma QueueConfigReplyVerdict(m: seq<byte>, i: nat)
    requires Readable(m) && m[0] == 1 && m[1] == 21 && 24 <= |m| == Get16(Wire, m, 2)
    ensures Tiled(Wire, QUEUES, m[16..]) && WalkableQueues(Split(Wire, QUEUES, m[16..]))
    ensures !PortOk(Get16(Wire, m, 8)) ==> MessageCode(m) == -52
    ensures var cs := Split(Wire, QUEUES, m[16..]);
            && (PortOk(Get16(Wire, m, 8)) && |cs[|cs| - 1]| == 8 ==> MessageCode(m) == -59)
            && (PortOk(Get16(Wire, m, 8)) && |cs[|cs| - 1]| != 8 && FirstFailing(QueueResults(cs), i) ==>
                  MessageCode(m) == QueueCode(cs[i]))
  {
    HeaderInOrder(m, 24);
    BodyDecides(m);
    SomeQueue(m[16..]);
    hide *;
    var cs, port := Split(Wire, QUEUES, m[16..]), Get16(Wire, m, 8);
    PortNumbers(port);
    QueuesVerdict(cs, i);
    FirstOfTwo(PhyPortNoCode(port), QueuesResult(cs));
  }

  lemma SomeQueue(b: seq<byte>)
    requires Tiled(Wire, QUEUES, b) && b != []
    ensures Split(Wire, QUEUES, b) != []
  {
  }

  lemma QueuesVerdict(cs: seq<seq<byte>>, i: nat)
    requires WalkableQueues(cs) && cs != []
    ensures |cs[|cs| - 1]| == 8 ==> QueuesResult(cs) == -59
    ensures |cs[|cs| - 1]| != 8 && FirstFailing(QueueResults(cs), i) ==> QueuesResult(cs) == QueueCode(cs[i])
  {
    hide First, QueueCode, WalkableQueue;
    if FirstFailing(QueueResults(cs), i) {
      FailingDecides(QueueResults(cs), i);
    }
  }
}
