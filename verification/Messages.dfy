/**
 The message validators of src/cc_of_err.c: header, features reply, packet out,
 flow mod, flow statistics reply and queue configuration reply.
 */
module Messages {

  import opened Bytes
  import opened Tlv
  import opened Records
  import opened Validator

  // enum ofp_type
  const OFPT_FEATURES_REPLY: byte := 6
  const OFPT_PACKET_OUT: byte := 13
  const OFPT_FLOW_MOD: byte := 14
  const OFPT_STATS_REPLY: byte := 17
  const OFPT_QUEUE_GET_CONFIG_REPLY: byte := 21

  const OFPST_FLOW: u16 := 1
  const OFPST_QUEUE: u16 := 5
  const OFPST_VENDOR: u16 := 0xffff
  const OFPFC_DELETE: u16 := 3
  const OFPFC_DELETE_STRICT: u16 := 4
  const OFPP_NONE: u16 := 0xffff

  /** validate_header. */
  function HeaderCode(m: seq<byte>, type_: byte, min: nat, max: nat): (r: int)
    ensures r <= 0
  {
    if |m| < 8 then ERROR_TOO_SHORT_MESSAGE
    else if m[0] != 1 then ERROR_UNSUPPORTED_VERSION
    else if m[1] > OFPT_QUEUE_GET_CONFIG_REPLY then ERROR_UNDEFINED_TYPE
    else if m[1] != type_ then ERROR_INVALID_TYPE
    else if Get16(Wire, m, 2) > max then ERROR_TOO_LONG_MESSAGE
    else if Get16(Wire, m, 2) < min then ERROR_TOO_SHORT_MESSAGE
    else if Get16(Wire, m, 2) < |m| then ERROR_TOO_LONG_MESSAGE
    else if Get16(Wire, m, 2) > |m| then ERROR_TOO_SHORT_MESSAGE
    else Fail(|m| > max, ERROR_TOO_LONG_MESSAGE)
  }

  /** The header passes exactly if the version is 1, the type the expected one, and the
      declared length is the buffer's and within the bounds. */
  lemma HeaderAccepted(m: seq<byte>, type_: byte, min: nat, max: nat)
    requires type_ <= OFPT_QUEUE_GET_CONFIG_REPLY && 8 <= min
    ensures HeaderCode(m, type_, min, max) == 0 <==>
            min <= |m| <= max && m[0] == 1 && m[1] == type_ && Get16(Wire, m, 2) == |m|
  {
  }

  /** The first code that is not 0 decides, wherever it stands. */
  lemma {:induction false} FirstAt(codes: seq<int>, i: nat)
    requires i <= |codes| && (forall j :: 0 <= j < i ==> codes[j] == 0) && (i < |codes| ==> codes[i] != 0)
    ensures First(codes) == if i < |codes| then codes[i] else 0
    decreases i
  {
    if i > 0 {
      FirstAt(codes[1..], i - 1);
    }
  }

  lemma FirstOfTwo(a: int, b: int)
    ensures First([a, b]) == if a != 0 then a else b
  {
    FirstAt([a, b], if a != 0 then 0 else if b != 0 then 1 else 2);
  }

  lemma FirstOfThree(a: int, b: int, c: int)
    ensures First([a, b, c]) == if a != 0 then a else if b != 0 then b else c
  {
    FirstAt([a, b, c], if a != 0 then 0 else if b != 0 then 1 else if c != 0 then 2 else 3);
  }

  lemma FirstOfSix(a: int, b: int, c: int, d: int, e: int, f: int)
    ensures First([a, b, c, d, e, f]) ==
            if a != 0 then a else if b != 0 then b else if c != 0 then c else if d != 0 then d
            else if e != 0 then e else f
  {
    FirstAt([a, b, c, d, e, f],
            if a != 0 then 0 else if b != 0 then 1 else if c != 0 then 2 else if d != 0 then 3
            else if e != 0 then 4 else if f != 0 then 5 else 6);
  }

  /** The first n codes are 0. */
  ghost predicate AllZero(codes: seq<int>, n: nat) {
    n <= |codes| && forall j :: 0 <= j < n ==> codes[j] == 0
  }

  lemma FirstNonzero(codes: seq<int>, n: nat)
    requires AllZero(codes, n) && (n < |codes| ==> codes[n] != 0)
    ensures First(codes) == if n < |codes| then codes[n] else 0
  {
    FirstAt(codes, n);
  }

  lemma AllZeroNone(codes: seq<int>)
    ensures AllZero(codes, 0)
  {
  }

  lemma AllZeroNext(codes: seq<int>, n: nat)
    requires AllZero(codes, n) && n < |codes| && codes[n] == 0
    ensures AllZero(codes, n + 1)
  {
  }

  // ----- features reply

  function PortAt(m: seq<byte>, i: nat): PhyPort
    requires 32 + 48 * i + 48 <= |m|
  {
    DecodePhyPort(Wire, m, 32 + 48 * i)
  }

  function PortCodes(m: seq<byte>): (codes: seq<int>)
    requires |m| >= 32
    ensures |codes| == (|m| - 32) / 48
  {
    seq((|m| - 32) / 48, i requires 0 <= i < (|m| - 32) / 48 => PhyPortCode(PortAt(m, i)))
  }

  function FeaturesReplyCodes(m: seq<byte>): seq<int>
    requires |m| >= 32
  {
    [Fail(m[20] == 0, ERROR_NO_TABLE_AVAILABLE), Fail((|m| - 32) % 48 != 0, ERROR_INVALID_LENGTH), First(PortCodes(m))]
  }

  /** validate_phy_ports over the n ports of a features reply. */
  method ValidatePhyPorts(m: seq<byte>, n: nat) returns (ret: int)
    requires |m| >= 32 && n == (|m| - 32) / 48
    ensures ret == First(PortCodes(m))
  {
    for i := 0 to n
      invariant forall j :: 0 <= j < i ==> PortCodes(m)[j] == 0
    {
      ret := PhyPortCode(PortAt(m, i));
      if ret != 0 {
        FirstAt(PortCodes(m), i);
        return;
      }
    }
    FirstAt(PortCodes(m), n);
    return 0;
  }

  method ValidateFeaturesReply(m: seq<byte>) returns (ret: int)
    ensures var h := HeaderCode(m, OFPT_FEATURES_REPLY, 32, 0xffff);
            ret == if h != 0 then h else First(FeaturesReplyCodes(m))
  {
    ret := HeaderCode(m, OFPT_FEATURES_REPLY, 32, 0xffff);
    if ret < 0 {
      return;
    }
    FirstOfThree(Fail(m[20] == 0, ERROR_NO_TABLE_AVAILABLE), Fail((|m| - 32) % 48 != 0, ERROR_INVALID_LENGTH),
                 First(PortCodes(m)));
    if m[20] == 0 {
      return ERROR_NO_TABLE_AVAILABLE;
    }
    var portLength: u16 := Get16(Wire, m, 2) - 32;
    if portLength % 48 != 0 {
      return ERROR_INVALID_LENGTH;
    }
    ret := ValidatePhyPorts(m, portLength / 48);
  }

  // ----- flow mod

  /** The checks after the header, in order; actions is the result for the action list. */
  function FlowModCodes(m: seq<byte>, actions: int): seq<int>
    requires |m| >= 72
  {
    var fields, command := DecodeMatch(Wire, m, 8), Get16(Wire, m, 56);
    var outPort := Get16(Wire, m, 68);
    [MatchCode(fields),
     Fail(command > OFPFC_DELETE_STRICT, ERROR_UNDEFINED_FLOW_MOD_COMMAND),
     Fail(ExactMatch(fields) && Get16(Wire, m, 62) != 0xffff, ERROR_INVALID_FLOW_PRIORITY),
     if command in {OFPFC_DELETE, OFPFC_DELETE_STRICT} && outPort != OFPP_NONE then PhyPortNoCode(outPort) else 0,
     Fail(Get16(Wire, m, 70) / 8 != 0, ERROR_INVALID_FLOW_MOD_FLAGS),
     actions]
  }

  ghost predicate ReadableFlowMod(m: seq<byte>) {
    HeaderCode(m, OFPT_FLOW_MOD, 72, 0xffff) == 0 ==> WalkableActions(m[72..], |m| - 72)
  }

  method ValidateFlowMod(m: seq<byte>) returns (ret: int)
    requires ReadableFlowMod(m)
    ensures var h := HeaderCode(m, OFPT_FLOW_MOD, 72, 0xffff);
            ret == if h != 0 then h else First(FlowModCodes(m, ActionsOutcome(m[72..], |m| - 72).code))
  {
    ret := HeaderCode(m, OFPT_FLOW_MOD, 72, 0xffff);
    if ret < 0 {
      return;
    }
    var fields := DecodeMatch(Wire, m, 8);
    var command, outPort := Get16(Wire, m, 56), Get16(Wire, m, 68);
    FirstOfSix(MatchCode(fields),
               Fail(command > OFPFC_DELETE_STRICT, ERROR_UNDEFINED_FLOW_MOD_COMMAND),
               Fail(ExactMatch(fields) && Get16(Wire, m, 62) != 0xffff, ERROR_INVALID_FLOW_PRIORITY),
               if command in {OFPFC_DELETE, OFPFC_DELETE_STRICT} &&
               outPort != OFPP_NONE then PhyPortNoCode(outPort) else 0,
               Fail(Get16(Wire, m, 70) / 8 != 0, ERROR_INVALID_FLOW_MOD_FLAGS),
               ActionsOutcome(m[72..], |m| - 72).code);
    ret := MatchCode(fields);
    if ret < 0 {
      return;
    }
    if command > OFPFC_DELETE_STRICT {
      return ERROR_UNDEFINED_FLOW_MOD_COMMAND;
    }
    if ExactMatch(fields) && Get16(Wire, m, 62) != 0xffff {
      return ERROR_INVALID_FLOW_PRIORITY;
    }
    if command == OFPFC_DELETE || command == OFPFC_DELETE_STRICT {
      if outPort != OFPP_NONE {
        ret := PhyPortNoCode(outPort);
        if ret < 0 {
          return;
        }
      }
    }
    if Get16(Wire, m, 70) / 8 != 0 {
      return ERROR_INVALID_FLOW_MOD_FLAGS;
    }
    var actionsLength: u16 := Get16(Wire, m, 2) - 72;
    ret := 0;
    if actionsLength > 0 {
      ret := ValidateActions(m[72..], actionsLength);
    }
  }

  // ----- packet out

  function PacketOutCodes(m: seq<byte>, actions: int): seq<int>
    requires |m| >= 16
  {
    [PhyPortNoCode(Get16(Wire, m, 12)), actions]
  }

  ghost predicate ReadablePacketOut(m: seq<byte>) {
    HeaderCode(m, OFPT_PACKET_OUT, 16, 0xffff) == 0 ==> WalkableActions(m[16..], Get16(Wire, m, 14))
  }

  method ValidatePacketOut(m: seq<byte>) returns (ret: int)
    requires ReadablePacketOut(m)
    ensures var h := HeaderCode(m, OFPT_PACKET_OUT, 16, 0xffff);
            ret == if h != 0 then h
                   else First(PacketOutCodes(m, ActionsOutcome(m[16..], Get16(Wire, m, 14)).code))
  {
    ret := HeaderCode(m, OFPT_PACKET_OUT, 16, 0xffff);
    if ret < 0 {
      return;
    }
    FirstOfTwo(PhyPortNoCode(Get16(Wire, m, 12)), ActionsOutcome(m[16..], Get16(Wire, m, 14)).code);
    ret := PhyPortNoCode(Get16(Wire, m, 12));
    if ret < 0 {
      return;
    }
    ret := 0;
    if Get16(Wire, m, 14) > 0 {
      ret := ValidateActions(m[16..], Get16(Wire, m, 14));
    }
  }

  // ----- flow statistics reply

  /** One record whose actions can be walked. */
  ghost predicate WalkableFlow(c: seq<byte>) {
    Whole(Wire, FLOWS, c) && WalkableActions(c[88..], |c| - 88)
  }

  function FlowCodes(c: seq<byte>, actions: int): seq<int>
    requires |c| >= 88
  {
    [MatchCode(DecodeMatch(Wire, c, 4)),
     Fail(ExactMatch(DecodeMatch(Wire, c, 4)) && Get16(Wire, c, 52) < 0xffff, ERROR_INVALID_FLOW_PRIORITY),
     actions]
  }

  ghost function FlowCode(c: seq<byte>): (r: int)
    requires WalkableFlow(c)
  {
    First(FlowCodes(c, ActionsOutcome(c[88..], |c| - 88).code))
  }

  /** The loop body of validate_flow_stats_reply for one record. */
  method ValidateFlow(c: seq<byte>) returns (ret: int)
    requires WalkableFlow(c)
    ensures ret == FlowCode(c)
  {
    var fields := DecodeMatch(Wire, c, 4);
    FirstOfThree(MatchCode(fields),
                 Fail(ExactMatch(fields) && Get16(Wire, c, 52) < 0xffff, ERROR_INVALID_FLOW_PRIORITY),
                 ActionsOutcome(c[88..], |c| - 88).code);
    ret := MatchCode(fields);
    if ret < 0 {
      return;
    }
    if ExactMatch(fields) && Get16(Wire, c, 52) < 0xffff {
      return ERROR_INVALID_FLOW_PRIORITY;
    }
    var actionsLength: u16 := Get16(Wire, c, 0) - 88;
    ret := 0;
    if actionsLength > 0 {
      ret := ValidateActions(c[88..], actionsLength);
    }
  }

  ghost predicate WalkableFlows(cs: seq<seq<byte>>) {
    forall i :: 0 <= i < |cs| ==> WalkableFlow(cs[i])
  }

  /** The result for each element, in order. */
  ghost function FlowResults(cs: seq<seq<byte>>): (codes: seq<int>)
    requires WalkableFlows(cs)
    ensures |codes| == |cs| && forall i :: 0 <= i < |cs| ==> codes[i] == FlowCode(cs[i])
  {
    seq(|cs|, i requires 0 <= i < |cs| => FlowCode(cs[i]))
  }

  ghost predicate ReadableFlowStatsReply(m: seq<byte>) {
    HeaderCode(m, OFPT_STATS_REPLY, 12, 0xffff) == 0 ==>
      Tiled(Wire, FLOWS, m[12..]) && WalkableFlows(Split(Wire, FLOWS, m[12..]))
  }

  lemma WalkableFlowAt(cs: seq<seq<byte>>, n: nat)
    requires WalkableFlows(cs) && n < |cs|
    ensures WalkableFlow(cs[n])
  {
  }

  method ValidateFlowAt(b: seq<byte>, at: nat, ghost cs: seq<seq<byte>>, ghost n: nat) returns (ret: int, len: u16)
    requires at < |b| && Standing(Wire, FLOWS, b, at, cs, n) && WalkableFlows(cs)
    ensures n < |cs| && ret == FlowCode(cs[n]) && 0 < len && at + len <= |b|
    ensures Standing(Wire, FLOWS, b, at + len, cs, n + 1)
  {
    assert FLOWS.at == 0 && FLOWS.min == 88;
    hide *;
    StandingNext(Wire, FLOWS, b, at, cs, n);
    WalkableFlowAt(cs, n);
    len := Get16(Wire, b, at);
    ret := ValidateFlow(b[at..at + len]);
  }

  /** The loop of validate_flow_stats_reply over the records b. */
  method ValidateFlows(b: seq<byte>) returns (ret: int)
    requires |b| < 0x1_0000 && Tiled(Wire, FLOWS, b) && WalkableFlows(Split(Wire, FLOWS, b))
    ensures ret == First(FlowResults(Split(Wire, FLOWS, b)))
  {
    hide *;
    ghost var cs, n := Split(Wire, FLOWS, b), 0;
    ghost var codes := FlowResults(cs);
    var flowLength: u16, at := |b|, 0;
    StandingStart(Wire, FLOWS, b);
    AllZeroNone(codes);
    while flowLength > 0
      invariant at + flowLength == |b| && Standing(Wire, FLOWS, b, at, cs, n) && AllZero(codes, n)
      decreases flowLength
    {
      var len;
      ret, len := ValidateFlowAt(b, at, cs, n);
      if ret != 0 {
        FirstNonzero(codes, n);
        return;
      }
      AllZeroNext(codes, n);
      flowLength, at, n := flowLength - len, at + len, n + 1;
    }
    StandingEnd(Wire, FLOWS, b, at, cs, n);
    FirstNonzero(codes, n);
    return 0;
  }

  method ValidateFlowStatsReply(m: seq<byte>) returns (ret: int)
    requires ReadableFlowStatsReply(m)
    ensures var h := HeaderCode(m, OFPT_STATS_REPLY, 12, 0xffff);
            ret == if h != 0 then h
                   else First([Fail(Get16(Wire, m, 10) / 2 != 0, ERROR_INVALID_STATS_REPLY_FLAGS),
                               First(FlowResults(Split(Wire, FLOWS, m[12..])))])
  {
    ret := HeaderCode(m, OFPT_STATS_REPLY, 12, 0xffff);
    if ret < 0 {
      return;
    }
    FirstOfTwo(Fail(Get16(Wire, m, 10) / 2 != 0, ERROR_INVALID_STATS_REPLY_FLAGS),
               First(FlowResults(Split(Wire, FLOWS, m[12..]))));
    if Get16(Wire, m, 10) / 2 != 0 {
      return ERROR_INVALID_STATS_REPLY_FLAGS;
    }
    ret := ValidateFlows(m[12..]);
  }

  // ----- queue configuration reply

  ghost function QueueResults(cs: seq<seq<byte>>): (codes: seq<int>)
    requires WalkableQueues(cs)
    ensures |codes| == |cs| && forall i :: 0 <= i < |cs| ==> codes[i] == QueueCode(cs[i])
  {
    seq(|cs|, i requires 0 <= i < |cs| => QueueCode(cs[i]))
  }

  lemma WalkableQueueAt(cs: seq<seq<byte>>, n: nat)
    requires WalkableQueues(cs) && n < |cs|
    ensures WalkableQueue(cs[n])
  {
  }

  method ValidateQueueAt(b: seq<byte>, at: nat, ghost cs: seq<seq<byte>>, ghost n: nat) returns (ret: int, len: u16)
    requires at < |b| && Standing(Wire, QUEUES, b, at, cs, n) && WalkableQueues(cs)
    ensures n < |cs| && ret == QueueCode(cs[n]) && 0 < len && at + len <= |b|
    ensures Standing(Wire, QUEUES, b, at + len, cs, n + 1)
  {
    assert QUEUES.at == 4 && QUEUES.min == 8;
    hide *;
    StandingNext(Wire, QUEUES, b, at, cs, n);
    WalkableQueueAt(cs, n);
    len := Get16(Wire, b, at + 4);
    ret := ValidatePacketQueue(b[at..at + len]);
  }

  /** validate_packet_queues over the first n queues of b. */
  method ValidatePacketQueues(b: seq<byte>, n: nat) returns (ret: int)
    requires Tiled(Wire, QUEUES, b) && n == |Split(Wire, QUEUES, b)| && WalkableQueues(Split(Wire, QUEUES, b))
    ensures ret == First(QueueResults(Split(Wire, QUEUES, b)))
  {
    hide *;
    ghost var cs := Split(Wire, QUEUES, b);
    ghost var codes := QueueResults(cs);
    var at := 0;
    StandingStart(Wire, QUEUES, b);
    AllZeroNone(codes);
    for i := 0 to n
      invariant 0 <= at <= |b| && Standing(Wire, QUEUES, b, at, cs, i) && AllZero(codes, i)
    {
      StandingEnd(Wire, QUEUES, b, at, cs, i);
      var len;
      ret, len := ValidateQueueAt(b, at, cs, i);
      if ret != 0 {
        FirstNonzero(codes, i);
        return;
      }
      AllZeroNext(codes, i);
      at := at + len;
    }
    FirstNonzero(codes, n);
    return 0;
  }

  ghost predicate ReadableQueueConfigReply(m: seq<byte>) {
    HeaderCode(m, OFPT_QUEUE_GET_CONFIG_REPLY, 24, 0xffff) == 0 ==>
      Tiled(Wire, QUEUES, m[16..]) && WalkableQueues(Split(Wire, QUEUES, m[16..]))
  }

  /** A last queue without properties ends the count early; otherwise each queue is checked. */
  ghost function QueuesResult(cs: seq<seq<byte>>): int
    requires WalkableQueues(cs)
  {
    if cs != [] && |cs[|cs| - 1]| == 8 then ERROR_INVALID_LENGTH else First(QueueResults(cs))
  }

  method ValidateQueueGetConfigReply(m: seq<byte>) returns (ret: int)
    requires ReadableQueueConfigReply(m)
    ensures var h := HeaderCode(m, OFPT_QUEUE_GET_CONFIG_REPLY, 24, 0xffff);
            ret == if h != 0 then h
                   else First([PhyPortNoCode(Get16(Wire, m, 8)), QueuesResult(Split(Wire, QUEUES, m[16..]))])
  {
    ret := HeaderCode(m, OFPT_QUEUE_GET_CONFIG_REPLY, 24, 0xffff);
    if ret < 0 {
      return;
    }
    FirstOfTwo(PhyPortNoCode(Get16(Wire, m, 8)), QueuesResult(Split(Wire, QUEUES, m[16..])));
    ret := PhyPortNoCode(Get16(Wire, m, 8));
    if ret < 0 {
      return;
    }
    var n, rest := CountQueues(m[16..]);
    if rest != 0 {
      return ERROR_INVALID_LENGTH;
    }
    ret := 0;
    if n > 0 {
      ret := ValidatePacketQueues(m[16..], n);
    }
  }

  /** The result is 0 exactly if every queue has a property and its properties are accepted. */
  lemma QueuesPass(cs: seq<seq<byte>>)
    requires WalkableQueues(cs)
    ensures QueuesResult(cs) == 0 <==>
            forall i :: 0 <= i < |cs| ==> 16 <= |cs[i]| && PropertiesOutcome(cs[i][8..]).code == 0
  {
    if forall i :: 0 <= i < |cs| ==> 16 <= |cs[i]| && PropertiesOutcome(cs[i][8..]).code == 0 {
      forall i | 0 <= i < |cs| ensures QueueCode(cs[i]) == 0 {
      }
    } else {
      var i :| 0 <= i < |cs| && !(16 <= |cs[i]| && PropertiesOutcome(cs[i][8..]).code == 0);
      assert QueueCode(cs[i]) != 0;
      assert QueueResults(cs)[i] != 0;
    }
  }

  /** At least 16 bytes, and after the first eight properties that are NONE of eight bytes or
      MIN_RATE of sixteen, up to the end or up to a header that declares more than is left. */
  ghost predicate AcceptableQueue(c: seq<byte>) {
    16 <= |c| && AcceptableProperties(c[8..])
  }

  /** On accepted headers and ports the result is 0 exactly if every queue is acceptable. */
  lemma QueuesAccepted(cs: seq<seq<byte>>)
    requires WalkableQueues(cs)
    ensures QueuesResult(cs) == 0 <==> forall i :: 0 <= i < |cs| ==> AcceptableQueue(cs[i])
  {
    QueuesPass(cs);
    forall i | 0 <= i < |cs| && 16 <= |cs[i]|
      ensures PropertiesOutcome(cs[i][8..]).code == 0 <==> AcceptableProperties(cs[i][8..])
    {
      assert WalkableQueue(cs[i]);
      PropertiesAccepted(cs[i][8..]);
    }
  }

  // ----- dispatch

  /** What the dispatch itself looks at is there. */
  predicate Dispatchable(m: seq<byte>) {
    |m| >= 8 && (m[1] == OFPT_STATS_REPLY ==> |m| >= 10)
  }

  /** The message types modelled here, undefined types among them. */
  predicate Modelled(m: seq<byte>)
    requires Dispatchable(m)
  {
    && (m[1] <= OFPT_QUEUE_GET_CONFIG_REPLY ==>
          m[1] in {OFPT_FEATURES_REPLY, OFPT_PACKET_OUT, OFPT_FLOW_MOD, OFPT_STATS_REPLY, OFPT_QUEUE_GET_CONFIG_REPLY})
    && (m[1] == OFPT_STATS_REPLY ==> Get16(Wire, m, 8) == OFPST_FLOW)
  }

  /** A modelled type, with everything the validator follows readable. */
  ghost predicate Readable(m: seq<byte>) {
    && Dispatchable(m) && Modelled(m)
    && ReadableFlowMod(m) && ReadablePacketOut(m) && ReadableFlowStatsReply(m) && ReadableQueueConfigReply(m)
  }

  /** validate_stats_reply; other kinds than flow statistics are left to `others`. */
  method ValidateStatsReply(m: seq<byte>, others: seq<byte> -> int) returns (ret: int)
    requires Dispatchable(m) && m[1] == OFPT_STATS_REPLY && (Modelled(m) ==> Readable(m))
    ensures ret == if Get16(Wire, m, 8) == 1 then MessageCode(m)
                   else if 5 < Get16(Wire, m, 8) < 0xffff then -8 else others(m)
  {
    var type_ := Get16(Wire, m, 8);
    if type_ == OFPST_FLOW {
      ret := ValidateFlowStatsReply(m);
    } else if type_ <= OFPST_QUEUE || type_ == OFPST_VENDOR {
      ret := others(m);
    } else {
      ret := ERROR_UNSUPPORTED_STATS_TYPE;
    }
  }

  /** validate_openflow_message; `others` stands for the validators of the types not modelled. */
  method ValidateOpenflowMessage(m: seq<byte>, others: seq<byte> -> int) returns (ret: int)
    requires Dispatchable(m) && (Modelled(m) ==> Readable(m))
    ensures ret == if m[1] in {6, 13, 14, 21} || m[1] > 21 || (m[1] == 17 && Get16(Wire, m, 8) == 1) then MessageCode(m)
                   else if m[1] == 17 && 5 < Get16(Wire, m, 8) < 0xffff then -8 else others(m)
  {
    var type_ := m[1];
    if type_ == OFPT_FEATURES_REPLY {
      ret := ValidateFeaturesReply(m);
    } else if type_ == OFPT_PACKET_OUT {
      ret := ValidatePacketOut(m);
    } else if type_ == OFPT_FLOW_MOD {
      ret := ValidateFlowMod(m);
    } else if type_ == OFPT_STATS_REPLY {
      ret := ValidateStatsReply(m, others);
    } else if type_ == OFPT_QUEUE_GET_CONFIG_REPLY {
      ret := ValidateQueueGetConfigReply(m);
    } else if type_ <= OFPT_QUEUE_GET_CONFIG_REPLY {
      ret := others(m);
    } else {
      ret := ERROR_UNDEFINED_TYPE;
    }
  }

  /** The checks of a message's body, by type. */
  ghost function BodyCode(m: seq<byte>): int
    requires Readable(m) && HeaderOf(m) == 0
  {
    if m[1] == OFPT_FEATURES_REPLY then First(FeaturesReplyCodes(m))
    else if m[1] == OFPT_PACKET_OUT then
      First(PacketOutCodes(m, ActionsOutcome(m[16..], Get16(Wire, m, 14)).code))
    else if m[1] == OFPT_FLOW_MOD then First(FlowModCodes(m, ActionsOutcome(m[72..], |m| - 72).code))
    else if m[1] == OFPT_STATS_REPLY then
      First([Fail(Get16(Wire, m, 10) / 2 != 0, ERROR_INVALID_STATS_REPLY_FLAGS),
             First(FlowResults(Split(Wire, FLOWS, m[12..])))])
    else First([PhyPortNoCode(Get16(Wire, m, 8)), QueuesResult(Split(Wire, QUEUES, m[16..]))])
  }

  /** The least length of each type. */
  function LeastLength(type_: byte): nat {
    if type_ == OFPT_FEATURES_REPLY then 32
    else if type_ == OFPT_PACKET_OUT then 16
    else if type_ == OFPT_FLOW_MOD then 72
    else if type_ == OFPT_STATS_REPLY then 12
    else 24
  }

  function HeaderOf(m: seq<byte>): int
    requires |m| >= 2
  {
    HeaderCode(m, m[1], LeastLength(m[1]), 0xffff)
  }

  ghost function MessageCode(m: seq<byte>): int
    requires Readable(m)
  {
    if m[1] > OFPT_QUEUE_GET_CONFIG_REPLY then ERROR_UNDEFINED_TYPE
    else if HeaderOf(m) != 0 then HeaderOf(m) else BodyCode(m)
  }

  // ----- what is accepted, in terms of the message's bytes

  /** Version, type and length of a whole message. */
  predicate HeaderOk(m: seq<byte>, type_: byte) {
    LeastLength(type_) <= |m| <= 0xffff && m[0] == 1 && m[1] == type_ && Get16(Wire, m, 2) == |m|
  }

  /** Which messages pass the header check. */
  lemma HeaderPassed(m: seq<byte>)
    requires Readable(m) && m[1] <= OFPT_QUEUE_GET_CONFIG_REPLY
    ensures HeaderOf(m) == 0 <==> HeaderOk(m, m[1])
    ensures HeaderOf(m) != 0 ==> MessageCode(m) != 0
  {
    HeaderAccepted(m, m[1], LeastLength(m[1]), 0xffff);
  }

  /** Which checks decide once the header has passed. */
  lemma BodyDecides(m: seq<byte>)
    requires Readable(m) && HeaderOf(m) == 0
    ensures m[1] == OFPT_FEATURES_REPLY ==> |m| >= 32 && MessageCode(m) == First(FeaturesReplyCodes(m))
    ensures m[1] == OFPT_PACKET_OUT ==>
              |m| >= 16 && WalkableActions(m[16..], Get16(Wire, m, 14)) &&
              MessageCode(m) == First(PacketOutCodes(m, ActionsOutcome(m[16..], Get16(Wire, m, 14)).code))
    ensures m[1] == OFPT_FLOW_MOD ==>
              |m| >= 72 && WalkableActions(m[72..], |m| - 72) &&
              MessageCode(m) == First(FlowModCodes(m, ActionsOutcome(m[72..], |m| - 72).code))
    ensures m[1] == OFPT_STATS_REPLY ==>
              Tiled(Wire, FLOWS, m[12..]) && WalkableFlows(Split(Wire, FLOWS, m[12..])) &&
              MessageCode(m) == First([Fail(Get16(Wire, m, 10) / 2 != 0, ERROR_INVALID_STATS_REPLY_FLAGS),
                                       First(FlowResults(Split(Wire, FLOWS, m[12..])))])
    ensures m[1] == OFPT_QUEUE_GET_CONFIG_REPLY ==>
              |m| >= 24 && Tiled(Wire, QUEUES, m[16..]) && WalkableQueues(Split(Wire, QUEUES, m[16..])) &&
              MessageCode(m) == First([PhyPortNoCode(Get16(Wire, m, 8)), QueuesResult(Split(Wire, QUEUES, m[16..]))])
  {
  }

  lemma FeaturesPass(m: seq<byte>)
    requires |m| >= 32 && (|m| - 32) % 48 == 0
    ensures First(FeaturesReplyCodes(m)) == 0 <==> m[20] != 0 && First(PortCodes(m)) == 0
  {
    var codes := FeaturesReplyCodes(m);
    assert codes == [codes[0], codes[1], codes[2]] && codes[1] == 0 && codes[2] == First(PortCodes(m));
    assert codes[0] == 0 <==> m[20] != 0;
    hide *;
    FirstOfThree(codes[0], codes[1], codes[2]);
  }

  /** A features reply validates exactly if header, table count and length are in order and every port is. */
  lemma FeaturesReplyAccepted(m: seq<byte>)
    requires Readable(m) && m[1] == OFPT_FEATURES_REPLY
    ensures MessageCode(m) == 0 <==>
            && HeaderOk(m, OFPT_FEATURES_REPLY) && m[20] != 0 && (|m| - 32) % 48 == 0
            && forall i :: 0 <= i < (|m| - 32) / 48 ==> PortInRange(Wire, m, 32 + 48 * i)
  {
    HeaderPassed(m);
    if HeaderOf(m) == 0 {
      BodyDecides(m);
      PortsPass(m);
      FeaturesLength(m);
      hide *;
    }
  }

  lemma FeaturesLength(m: seq<byte>)
    requires |m| >= 32
    ensures First(FeaturesReplyCodes(m)) == 0 <==> m[20] != 0 && (|m| - 32) % 48 == 0 && First(PortCodes(m)) == 0
  {
    if (|m| - 32) % 48 == 0 {
      FeaturesPass(m);
    } else {
      assert FeaturesReplyCodes(m)[1] != 0;
    }
  }

  lemma PortPasses(m: seq<byte>, i: nat)
    requires |m| >= 32 && i < (|m| - 32) / 48
    ensures PortCodes(m)[i] == 0 <==> PortInRange(Wire, m, 32 + 48 * i)
  {
    hide PortInRange, PhyPortOk, DecodePhyPort, PhyPortCode;
    PhyPortAccepted(PortAt(m, i));
    PortInRangeIs(Wire, m, 32 + 48 * i);
  }

  lemma PortsPass(m: seq<byte>)
    requires |m| >= 32
    ensures First(PortCodes(m)) == 0 <==>
            forall i :: 0 <= i < (|m| - 32) / 48 ==> PortInRange(Wire, m, 32 + 48 * i)
  {
    hide PortInRange, PortAt;
    var n := (|m| - 32) / 48;
    if First(PortCodes(m)) == 0 {
      forall i | 0 <= i < n ensures PortInRange(Wire, m, 32 + 48 * i) {
        PortPasses(m, i);
        assert PortCodes(m)[i] == 0;
      }
    } else if forall i :: 0 <= i < n ==> PortInRange(Wire, m, 32 + 48 * i) {
      forall i | 0 <= i < n ensures PortCodes(m)[i] == 0 {
        assert PortInRange(Wire, m, 32 + 48 * i);
        PortPasses(m, i);
      }
    }
  }

  lemma PacketOutPass(m: seq<byte>, actions: int)
    requires |m| >= 16
    ensures First(PacketOutCodes(m, actions)) == 0 <==> PortOk(Get16(Wire, m, 12)) && actions == 0
  {
    FirstOfTwo(PhyPortNoCode(Get16(Wire, m, 12)), actions);
  }

  /** A packet out validates exactly if header, port and actions are in order.  The actions' declared
      length is not compared with the message: the list may end with the message, in an action that
      declares more. */
  lemma PacketOutAccepted(m: seq<byte>)
    requires Readable(m) && m[1] == OFPT_PACKET_OUT
    ensures MessageCode(m) == 0 <==>
            && HeaderOk(m, OFPT_PACKET_OUT) && PortOk(Get16(Wire, m, 12))
            && AcceptableActions(m[16..], Get16(Wire, m, 14))
  {
    HeaderPassed(m);
    hide *;
    if HeaderOf(m) == 0 {
      BodyDecides(m);
      PacketOutPass(m, ActionsOutcome(m[16..], Get16(Wire, m, 14)).code);
      ActionsAccepted(m[16..], Get16(Wire, m, 14));
    }
  }

  /** A packet out of 24 bytes whose actions are declared to take sixteen of the eight that are left
      validates. */
  lemma OverrunPacketOutAccepted(m: seq<byte>)
    requires m == [1, 13, 0, 24, 0, 0, 0, 1, 0xff, 0xff, 0xff, 0xff, 0xff, 0xf8, 0, 16]
                  + [0xff, 0xff, 0, 16, 0, 0, 0, 1]
    ensures Readable(m) && MessageCode(m) == 0 && 16 + Get16(Wire, m, 14) > |m|
  {
    var b := m[16..];
    assert b == [0xff, 0xff, 0, 16, 0, 0, 0, 1];
    BeyondAccepted(b);
    assert Get16(Wire, m, 14) == 16 && m[1] == OFPT_PACKET_OUT;
    assert HeaderOf(m) == 0 && Readable(m);
    BodyDecides(m);
    PacketOutPass(m, ActionsOutcome(b, 16).code);
  }

  /** A match in range, which needs the highest priority if it has no wildcard. */
  predicate PrioritizedMatch(o: Order, b: seq<byte>, at: nat, priority: u16)
    requires at + 40 <= |b|
  {
    MatchInRange(o, b, at) && (Get32(o, b, at) == 0 ==> priority == 0xffff)
  }

  lemma PrioritizedIs(o: Order, b: seq<byte>, at: nat, priority: u16)
    requires at + 40 <= |b|
    ensures var f := DecodeMatch(o, b, at);
            PrioritizedMatch(o, b, at, priority) <==> MatchOk(f) && (ExactMatch(f) ==> priority == 0xffff)
  {
    hide MatchOk, ExactMatch, DecodeMatch, MatchInRange, Get32;
    MatchInRangeIs(o, b, at);
  }

  /** What a flow mod's fields must be like; the match lies at `at`. */
  predicate FlowModOk(o: Order, b: seq<byte>, at: nat, command: u16, priority: u16, outPort: u16, flags: u16)
    requires at + 40 <= |b|
  {
    && PrioritizedMatch(o, b, at, priority) && command <= 4
    && (command in {3, 4} && outPort != 0xffff ==> PortOk(outPort))
    && flags < 8
  }

  /** Match, command, priority, out port and flags of the message are in range. */
  predicate FlowModInRange(m: seq<byte>)
    requires |m| >= 72
  {
    FlowModOk(Wire, m, 8, Get16(Wire, m, 56), Get16(Wire, m, 62), Get16(Wire, m, 68), Get16(Wire, m, 70))
  }

  lemma FlowModFieldsPass(m: seq<byte>, actions: int)
    requires |m| >= 72
    ensures First(FlowModCodes(m, actions)) == 0 <==> FlowModInRange(m) && actions == 0
  {
    var codes, fields := FlowModCodes(m, actions), DecodeMatch(Wire, m, 8);
    hide DecodeMatch, Get16, MatchCode, MatchOk, ExactMatch, PrioritizedMatch;
    MatchAccepted(fields);
    PrioritizedIs(Wire, m, 8, Get16(Wire, m, 62));
    assert codes[0] == 0 <==> MatchOk(fields);
    assert codes[1] == 0 <==> Get16(Wire, m, 56) <= OFPFC_DELETE_STRICT;
    assert codes[2] == 0 <==> (ExactMatch(fields) ==> Get16(Wire, m, 62) == 0xffff);
    assert codes[3] == 0 <==>
           (Get16(Wire, m, 56) in {OFPFC_DELETE, OFPFC_DELETE_STRICT} && Get16(Wire, m, 68) != OFPP_NONE ==>
              PortOk(Get16(Wire, m, 68)));
    assert codes[4] == 0 <==> Get16(Wire, m, 70) < 8;
    assert codes[5] == actions;
  }

  /** A flow mod validates exactly if header, fields and actions are in order. */
  lemma FlowModAccepted(m: seq<byte>)
    requires Readable(m) && m[1] == OFPT_FLOW_MOD
    ensures MessageCode(m) == 0 <==>
            HeaderOk(m, OFPT_FLOW_MOD) && FlowModInRange(m) && AcceptableActions(m[72..], |m| - 72)
  {
    HeaderPassed(m);
    assert HeaderOk(m, OFPT_FLOW_MOD) ==> |m| <= 0xffff;
    hide *;
    if HeaderOf(m) == 0 {
      BodyDecides(m);
      FlowModFieldsPass(m, ActionsOutcome(m[72..], |m| - 72).code);
      ActionsAccepted(m[72..], |m| - 72);
    }
  }

  lemma FlowCodeZero(w: seq<byte>)
    requires WalkableFlow(w)
    ensures FlowCode(w) == 0 <==>
            PrioritizedMatch(Wire, w, 4, Get16(Wire, w, 52)) && ActionsOutcome(w[88..], |w| - 88).code == 0
  {
    hide DecodeMatch, ActionsOutcome, WalkableActions, MatchCode, MatchOk, ExactMatch, Get16, PrioritizedMatch;
    var actions, fields := ActionsOutcome(w[88..], |w| - 88).code, DecodeMatch(Wire, w, 4);
    var codes := FlowCodes(w, actions);
    MatchAccepted(fields);
    PrioritizedIs(Wire, w, 4, Get16(Wire, w, 52));
    assert codes[0] == 0 <==> MatchOk(fields);
    assert codes[1] == 0 <==> (ExactMatch(fields) ==> Get16(Wire, w, 52) == 0xffff);
    assert codes[2] == 0 <==> actions == 0;
  }

  /** Match and priority in range, and acceptable actions after the 88 bytes of the record. */
  ghost predicate AcceptableFlow(c: seq<byte>) {
    && 88 <= |c| && PrioritizedMatch(Wire, c, 4, Get16(Wire, c, 52))
    && AcceptableActions(c[88..], |c| - 88)
  }

  lemma FlowAccepted(c: seq<byte>)
    requires WalkableFlow(c)
    ensures FlowCode(c) == 0 <==> AcceptableFlow(c)
  {
    assert 88 <= |c| < 0x1_0000 && WalkableActions(c[88..], |c| - 88);
    FlowCodeZero(c);
    hide WalkableFlow, FlowCode, PrioritizedMatch, Get16, ActionsOutcome, WalkableActions, AcceptableActions;
    ActionsAccepted(c[88..], |c| - 88);
  }

  lemma FlowResultsPass(ws: seq<seq<byte>>)
    requires WalkableFlows(ws)
    ensures First(FlowResults(ws)) == 0 <==> forall i :: 0 <= i < |ws| ==> FlowCode(ws[i]) == 0
  {
  }

  lemma FlowReplyBody(m: seq<byte>)
    requires Readable(m) && m[1] == OFPT_STATS_REPLY && HeaderOf(m) == 0
    ensures |m| >= 12 && Tiled(Wire, FLOWS, m[12..]) && WalkableFlows(Split(Wire, FLOWS, m[12..]))
    ensures MessageCode(m) == 0 <==> Get16(Wire, m, 10) < 2 && First(FlowResults(Split(Wire, FLOWS, m[12..]))) == 0
  {
    BodyDecides(m);
    var flags, flows := Fail(Get16(Wire, m, 10) / 2 != 0, ERROR_INVALID_STATS_REPLY_FLAGS), Split(Wire, FLOWS, m[12..]);
    assert flags == 0 <==> Get16(Wire, m, 10) < 2;
    hide *;
    FirstOfTwo(flags, First(FlowResults(flows)));
  }

  /** A flow statistics reply validates exactly if header and flags are in order and every record is acceptable. */
  lemma FlowStatsReplyAccepted(m: seq<byte>)
    requires Readable(m) && m[1] == OFPT_STATS_REPLY
    ensures MessageCode(m) == 0 <==>
            && HeaderOk(m, OFPT_STATS_REPLY) && Get16(Wire, m, 10) < 2 && Tiled(Wire, FLOWS, m[12..])
            && forall i :: 0 <= i < |Split(Wire, FLOWS, m[12..])| ==> AcceptableFlow(Split(Wire, FLOWS, m[12..])[i])
  {
    HeaderPassed(m);
    hide *;
    if HeaderOf(m) == 0 {
      FlowReplyBody(m);
      FlowsAccepted(Split(Wire, FLOWS, m[12..]));
    }
  }

  lemma FlowsAccepted(cs: seq<seq<byte>>)
    requires WalkableFlows(cs)
    ensures First(FlowResults(cs)) == 0 <==> forall i :: 0 <= i < |cs| ==> AcceptableFlow(cs[i])
  {
    FlowResultsPass(cs);
    forall i | 0 <= i < |cs| ensures WalkableFlow(cs[i]) && (FlowCode(cs[i]) == 0 <==> AcceptableFlow(cs[i])) {
      FlowAccepted(cs[i]);
    }
    hide FlowCode, AcceptableFlow, FlowResults;
  }

  lemma QueueReplyBody(m: seq<byte>)
    requires Readable(m) && m[1] == OFPT_QUEUE_GET_CONFIG_REPLY && HeaderOf(m) == 0
    ensures |m| >= 24 && Tiled(Wire, QUEUES, m[16..]) && WalkableQueues(Split(Wire, QUEUES, m[16..]))
    ensures MessageCode(m) == 0 <==> PortOk(Get16(Wire, m, 8)) && QueuesResult(Split(Wire, QUEUES, m[16..])) == 0
  {
    BodyDecides(m);
    var port, queues := Get16(Wire, m, 8), Split(Wire, QUEUES, m[16..]);
    assert PhyPortNoCode(port) == 0 <==> PortOk(port);
    hide *;
    FirstOfTwo(PhyPortNoCode(port), QueuesResult(queues));
  }

  /** The message validates exactly if header and port are in order and every queue is acceptable. */
  lemma QueueConfigReplyAccepted(m: seq<byte>)
    requires Readable(m) && m[1] == OFPT_QUEUE_GET_CONFIG_REPLY
    ensures MessageCode(m) == 0 <==>
            && HeaderOk(m, OFPT_QUEUE_GET_CONFIG_REPLY) && PortOk(Get16(Wire, m, 8))
            && Tiled(Wire, QUEUES, m[16..])
            && forall i :: 0 <= i < |Split(Wire, QUEUES, m[16..])| ==> AcceptableQueue(Split(Wire, QUEUES, m[16..])[i])
  {
    HeaderPassed(m);
    hide *;
    if HeaderOf(m) == 0 {
      QueueReplyBody(m);
      QueuesAccepted(Split(Wire, QUEUES, m[16..]));
    }
  }

  /** A queue that has room for one property of eight bytes and declares one of sixteen there. */
  lemma OverrunQueueAccepted(q: seq<byte>)
    requires q == [0, 0, 0, 7, 0, 16, 0, 0] + [0, 1, 0, 16, 0, 0, 0, 0]
    ensures WalkableQueue(q) && AcceptableQueue(q) && !WellFormedProperties(q[8..])
    ensures Tiled(Wire, QUEUES, q) && Split(Wire, QUEUES, q) == [q]
  {
    var b := q[8..];
    assert b == [0, 1, 0, 16, 0, 0, 0, 0];
    PropertyOverrunAccepted(b);
    PropertiesAccepted(b);
    assert Len(Wire, QUEUES, q) == 16 && q[16..] == [] && q[..16] == q;
    hide WellFormedProperties, AcceptableProperties, WalkableProperties, PropertiesOutcome;
  }

  /** What a queue configuration reply needs to be readable. */
  lemma QueueReplyReadable(m: seq<byte>)
    requires |m| >= 24 && m[1] == OFPT_QUEUE_GET_CONFIG_REPLY
    requires Tiled(Wire, QUEUES, m[16..]) && WalkableQueues(Split(Wire, QUEUES, m[16..]))
    ensures Readable(m)
  {
    hide Tiled, Split, WalkableQueues, WalkableActions, WalkableFlows;
  }

  lemma OverrunMessageBytes(m: seq<byte>)
    requires m == [1, 21, 0, 32, 0, 0, 0, 1, 0, 1, 0, 0, 0, 0, 0, 0]
                  + [0, 0, 0, 7, 0, 16, 0, 0] + [0, 1, 0, 16, 0, 0, 0, 0]
    ensures |m| == 32 && m[1] == OFPT_QUEUE_GET_CONFIG_REPLY && HeaderOk(m, OFPT_QUEUE_GET_CONFIG_REPLY)
    ensures PortOk(Get16(Wire, m, 8)) && m[16..] == [0, 0, 0, 7, 0, 16, 0, 0] + [0, 1, 0, 16, 0, 0, 0, 0]
    ensures m[16..][8..] == m[24..]
  {
    assert m[0] == 1 && m[1] == 21 && m[2] == 0 && m[3] == 32 && m[8] == 0 && m[9] == 1;
  }

  lemma OnlyQueue(q: seq<byte>)
    requires WalkableQueue(q)
    ensures WalkableQueues([q])
  {
  }

  /** A queue configuration reply with that queue only validates all the same. */
  lemma OverrunMessageAccepted(m: seq<byte>)
    requires m == [1, 21, 0, 32, 0, 0, 0, 1, 0, 1, 0, 0, 0, 0, 0, 0]
                  + [0, 0, 0, 7, 0, 16, 0, 0] + [0, 1, 0, 16, 0, 0, 0, 0]
    ensures Readable(m) && MessageCode(m) == 0
    ensures Tiled(Wire, QUEUES, m[16..]) && Split(Wire, QUEUES, m[16..]) == [m[16..]] && !WellFormedProperties(m[24..])
  {
    hide *;
    OverrunMessageBytes(m);
    OverrunQueueAccepted(m[16..]);
    OnlyQueue(m[16..]);
    QueueReplyReadable(m);
    QueueConfigReplyAccepted(m);
  }
}
