/**
 src/cc_of_msg_prep.c: building messages.  A buffer is an array of bytes; lists
 of actions, ports, flows and queues hold structures in host order.
 */
module MsgPrep {

  import opened SingleLink
  import opened Bytes
  import opened Options
  import opened Tlv
  import opened Records
  import opened Regions
  import opened ByteOrder
  import opened ActionList
  import opened Messages

  // ----- elements laid end to end

  function Zeros(n: nat): (z: seq<byte>)
    ensures |z| == n && forall i :: 0 <= i < n ==> z[i] == 0
  {
    seq(n, _ => 0)
  }

  /** The first i elements of ws have been written to the zeroed memory m from base on. */
  ghost predicate Filled(m: seq<byte>, base: nat, ws: seq<seq<byte>>, i: nat, at: nat, mem: seq<byte>) {
    && i <= |ws| && base + |Flatten(ws)| <= |m|
    && at == base + |Flatten(ws[..i])| && at <= |m|
    && mem == Patch(m, base, Flatten(ws[..i]))
    && (forall j :: base <= j < |m| ==> m[j] == 0)
  }

  lemma {:induction false} FlattenConcat(xs: seq<seq<byte>>, ys: seq<seq<byte>>)
    ensures Flatten(xs + ys) == Flatten(xs) + Flatten(ys)
  {
    if xs == [] {
      assert xs + ys == ys;
    } else {
      assert (xs + ys)[1..] == xs[1..] + ys;
      FlattenConcat(xs[1..], ys);
    }
  }

  lemma FilledStart(m: seq<byte>, base: nat, ws: seq<seq<byte>>)
    requires base + |Flatten(ws)| <= |m| && forall j :: base <= j < |m| ==> m[j] == 0
    ensures Filled(m, base, ws, 0, base, m)
  {
    assert ws[..0] == [];
  }

  /** There is room for the next element, and the memory it goes to is still zero. */
  lemma FilledRoom(m: seq<byte>, base: nat, ws: seq<seq<byte>>, i: nat, at: nat, mem: seq<byte>)
    requires Filled(m, base, ws, i, at, mem) && i < |ws|
    ensures at + |ws[i]| <= |m| == |mem| && mem[at..at + |ws[i]|] == Zeros(|ws[i]|)
  {
    FlattenConcat(ws[..i + 1], ws[i + 1..]);
    assert ws[..i + 1] + ws[i + 1..] == ws && ws[..i + 1] == ws[..i] + [ws[i]];
    FlattenAppend(ws[..i], ws[i]);
    PatchBeyond(m, base, Flatten(ws[..i]), at, at + |ws[i]|);
  }

  lemma FilledNext(m: seq<byte>, base: nat, ws: seq<seq<byte>>, i: nat, at: nat, mem: seq<byte>, mem2: seq<byte>)
    requires Filled(m, base, ws, i, at, mem) && i < |ws| && at + |ws[i]| <= |mem| && mem2 == Patch(mem, at, ws[i])
    ensures Filled(m, base, ws, i + 1, at + |ws[i]|, mem2)
  {
    FilledRoom(m, base, ws, i, at, mem);
    assert ws[..i + 1] == ws[..i] + [ws[i]];
    FlattenAppend(ws[..i], ws[i]);
    PatchTwice(m, base, Flatten(ws[..i]), at, ws[i]);
  }

  lemma FilledDone(m: seq<byte>, base: nat, ws: seq<seq<byte>>, i: nat, at: nat, mem: seq<byte>)
    requires Filled(m, base, ws, i, at, mem) && i == |ws|
    ensures mem == Patch(m, base, Flatten(ws))
  {
    assert ws[..i] == ws;
  }

  // ----- the wire form of a list of host structures

  function WireAction(x: seq<byte>): (w: seq<byte>)
    ensures |w| == |x|
  {
    FlipAction(Host, x, Zeros(|x|))
  }

  function WireActions(xs: seq<seq<byte>>): (ws: seq<seq<byte>>)
    ensures |ws| == |xs| && forall i :: 0 <= i < |xs| ==> ws[i] == WireAction(xs[i])
  {
    seq(|xs|, i requires 0 <= i < |xs| => WireAction(xs[i]))
  }

  ghost predicate AllExact(xs: seq<seq<byte>>) {
    forall i :: 0 <= i < |xs| ==> Exact(Host, xs[i])
  }

  /** cc_create_header as it is meant: a zeroed buffer with the header filled in. */
  method CreateHeader(xid: u32, type_: byte, length: u16) returns (buffer: array<byte>)
    requires 8 <= length
    ensures fresh(buffer) && buffer.Length == length
    ensures buffer[0] == 1 && buffer[1] == type_ && Get16(Wire, buffer[..], 2) == length &&
            Get32(Wire, buffer[..], 4) == xid
    ensures forall i :: 8 <= i < length ==> buffer[i] == 0
  {
    buffer := new byte[length](_ => 0);
    buffer[0], buffer[1], buffer[2], buffer[3] := 1, type_, length / 0x100, length % 0x100;
    buffer[4], buffer[5], buffer[6], buffer[7] :=
      xid / 0x100_0000, xid / 0x1_0000 % 0x100, xid / 0x100 % 0x100, xid % 0x100;
    Split32(xid);
  }

  lemma PiecesApart(buffer: array<byte>, at: nat, item: array<byte>, n: nat)
    requires buffer != item
    ensures Apart(buffer, at, item, 0, n) && Separate(buffer, at, item, 0, n)
  {
  }

  /** One action converted into zeroed memory. */
  method WriteAction(buffer: array<byte>, a: nat, header: array<byte>, ghost x: seq<byte>) returns (actionLength: u16)
    requires header != buffer && header[..] == x && Exact(Host, x)
    requires a + |x| <= buffer.Length && buffer[a..a + |x|] == Zeros(|x|)
    modifies buffer
    ensures buffer[..] == Patch(old(buffer[..]), a, WireAction(x)) && header[..] == x && actionLength == |x|
  {
    hide *;
    WireActionOf(header, x);
    PiecesApart(buffer, a, header, |x|);
    actionLength := Peek16(Host, header, 2);
    HtonAction(buffer, a, header, 0, |x|);
  }

  lemma WireActionOf(header: array<byte>, x: seq<byte>)
    requires header[..] == x && Exact(Host, x)
    ensures 8 <= |x| == header.Length && Peek16(Host, header, 2) == |x| && header[0..|x|] == x && Known(Host, x)
    ensures WireAction(x) == FlipAction(Host, x, Zeros(|x|))
  {
  }

  lemma ExactAt(xs: seq<seq<byte>>, i: nat)
    requires AllExact(xs) && i < |xs|
    ensures Exact(Host, xs[i]) && |WireAction(xs[i])| == |xs[i]|
  {
  }

  method WriteNextAction(buffer: array<byte>, at: nat, item: Link<array<byte>>, ghost s: seq<Item>,
                         ghost xs: seq<seq<byte>>, ghost m: seq<byte>, ghost base: nat, ghost i: nat)
    returns (len: u16)
    requires Walking(s, xs, i, item) && Filled(m, base, WireActions(xs), i, at, buffer[..])
    requires i < |xs| && AllExact(xs) && forall l :: l in s ==> l.data != buffer
    modifies buffer
    ensures Walking(s, xs, i + 1, item.next) && Filled(m, base, WireActions(xs), i + 1, at + len, buffer[..])
  {
    hide *;
    ghost var ws := WireActions(xs);
    ExactAt(xs, i);
    WalkingNext(s, xs, i, item);
    FilledRoom(m, base, ws, i, at, buffer[..]);
    ghost var mem := buffer[..];
    len := WriteAction(buffer, at, item.data, xs[i]);
    FilledNext(m, base, ws, i, at, mem, buffer[..]);
    WalkingNext(s, xs, i, item);
  }

  /** The loop that lays the actions end to end from base on. */
  method WriteActions(buffer: array<byte>, base: nat, actions: OpenflowActions, ghost xs: seq<seq<byte>>)
    requires actions.Valid() && xs == Structs(actions.spine) && AllExact(xs)
    requires forall l :: l in actions.spine ==> l.data != buffer
    requires base + |Flatten(WireActions(xs))| <= buffer.Length
    requires forall j :: base <= j < buffer.Length ==> buffer[j] == 0
    modifies buffer
    ensures buffer[..] == Patch(old(buffer[..]), base, Flatten(WireActions(xs)))
  {
    hide *;
    ghost var m, ws, s := buffer[..], WireActions(xs), actions.spine;
    FilledStart(m, base, ws);
    actions.ListStarts();
    var action, a: nat := actions.list, base;
    ghost var i := 0;
    while action != null
      invariant 0 <= i <= |s| == |xs| && Walking(s, xs, i, action) && Filled(m, base, ws, i, a, buffer[..])
      decreases |s| - i
    {
      WalkingNext(s, xs, i, action);
      var actionLength := WriteNextAction(buffer, a, action, s, xs, m, base, i);
      a, action, i := a + actionLength, action.next, i + 1;
    }
    WalkingNext(s, xs, i, action);
    FilledDone(m, base, ws, i, a, buffer[..]);
  }

  lemma {:induction false} SameLength(xs: seq<seq<byte>>, ws: seq<seq<byte>>)
    requires |xs| == |ws| && forall i :: 0 <= i < |xs| ==> |ws[i]| == |xs[i]|
    ensures |Flatten(ws)| == |Flatten(xs)|
  {
    if xs != [] {
      SameLength(xs[1..], ws[1..]);
    }
  }

  lemma {:induction false} TotalIsLength(xs: seq<seq<byte>>)
    requires forall i :: 0 <= i < |xs| ==> Whole(Host, ACTIONS, xs[i])
    ensures (forall i :: 0 <= i < |xs| ==> |xs[i]| >= 4) && Total(xs) == |Flatten(xs)|
  {
    if xs != [] {
      var n := |xs| - 1;
      TotalIsLength(xs[..n]);
      FlattenAppend(xs[..n], xs[n]);
      assert xs == xs[..n] + [xs[n]];
    }
  }

  /** The actions argument of a builder: NULL, or a list of well-formed actions. */
  ghost predicate ActionsArgument(actions: OpenflowActions?, xs: seq<seq<byte>>)
    reads actions, if actions == null then {} else set l | l in actions.spine
    reads if actions == null then {} else set l | l in actions.spine :: l.data
  {
    if actions == null then xs == []
    else actions.Valid() && xs == Structs(actions.spine) && AllExact(xs)
  }

  lemma ListMeasured(actions: OpenflowActions?, xs: seq<seq<byte>>)
    requires ActionsArgument(actions, xs) && |Flatten(xs)| <= 0xffff
    ensures |Flatten(xs)| == |Flatten(WireActions(xs))| && (actions == null ==> |Flatten(xs)| == 0)
    ensures actions != null ==> actions.Valid() && xs == Structs(actions.spine) && AllExact(xs)
    ensures actions != null ==> (forall j :: 0 <= j < |xs| ==> |xs[j]| >= 4) && Total(xs) == |Flatten(xs)|
    ensures actions != null ==> forall j :: 0 <= j < |xs| ==> !(11 < Get16(Host, xs[j], 0) < 0xffff)
  {
    SameLength(xs, WireActions(xs));
    if actions != null {
      forall j | 0 <= j < |xs| ensures Whole(Host, ACTIONS, xs[j]) && |xs[j]| >= 4 && Defined(Get16(Host, xs[j], 0)) {
        assert Exact(Host, xs[j]);
      }
      TotalIsLength(xs);
    }
  }

  /** What get_actions_length gives a builder is the size of the region it then writes. */
  method ActionsLength(actions: OpenflowActions?, ghost xs: seq<seq<byte>>) returns (actionsLength: u16)
    requires ActionsArgument(actions, xs) && |Flatten(xs)| <= 0xffff
    ensures actionsLength == |Flatten(xs)| == |Flatten(WireActions(xs))|
  {
    hide *;
    actionsLength := 0;
    ListMeasured(actions, xs);
    if actions != null {
      actionsLength := actions.GetActionsLength();
    }
  }

  lemma PatchNone(m: seq<byte>, d: nat, x: seq<byte>)
    requires d <= |m| && |x| == 0
    ensures Patch(m, d, x) == m
  {
  }

  /** The actions a builder was given, if any. */
  method WriteActionsGiven(buffer: array<byte>, base: nat, actions: OpenflowActions?, actionsLength: u16,
                           ghost xs: seq<seq<byte>>)
    requires ActionsArgument(actions, xs) && actionsLength == |Flatten(xs)| == |Flatten(WireActions(xs))|
    requires actions != null ==> forall l :: l in actions.spine ==> l.data != buffer
    requires base + actionsLength <= buffer.Length && forall j :: base <= j < buffer.Length ==> buffer[j] == 0
    modifies buffer
    ensures buffer[..] == Patch(old(buffer[..]), base, Flatten(WireActions(xs)))
  {
    hide *;
    ListMeasured(actions, xs);
    if actionsLength > 0 {
      WriteActions(buffer, base, actions, xs);
    } else {
      PatchNone(buffer[..], base, Flatten(WireActions(xs)));
    }
  }

  // ----- flow mod

  datatype FlowModArgs = FlowModArgs(cookie: u64, command: u16, idleTimeout: u16, hardTimeout: u16,
                                     priority: u16, bufferId: u32, outPort: u16, flags: u16)

  predicate HeaderIs(m: seq<byte>, type_: byte, xid: u32) {
    8 <= |m| <= 0xffff && m[0] == 1 && m[1] == type_ && Get16(Wire, m, 2) == |m| && Get32(Wire, m, 4) == xid
  }

  predicate FlowModFieldsAre(m: seq<byte>, f: FlowModArgs) {
    && |m| >= 72
    && Get64(Wire, m, 48) == f.cookie && Get16(Wire, m, 56) == f.command
    && Get16(Wire, m, 58) == f.idleTimeout && Get16(Wire, m, 60) == f.hardTimeout && Get16(Wire, m, 62) == f.priority
    && Get32(Wire, m, 64) == f.bufferId && Get16(Wire, m, 68) == f.outPort && Get16(Wire, m, 70) == f.flags
  }

  /** A flow mod with the given match, a structure in host order, fields and action region. */
  predicate IsFlowMod(m: seq<byte>, xid: u32, fields: seq<byte>, f: FlowModArgs, actions: seq<byte>)
    requires |fields| == 40
  {
    && |m| == 72 + |actions| && HeaderIs(m, OFPT_FLOW_MOD, xid)
    && m[8..48] == Mirror(MatchStruct, fields)
    && FlowModFieldsAre(m, f) && m[72..] == actions
  }

  method Store64(a: array<byte>, i: nat, v: u64)
    requires i + 8 <= a.Length
    modifies a
    ensures Get64(Wire, a[..], i) == v
    ensures forall j :: 0 <= j < a.Length && !(i <= j < i + 8) ==> a[j] == old(a[j])
  {
    var hi: u32, lo: u32 := v / 0x1_0000_0000, v % 0x1_0000_0000;
    Store32(a, i, hi);
    Store32(a, i + 4, lo);
  }

  method Store32(a: array<byte>, i: nat, v: u32)
    requires i + 4 <= a.Length
    modifies a
    ensures Get32(Wire, a[..], i) == v
    ensures forall j :: 0 <= j < a.Length && !(i <= j < i + 4) ==> a[j] == old(a[j])
  {
    a[i], a[i + 1], a[i + 2], a[i + 3] := v / 0x100_0000, v / 0x1_0000 % 0x100, v / 0x100 % 0x100, v % 0x100;
    Split32(v);
  }

  method Store16(a: array<byte>, i: nat, v: u16)
    requires i + 2 <= a.Length
    modifies a
    ensures Get16(Wire, a[..], i) == v
    ensures forall j :: 0 <= j < a.Length && !(i <= j < i + 2) ==> a[j] == old(a[j])
  {
    a[i], a[i + 1] := v / 0x100, v % 0x100;
  }

  method StoreFlowMod(buffer: array<byte>, f: FlowModArgs)
    requires buffer.Length >= 72
    modifies buffer
    ensures FlowModFieldsAre(buffer[..], f)
    ensures Get64(Wire, buffer[..], 48) == f.cookie && Get16(Wire, buffer[..], 56) == f.command
    ensures Get16(Wire, buffer[..], 58) == f.idleTimeout && Get16(Wire, buffer[..], 60) == f.hardTimeout
    ensures Get16(Wire, buffer[..], 62) == f.priority && Get32(Wire, buffer[..], 64) == f.bufferId
    ensures Get16(Wire, buffer[..], 68) == f.outPort && Get16(Wire, buffer[..], 70) == f.flags
    ensures buffer[..48] == old(buffer[..48]) && forall j :: 72 <= j < buffer.Length ==> buffer[j] == old(buffer[j])
  {
    Store64(buffer, 48, f.cookie);
    Store16(buffer, 56, f.command);
    Store16(buffer, 58, f.idleTimeout);
    Store16(buffer, 60, f.hardTimeout);
    Store16(buffer, 62, f.priority);
    Store32(buffer, 64, f.bufferId);
    Store16(buffer, 68, f.outPort);
    Store16(buffer, 70, f.flags);
  }

  lemma FlowModFieldsKept(m: seq<byte>, mid: seq<byte>, f: FlowModArgs)
    requires |m| == |mid| >= 72 && m[..72] == mid[..72] && FlowModFieldsAre(mid, f)
    ensures FlowModFieldsAre(m, f)
  {
    assert forall i :: 0 <= i < 72 ==> m[i] == m[..72][i] == mid[..72][i] == mid[i];
  }

  /** The header of a flow mod with its match, still without the fields. */
  method StartFlowMod(xid: u32, fields: seq<byte>, length: u16) returns (buffer: array<byte>)
    requires |fields| == 40 && 72 <= length
    ensures fresh(buffer) && buffer.Length == length && HeaderIs(buffer[..], OFPT_FLOW_MOD, xid)
    ensures buffer[8..48] == Mirror(MatchStruct, fields)
    ensures forall j :: 48 <= j < length ==> buffer[j] == 0
  {
    buffer := CreateHeader(xid, OFPT_FLOW_MOD, length);
    var m := new byte[40](i requires 0 <= i < 40 => fields[i]);
    assert m[0..40] == fields;
    ghost var b := buffer[..];
    assert HeaderIs(b, OFPT_FLOW_MOD, xid);
    hide HeaderIs, DecodeMatch, Mirror, Get16, Get32;
    NtohMatch(buffer, 8, m, 0);
    FlowModStarts(buffer[..], b, xid, fields);
  }

  lemma FlowModStarts(m: seq<byte>, b: seq<byte>, xid: u32, fields: seq<byte>)
    requires |fields| == 40 && |b| >= 48 && m == Patch(b, 8, Mirror(MatchStruct, fields)) &&
             HeaderIs(b, OFPT_FLOW_MOD, xid)
    ensures HeaderIs(m, OFPT_FLOW_MOD, xid) && m[8..48] == Mirror(MatchStruct, fields)
  {
    assert m[8..48] == Mirror(MatchStruct, fields);
    assert forall i :: 0 <= i < 8 ==> m[i] == b[i];
  }

  /** Everything but the actions. */
  method PrepareFlowMod(xid: u32, fields: seq<byte>, f: FlowModArgs, length: u16) returns (buffer: array<byte>)
    requires |fields| == 40 && 72 <= length
    ensures fresh(buffer) && buffer.Length == length && HeaderIs(buffer[..], OFPT_FLOW_MOD, xid)
    ensures buffer[8..48] == Mirror(MatchStruct, fields) && FlowModFieldsAre(buffer[..], f)
    ensures forall j :: 72 <= j < length ==> buffer[j] == 0
  {
    buffer := StartFlowMod(xid, fields, length);
    ghost var b := buffer[..];
    StoreFlowMod(buffer, f);
    FlowModMatchKept(buffer[..], b, xid, fields);
  }

  lemma FlowModMatchKept(m: seq<byte>, b: seq<byte>, xid: u32, fields: seq<byte>)
    requires |m| == |b| >= 48 && m[..48] == b[..48] && |fields| == 40
    requires HeaderIs(b, OFPT_FLOW_MOD, xid) && b[8..48] == Mirror(MatchStruct, fields)
    ensures HeaderIs(m, OFPT_FLOW_MOD, xid) && m[8..48] == Mirror(MatchStruct, fields)
  {
    assert forall i :: 0 <= i < 48 ==> m[i] == m[..48][i] == b[..48][i] == b[i];
    SubSlice(m, 0, 48, 8, 48);
    SubSlice(b, 0, 48, 8, 48);
  }

  lemma FlowModDone(m: seq<byte>, mid: seq<byte>, xid: u32, fields: seq<byte>, f: FlowModArgs, acts: seq<byte>)
    requires |fields| == 40 && |mid| == 72 + |acts| && m == Patch(mid, 72, acts)
    requires HeaderIs(mid, OFPT_FLOW_MOD, xid) && FlowModFieldsAre(mid, f)
    requires mid[8..48] == Mirror(MatchStruct, fields)
    ensures IsFlowMod(m, xid, fields, f, acts)
  {
    assert m[..72] == mid[..72] && m[72..] == acts;
    hide *;
    FlowModMatchKept(m, mid, xid, fields);
    FlowModFieldsKept(m, mid, f);
  }

  method CreateFlowMod(xid: u32, fields: seq<byte>, f: FlowModArgs, actions: OpenflowActions?, ghost xs: seq<seq<byte>>)
    returns (buffer: array<byte>)
    requires |fields| == 40 && ActionsArgument(actions, xs) && 72 + |Flatten(xs)| <= 0xffff
    ensures fresh(buffer) && IsFlowMod(buffer[..], xid, fields, f, Flatten(WireActions(xs)))
  {
    hide *;
    var actionsLength := ActionsLength(actions, xs);
    var length: u16 := 72 + actionsLength;
    buffer := PrepareFlowMod(xid, fields, f, length);
    ghost var mid, acts := buffer[..], Flatten(WireActions(xs));
    WriteActionsGiven(buffer, 72, actions, actionsLength, xs);
    FlowModDone(buffer[..], mid, xid, fields, f, acts);
  }

  // ----- packet out

  predicate IsPacketOut(m: seq<byte>, xid: u32, bufferId: u32, inPort: u16, actions: seq<byte>, data: seq<byte>) {
    && |m| == 16 + |actions| + |data| && HeaderIs(m, OFPT_PACKET_OUT, xid)
    && Get32(Wire, m, 8) == bufferId && Get16(Wire, m, 12) == inPort && Get16(Wire, m, 14) == |actions|
    && m[16..16 + |actions|] == actions && m[16 + |actions|..] == data
  }

  method PreparePacketOut(xid: u32, bufferId: u32, inPort: u16, actionsLength: u16, length: u16)
    returns (buffer: array<byte>)
    requires 16 <= length
    ensures fresh(buffer) && buffer.Length == length && HeaderIs(buffer[..], OFPT_PACKET_OUT, xid)
    ensures Get32(Wire, buffer[..], 8) == bufferId && Get16(Wire, buffer[..], 12) == inPort
    ensures Get16(Wire, buffer[..], 14) == actionsLength
    ensures forall j :: 16 <= j < length ==> buffer[j] == 0
  {
    buffer := CreateHeader(xid, OFPT_PACKET_OUT, length);
    Store32(buffer, 8, bufferId);
    Store16(buffer, 12, inPort);
    Store16(buffer, 14, actionsLength);
  }

  lemma PacketOutDone(m: seq<byte>, mid: seq<byte>, xid: u32, bufferId: u32, inPort: u16, acts: seq<byte>,
                      data: seq<byte>)
    requires |mid| == 16 + |acts| + |data| && m == Patch(Patch(mid, 16, acts), 16 + |acts|, data)
    requires HeaderIs(mid, OFPT_PACKET_OUT, xid) && Get32(Wire, mid, 8) == bufferId
    requires Get16(Wire, mid, 12) == inPort && Get16(Wire, mid, 14) == |acts|
    ensures IsPacketOut(m, xid, bufferId, inPort, acts, data)
  {
    PatchTwice(mid, 16, acts, 16 + |acts|, data);
    assert m[16..] == acts + data;
    assert m[16..16 + |acts|] == acts && m[16 + |acts|..] == data;
  }

  /** memcpy of a value into the buffer. */
  method CopyIn(buffer: array<byte>, at: nat, data: seq<byte>)
    requires at + |data| <= buffer.Length
    modifies buffer
    ensures buffer[..] == Patch(old(buffer[..]), at, data)
  {
    forall i | 0 <= i < |data| {
      buffer[at + i] := data[i];
    }
  }

  /** NULL stands for the error return: a frame must come along unless the switch has buffered
      it, and be no shorter than Ethernet allows without its four bytes of checksum. */
  method CreatePacketOut(xid: u32, bufferId: u32, inPort: u16, actions: OpenflowActions?, data: Option<seq<byte>>,
                         ghost xs: seq<seq<byte>>)
    returns (buffer: array?<byte>)
    requires ActionsArgument(actions, xs)
    requires 16 + |Flatten(xs)| + (if data == None then 0 else |data.value|) <= 0xffff
    ensures buffer == null <==> bufferId == 0xffff_ffff && (data == None || |data.value| < 60)
    ensures buffer != null ==> fresh(buffer)
    ensures buffer != null ==> IsPacketOut(buffer[..], xid, bufferId, inPort, Flatten(WireActions(xs)),
                                           if data == None then [] else data.value)
  {
    hide *;
    if bufferId == 0xffff_ffff {
      if data == None {
        return null;
      }
      if |data.value| + 4 < 64 {
        return null;
      }
    }
    var frame := if data == None then [] else data.value;
    var actionsLength := ActionsLength(actions, xs);
    var packet := PreparePacketOut(xid, bufferId, inPort, actionsLength, 16 + actionsLength + |frame|);
    ghost var mid, acts := packet[..], Flatten(WireActions(xs));
    WriteActionsGiven(packet, 16, actions, actionsLength, xs);
    CopyIn(packet, 16 + actionsLength, frame);
    PacketOutDone(packet[..], mid, xid, bufferId, inPort, acts, frame);
    buffer := packet;
  }

  // ----- features reply

  function WirePorts(xs: seq<seq<byte>>): (ws: seq<seq<byte>>)
    ensures |ws| == |xs| && forall i :: 0 <= i < |xs| ==> ws[i] == Mirror(PhyPortStruct, xs[i])
  {
    seq(|xs|, i requires 0 <= i < |xs| => Mirror(PhyPortStruct, xs[i]))
  }

  predicate IsFeaturesReply(m: seq<byte>, xid: u32, datapathId: u64, nBuffers: u32, nTables: byte,
                            capabilities: u32, actions: u32, ports: seq<byte>) {
    && |m| == 32 + |ports| && HeaderIs(m, OFPT_FEATURES_REPLY, xid)
    && Get64(Wire, m, 8) == datapathId && Get32(Wire, m, 16) == nBuffers && m[20..24] == [nTables, 0, 0, 0]
    && Get32(Wire, m, 24) == capabilities && Get32(Wire, m, 28) == actions && m[32..] == ports
  }

  lemma {:induction false} PortsLength(xs: seq<seq<byte>>)
    requires forall i :: 0 <= i < |xs| ==> |xs[i]| == 48
    ensures |Flatten(xs)| == 48 * |xs|
  {
    if xs != [] {
      PortsLength(xs[1..]);
    }
  }

  /** One port converted into a local structure and copied. */
  method WritePort(buffer: array<byte>, at: nat, port: array<byte>, ghost x: seq<byte>)
    requires port[..] == x && |x| == 48 && at + 48 <= buffer.Length
    modifies buffer
    ensures buffer[..] == Patch(old(buffer[..]), at, Mirror(PhyPortStruct, x))
  {
    var pn := new byte[48];
    assert port[0..48] == x;
    NtohPhyPort(pn, 0, port, 0);
    assert pn[..] == Mirror(PhyPortStruct, x);
    CopyIn(buffer, at, pn[..]);
  }

  method WriteNextPort(buffer: array<byte>, at: nat, item: Link<array<byte>>, ghost s: seq<Item>,
                       ghost xs: seq<seq<byte>>, ghost m: seq<byte>, ghost base: nat, ghost i: nat)
    returns (len: u16)
    requires Walking(s, xs, i, item) && Filled(m, base, WirePorts(xs), i, at, buffer[..])
    requires i < |xs| && |xs[i]| == 48 && forall l :: l in s ==> l.data != buffer
    modifies buffer
    ensures Walking(s, xs, i + 1, item.next) && Filled(m, base, WirePorts(xs), i + 1, at + len, buffer[..])
  {
    hide *;
    ghost var ws := WirePorts(xs);
    WalkingNext(s, xs, i, item);
    FilledRoom(m, base, ws, i, at, buffer[..]);
    ghost var mem := buffer[..];
    WritePort(buffer, at, item.data, xs[i]);
    len := 48;
    FilledNext(m, base, ws, i, at, mem, buffer[..]);
    WalkingNext(s, xs, i, item);
  }

  method WritePorts(buffer: array<byte>, ports: Link?<array<byte>>, ghost s: seq<Item>, ghost xs: seq<seq<byte>>)
    requires Spine(ports, s) && Structs(s) == xs && forall i :: 0 <= i < |xs| ==> |xs[i]| == 48
    requires forall l :: l in s ==> l.data != buffer
    requires 32 + |Flatten(WirePorts(xs))| == buffer.Length && forall j :: 32 <= j < buffer.Length ==> buffer[j] == 0
    modifies buffer
    ensures buffer[..] == Patch(old(buffer[..]), 32, Flatten(WirePorts(xs)))
  {
    ghost var m, ws := buffer[..], WirePorts(xs);
    FilledStart(m, 32, ws);
    WalkingStart(ports, s, xs);
    hide *;
    var port, at: nat := ports, 32;
    ghost var i := 0;
    while port != null
      invariant 0 <= i <= |s| && Walking(s, xs, i, port) && Filled(m, 32, ws, i, at, buffer[..])
      decreases |s| - i
    {
      WalkingNext(s, xs, i, port);
      var len := WriteNextPort(buffer, at, port, s, xs, m, 32, i);
      port, at, i := port.next, at + len, i + 1;
    }
    WalkingNext(s, xs, i, port);
    FilledDone(m, 32, ws, i, at, buffer[..]);
  }

  method CountPorts(ports: Link?<array<byte>>, ghost s: seq<Item>) returns (nPorts: u16)
    requires Spine(ports, s) && |s| <= 0xffff
    ensures nPorts == |s|
  {
    nPorts := 0;
    var port := ports;
    while port != null
      invariant nPorts <= |s| && port == if nPorts < |s| then s[nPorts] else null
      decreases |s| - nPorts
    {
      assert s[nPorts].next == if nPorts + 1 < |s| then s[nPorts + 1] else null;
      port, nPorts := port.next, nPorts + 1;
    }
  }

  method PrepareFeaturesReply(xid: u32, datapathId: u64, nBuffers: u32, nTables: byte, capabilities: u32, actions: u32,
                              length: u16)
    returns (buffer: array<byte>)
    requires 32 <= length
    ensures fresh(buffer) && buffer.Length == length && HeaderIs(buffer[..], OFPT_FEATURES_REPLY, xid)
    ensures Get64(Wire, buffer[..], 8) == datapathId && Get32(Wire, buffer[..], 16) == nBuffers
    ensures buffer[20..24] == [nTables, 0, 0, 0]
    ensures Get32(Wire, buffer[..], 24) == capabilities && Get32(Wire, buffer[..], 28) == actions
    ensures forall j :: 32 <= j < length ==> buffer[j] == 0
  {
    buffer := CreateHeader(xid, OFPT_FEATURES_REPLY, length);
    ghost var b := buffer[..];
    assert HeaderIs(b, OFPT_FEATURES_REPLY, xid);
    hide HeaderIs, Get16, Get32, Get64;
    StoreSwitch(buffer, datapathId, nBuffers, nTables);
    HeaderKept(buffer[..], b, OFPT_FEATURES_REPLY, xid);
    ghost var mid := buffer[..];
    StoreCapabilities(buffer, capabilities, actions);
    SwitchKept(buffer[..], mid, xid, datapathId, nBuffers, nTables);
  }

  method StoreSwitch(buffer: array<byte>, datapathId: u64, nBuffers: u32, nTables: byte)
    requires buffer.Length >= 32
    modifies buffer
    ensures Get64(Wire, buffer[..], 8) == datapathId && Get32(Wire, buffer[..], 16) == nBuffers
    ensures buffer[20..24] == [nTables, 0, 0, 0] && buffer[..8] == old(buffer[..8])
    ensures forall j :: 24 <= j < buffer.Length ==> buffer[j] == old(buffer[j])
  {
    Store64(buffer, 8, datapathId);
    Store32(buffer, 16, nBuffers);
    buffer[20], buffer[21], buffer[22], buffer[23] := nTables, 0, 0, 0;
  }

  method StoreCapabilities(buffer: array<byte>, capabilities: u32, actions: u32)
    requires buffer.Length >= 32
    modifies buffer
    ensures Get32(Wire, buffer[..], 24) == capabilities && Get32(Wire, buffer[..], 28) == actions
    ensures buffer[..24] == old(buffer[..24])
    ensures forall j :: 32 <= j < buffer.Length ==> buffer[j] == old(buffer[j])
  {
    Store32(buffer, 24, capabilities);
    Store32(buffer, 28, actions);
  }

  lemma HeaderKept(m: seq<byte>, b: seq<byte>, type_: byte, xid: u32)
    requires |m| == |b| >= 8 && m[..8] == b[..8] && HeaderIs(b, type_, xid)
    ensures HeaderIs(m, type_, xid)
  {
    assert forall i :: 0 <= i < 8 ==> m[i] == m[..8][i] == b[..8][i] == b[i];
  }

  lemma SwitchKept(m: seq<byte>, b: seq<byte>, xid: u32, datapathId: u64, nBuffers: u32, nTables: byte)
    requires |m| == |b| >= 24 && m[..24] == b[..24] && HeaderIs(b, OFPT_FEATURES_REPLY, xid)
    requires Get64(Wire, b, 8) == datapathId && Get32(Wire, b, 16) == nBuffers && b[20..24] == [nTables, 0, 0, 0]
    ensures HeaderIs(m, OFPT_FEATURES_REPLY, xid)
    ensures Get64(Wire, m, 8) == datapathId && Get32(Wire, m, 16) == nBuffers && m[20..24] == [nTables, 0, 0, 0]
  {
    assert forall i :: 0 <= i < 24 ==> m[i] == m[..24][i] == b[..24][i] == b[i];
    SubSlice(m, 0, 24, 20, 24);
    SubSlice(b, 0, 24, 20, 24);
  }

  lemma FeaturesReplyDone(m: seq<byte>, mid: seq<byte>, xid: u32, datapathId: u64, nBuffers: u32, nTables: byte,
                          capabilities: u32, actions: u32, ports: seq<byte>)
    requires |mid| == 32 + |ports| && m == Patch(mid, 32, ports)
    requires HeaderIs(mid, OFPT_FEATURES_REPLY, xid) && Get64(Wire, mid, 8) == datapathId
    requires Get32(Wire, mid, 16) == nBuffers && mid[20..24] == [nTables, 0, 0, 0]
    requires Get32(Wire, mid, 24) == capabilities && Get32(Wire, mid, 28) == actions
    ensures IsFeaturesReply(m, xid, datapathId, nBuffers, nTables, capabilities, actions, ports)
  {
    assert m[32..] == ports && m[20..24] == mid[20..24];
  }

  method CreateFeaturesReply(xid: u32, datapathId: u64, nBuffers: u32, nTables: byte, capabilities: u32, actions: u32,
                             ports: Link?<array<byte>>, ghost s: seq<Item>, ghost xs: seq<seq<byte>>)
    returns (buffer: array<byte>)
    requires Spine(ports, s) && Structs(s) == xs && forall i :: 0 <= i < |xs| ==> |xs[i]| == 48
    requires 32 + 48 * |xs| <= 0xffff
    ensures fresh(buffer)
    ensures IsFeaturesReply(buffer[..], xid, datapathId, nBuffers, nTables, capabilities, actions,
                            Flatten(WirePorts(xs)))
  {
    var nPorts := CountPorts(ports, s);
    buffer := PrepareFeaturesReply(xid, datapathId, nBuffers, nTables, capabilities, actions, 32 + 48 * nPorts);
    ghost var mid := buffer[..];
    PortsLength(WirePorts(xs));
    if nPorts > 0 {
      WritePorts(buffer, ports, s, xs);
    }
    assert buffer[..] == Patch(mid, 32, Flatten(WirePorts(xs)));
    hide *;
    FeaturesReplyDone(buffer[..], mid, xid, datapathId, nBuffers, nTables, capabilities, actions,
                      Flatten(WirePorts(xs)));
  }

  // ----- flow statistics reply

  lemma PrefixLength(xs: seq<seq<byte>>, i: nat)
    requires i < |xs|
    ensures |Flatten(xs[..i])| + |xs[i]| == |Flatten(xs[..i + 1])| <= |Flatten(xs)|
  {
    assert xs[..i + 1] == xs[..i] + [xs[i]] && xs == xs[..i + 1] + xs[i + 1..];
    FlattenAppend(xs[..i], xs[i]);
    FlattenConcat(xs[..i + 1], xs[i + 1..]);
  }

  /** How many bytes the first i elements take. */
  function Extent(xs: seq<seq<byte>>, i: nat): nat
    requires i <= |xs|
  {
    |Flatten(xs[..i])|
  }

  lemma ExtentEnds(xs: seq<seq<byte>>)
    ensures Extent(xs, 0) == 0 && Extent(xs, |xs|) == |Flatten(xs)|
  {
    assert xs[..|xs|] == xs;
  }

  function WireFlow(x: seq<byte>): seq<byte> {
    FlipFlow(Host, x, Zeros(|x|))
  }

  function WireFlows(xs: seq<seq<byte>>): (ws: seq<seq<byte>>)
    ensures |ws| == |xs| && forall i :: 0 <= i < |xs| ==> ws[i] == WireFlow(xs[i])
  {
    seq(|xs|, i requires 0 <= i < |xs| => WireFlow(xs[i]))
  }

  ghost predicate AllKnownFlows(xs: seq<seq<byte>>) {
    forall i :: 0 <= i < |xs| ==> KnownFlow(Host, xs[i])
  }

  ghost predicate FlowList(head: Link?<array<byte>>, s: seq<Item>, xs: seq<seq<byte>>)
    reads s, set l | l in s :: l.data
  {
    Spine(head, s) && Structs(s) == xs && AllKnownFlows(xs)
  }

  lemma FlowsLength(xs: seq<seq<byte>>)
    requires AllKnownFlows(xs)
    ensures |Flatten(WireFlows(xs))| == |Flatten(xs)|
  {
    SameLength(xs, WireFlows(xs));
  }

  lemma FlowAdds(xs: seq<seq<byte>>, i: nat, data: array<byte>)
    requires AllKnownFlows(xs) && i < |xs| && data[..] == xs[i]
    ensures data.Length >= 2 && Peek16(Host, data, 0) == |xs[i]|
    ensures Extent(xs, i) + |xs[i]| == Extent(xs, i + 1) <= |Flatten(xs)|
  {
    PrefixLength(xs, i);
    assert KnownFlow(Host, xs[i]) && data[..][0] == data[0] && data[..][1] == data[1];
  }

  /** The loop that adds up the length fields, in 16 bits. */
  method SumFlows(head: Link?<array<byte>>, ghost s: seq<Item>, ghost xs: seq<seq<byte>>) returns (length: u16)
    requires FlowList(head, s, xs) && |Flatten(xs)| <= 0xffff
    ensures length == |Flatten(xs)|
  {
    length := 0;
    var item := head;
    ghost var i := 0;
    WalkingStart(head, s, xs);
    ExtentEnds(xs);
    assert AllKnownFlows(xs);
    hide *;
    while item != null
      invariant 0 <= i <= |s| == |xs| && Walking(s, xs, i, item) && length == Extent(xs, i)
      decreases |s| - i
    {
      WalkingNext(s, xs, i, item);
      FlowAdds(xs, i, item.data);
      length := (length + Peek16(Host, item.data, 0)) % 0x1_0000;
      item, i := item.next, i + 1;
    }
    WalkingNext(s, xs, i, item);
  }

  /** One hton_flow_stats call into zeroed memory. */
  method WriteFlow(buffer: array<byte>, at: nat, item: array<byte>, ghost x: seq<byte>) returns (len: u16)
    requires item != buffer && item[..] == x && KnownFlow(Host, x)
    requires at + |x| <= buffer.Length && buffer[at..at + |x|] == Zeros(|x|)
    modifies buffer
    ensures buffer[..] == Patch(old(buffer[..]), at, WireFlow(x)) && item[..] == x && len == |x| == |WireFlow(x)|
  {
    hide *;
    WireFlowOf(item, x);
    len := Peek16(Host, item, 0);
    HtonFlowStats(buffer, at, item, 0, |x|);
  }

  lemma WireFlowOf(item: array<byte>, x: seq<byte>)
    requires item[..] == x && KnownFlow(Host, x)
    ensures 88 <= |x| == item.Length && Peek16(Host, item, 0) == |x| && item[0..|x|] == x
    ensures WireFlow(x) == FlipFlow(Host, x, Zeros(|x|)) && |WireFlow(x)| == |x|
  {
    FlowKept(Host, x, Zeros(|x|));
  }

  lemma KnownFlowAt(xs: seq<seq<byte>>, i: nat)
    requires AllKnownFlows(xs) && i < |xs|
    ensures KnownFlow(Host, xs[i]) && |WireFlow(xs[i])| == |xs[i]|
  {
    FlowKept(Host, xs[i], Zeros(|xs[i]|));
  }

  method WriteNextFlow(buffer: array<byte>, at: nat, item: Link<array<byte>>, ghost s: seq<Item>,
                       ghost xs: seq<seq<byte>>, ghost m: seq<byte>, ghost base: nat, ghost i: nat)
    returns (len: u16)
    requires Walking(s, xs, i, item) && Filled(m, base, WireFlows(xs), i, at, buffer[..])
    requires i < |xs| && AllKnownFlows(xs) && forall l :: l in s ==> l.data != buffer
    modifies buffer
    ensures Walking(s, xs, i + 1, item.next) && Filled(m, base, WireFlows(xs), i + 1, at + len, buffer[..])
  {
    hide *;
    ghost var ws := WireFlows(xs);
    KnownFlowAt(xs, i);
    WalkingNext(s, xs, i, item);
    FilledRoom(m, base, ws, i, at, buffer[..]);
    ghost var mem := buffer[..];
    len := WriteFlow(buffer, at, item.data, xs[i]);
    FilledNext(m, base, ws, i, at, mem, buffer[..]);
    WalkingNext(s, xs, i, item);
  }

  lemma FlowListStarts(head: Link?<array<byte>>, s: seq<Item>, xs: seq<seq<byte>>)
    requires FlowList(head, s, xs)
    ensures Walking(s, xs, 0, head) && |s| == |xs| && AllKnownFlows(xs)
  {
    WalkingStart(head, s, xs);
  }

  method WriteFlows(buffer: array<byte>, head: Link?<array<byte>>, ghost s: seq<Item>, ghost xs: seq<seq<byte>>)
    requires FlowList(head, s, xs) && forall l :: l in s ==> l.data != buffer
    requires 12 + |Flatten(WireFlows(xs))| == buffer.Length && forall j :: 12 <= j < buffer.Length ==> buffer[j] == 0
    modifies buffer
    ensures buffer[..] == Patch(old(buffer[..]), 12, Flatten(WireFlows(xs)))
  {
    hide *;
    ghost var m, ws := buffer[..], WireFlows(xs);
    FilledStart(m, 12, ws);
    FlowListStarts(head, s, xs);
    var item, at: nat := head, 12;
    ghost var i := 0;
    while item != null
      invariant 0 <= i <= |s| == |xs| && Walking(s, xs, i, item) && Filled(m, 12, ws, i, at, buffer[..])
      decreases |s| - i
    {
      WalkingNext(s, xs, i, item);
      var len := WriteNextFlow(buffer, at, item, s, xs, m, 12, i);
      item, at, i := item.next, at + len, i + 1;
    }
    WalkingNext(s, xs, i, item);
    FilledDone(m, 12, ws, i, at, buffer[..]);
  }

  predicate IsFlowStatsReply(m: seq<byte>, xid: u32, flags: u16, flows: seq<byte>) {
    && |m| == 12 + |flows| && HeaderIs(m, OFPT_STATS_REPLY, xid)
    && Get16(Wire, m, 8) == OFPST_FLOW && Get16(Wire, m, 10) == flags && m[12..] == flows
  }

  /** cc_create_stats_reply. */
  method CreateStatsReply(xid: u32, type_: u16, length: u16, flags: u16) returns (buffer: array<byte>)
    requires 12 <= length
    ensures fresh(buffer) && buffer.Length == length && HeaderIs(buffer[..], OFPT_STATS_REPLY, xid)
    ensures Get16(Wire, buffer[..], 8) == type_ && Get16(Wire, buffer[..], 10) == flags
    ensures forall j :: 12 <= j < length ==> buffer[j] == 0
  {
    buffer := CreateHeader(xid, OFPT_STATS_REPLY, length);
    Store16(buffer, 8, type_);
    Store16(buffer, 10, flags);
  }

  lemma FlowStatsReplyDone(m: seq<byte>, mid: seq<byte>, xid: u32, flags: u16, flows: seq<byte>)
    requires |mid| == 12 + |flows| && m == Patch(mid, 12, flows) && HeaderIs(mid, OFPT_STATS_REPLY, xid)
    requires Get16(Wire, mid, 8) == OFPST_FLOW && Get16(Wire, mid, 10) == flags
    ensures IsFlowStatsReply(m, xid, flags, flows)
  {
    assert m[12..] == flows;
  }

  method CreateFlowStatsReply(xid: u32, flags: u16, flows: Link?<array<byte>>, ghost s: seq<Item>,
                              ghost xs: seq<seq<byte>>)
    returns (buffer: array<byte>)
    requires FlowList(flows, s, xs) && 12 + |Flatten(xs)| <= 0xffff
    ensures fresh(buffer) && IsFlowStatsReply(buffer[..], xid, flags, Flatten(WireFlows(xs)))
  {
    var length := SumFlows(flows, s, xs);
    FlowsLength(xs);
    buffer := CreateStatsReply(xid, OFPST_FLOW, 12 + length, flags);
    ghost var mid := buffer[..];
    hide *;
    WriteFlows(buffer, flows, s, xs);
    FlowStatsReplyDone(buffer[..], mid, xid, flags, Flatten(WireFlows(xs)));
  }

  // ----- queue configuration reply

  function WireQueue(x: seq<byte>): seq<byte> {
    FlipQueue(Host, x, Zeros(|x|))
  }

  function WireQueues(xs: seq<seq<byte>>): (ws: seq<seq<byte>>)
    ensures |ws| == |xs| && forall i :: 0 <= i < |xs| ==> ws[i] == WireQueue(xs[i])
  {
    seq(|xs|, i requires 0 <= i < |xs| => WireQueue(xs[i]))
  }

  ghost predicate AllKnownQueues(xs: seq<seq<byte>>) {
    forall i :: 0 <= i < |xs| ==> KnownQueue(Host, xs[i])
  }

  ghost predicate QueueList(head: Link?<array<byte>>, s: seq<Item>, xs: seq<seq<byte>>)
    reads s, set l | l in s :: l.data
  {
    Spine(head, s) && Structs(s) == xs && AllKnownQueues(xs)
  }

  lemma QueuesLength(xs: seq<seq<byte>>)
    requires AllKnownQueues(xs)
    ensures |Flatten(WireQueues(xs))| == |Flatten(xs)|
  {
    SameLength(xs, WireQueues(xs));
  }

  lemma QueueAdds(xs: seq<seq<byte>>, i: nat, data: array<byte>)
    requires AllKnownQueues(xs) && i < |xs| && data[..] == xs[i]
    ensures data.Length >= 6 && Peek16(Host, data, 4) == |xs[i]|
    ensures Extent(xs, i) + |xs[i]| == Extent(xs, i + 1) <= |Flatten(xs)|
  {
    PrefixLength(xs, i);
    assert KnownQueue(Host, xs[i]) && data[..][4] == data[4] && data[..][5] == data[5];
  }

  lemma QueueListStarts(head: Link?<array<byte>>, s: seq<Item>, xs: seq<seq<byte>>)
    requires QueueList(head, s, xs)
    ensures Walking(s, xs, 0, head) && |s| == |xs| && AllKnownQueues(xs)
  {
    WalkingStart(head, s, xs);
  }

  /** The loop that adds up the length fields, in 16 bits. */
  method SumQueues(head: Link?<array<byte>>, ghost s: seq<Item>, ghost xs: seq<seq<byte>>) returns (length: u16)
    requires QueueList(head, s, xs) && |Flatten(xs)| <= 0xffff
    ensures length == |Flatten(xs)|
  {
    hide *;
    length := 0;
    var item := head;
    ghost var i := 0;
    QueueListStarts(head, s, xs);
    ExtentEnds(xs);
    while item != null
      invariant 0 <= i <= |s| == |xs| && Walking(s, xs, i, item) && length == Extent(xs, i)
      decreases |s| - i
    {
      WalkingNext(s, xs, i, item);
      QueueAdds(xs, i, item.data);
      length := (length + Peek16(Host, item.data, 4)) % 0x1_0000;
      item, i := item.next, i + 1;
    }
    WalkingNext(s, xs, i, item);
  }

  /** One hton_packet_queue call into zeroed memory. */
  method WriteQueue(buffer: array<byte>, at: nat, item: array<byte>, ghost x: seq<byte>) returns (len: u16)
    requires item != buffer && item[..] == x && KnownQueue(Host, x)
    requires at + |x| <= buffer.Length && buffer[at..at + |x|] == Zeros(|x|)
    modifies buffer
    ensures buffer[..] == Patch(old(buffer[..]), at, WireQueue(x)) && item[..] == x && len == |x| == |WireQueue(x)|
  {
    hide *;
    WireQueueOf(item, x);
    len := Peek16(Host, item, 4);
    PiecesApart(buffer, at, item, |x|);
    HtonPacketQueue(buffer, at, item, 0, |x|, x, Zeros(|x|));
  }

  lemma WireQueueOf(item: array<byte>, x: seq<byte>)
    requires item[..] == x && KnownQueue(Host, x)
    ensures 8 <= |x| == item.Length && Peek16(Host, item, 4) == |x| && item[0..|x|] == x
    ensures WireQueue(x) == FlipQueue(Host, x, Zeros(|x|)) && |WireQueue(x)| == |x|
  {
  }

  lemma KnownQueueAt(xs: seq<seq<byte>>, i: nat)
    requires AllKnownQueues(xs) && i < |xs|
    ensures KnownQueue(Host, xs[i]) && |WireQueue(xs[i])| == |xs[i]|
  {
  }

  method WriteNextQueue(buffer: array<byte>, at: nat, item: Link<array<byte>>, ghost s: seq<Item>,
                        ghost xs: seq<seq<byte>>, ghost m: seq<byte>, ghost base: nat, ghost i: nat)
    returns (len: u16)
    requires Walking(s, xs, i, item) && Filled(m, base, WireQueues(xs), i, at, buffer[..])
    requires i < |xs| && AllKnownQueues(xs) && forall l :: l in s ==> l.data != buffer
    modifies buffer
    ensures Walking(s, xs, i + 1, item.next) && Filled(m, base, WireQueues(xs), i + 1, at + len, buffer[..])
  {
    hide *;
    ghost var ws := WireQueues(xs);
    KnownQueueAt(xs, i);
    WalkingNext(s, xs, i, item);
    FilledRoom(m, base, ws, i, at, buffer[..]);
    ghost var mem := buffer[..];
    len := WriteQueue(buffer, at, item.data, xs[i]);
    FilledNext(m, base, ws, i, at, mem, buffer[..]);
    WalkingNext(s, xs, i, item);
  }

  method WriteQueues(buffer: array<byte>, head: Link?<array<byte>>, ghost s: seq<Item>, ghost xs: seq<seq<byte>>)
    requires QueueList(head, s, xs) && forall l :: l in s ==> l.data != buffer
    requires 16 + |Flatten(WireQueues(xs))| == buffer.Length && forall j :: 16 <= j < buffer.Length ==> buffer[j] == 0
    modifies buffer
    ensures buffer[..] == Patch(old(buffer[..]), 16, Flatten(WireQueues(xs)))
  {
    hide *;
    ghost var m, ws := buffer[..], WireQueues(xs);
    FilledStart(m, 16, ws);
    QueueListStarts(head, s, xs);
    var item, at: nat := head, 16;
    ghost var i := 0;
    while item != null
      invariant 0 <= i <= |s| == |xs| && Walking(s, xs, i, item) && Filled(m, 16, ws, i, at, buffer[..])
      decreases |s| - i
    {
      WalkingNext(s, xs, i, item);
      var len := WriteNextQueue(buffer, at, item, s, xs, m, 16, i);
      item, at, i := item.next, at + len, i + 1;
    }
    WalkingNext(s, xs, i, item);
    FilledDone(m, 16, ws, i, at, buffer[..]);
  }

  predicate IsQueueConfigReply(m: seq<byte>, xid: u32, port: u16, queues: seq<byte>) {
    && |m| == 16 + |queues| && HeaderIs(m, OFPT_QUEUE_GET_CONFIG_REPLY, xid)
    && Get16(Wire, m, 8) == port && m[10..16] == [0, 0, 0, 0, 0, 0] && m[16..] == queues
  }

  lemma QueueConfigReplyDone(m: seq<byte>, mid: seq<byte>, xid: u32, port: u16, queues: seq<byte>)
    requires |mid| == 16 + |queues| && m == Patch(mid, 16, queues) && HeaderIs(mid, OFPT_QUEUE_GET_CONFIG_REPLY, xid)
    requires Get16(Wire, mid, 8) == port && mid[10..16] == [0, 0, 0, 0, 0, 0]
    ensures IsQueueConfigReply(m, xid, port, queues)
  {
    assert m[16..] == queues && m[10..16] == mid[10..16];
  }

  method PrepareQueueConfigReply(xid: u32, port: u16, length: u16) returns (buffer: array<byte>)
    requires 16 <= length
    ensures fresh(buffer) && buffer.Length == length && HeaderIs(buffer[..], OFPT_QUEUE_GET_CONFIG_REPLY, xid)
    ensures Get16(Wire, buffer[..], 8) == port && buffer[10..16] == [0, 0, 0, 0, 0, 0]
    ensures forall j :: 16 <= j < length ==> buffer[j] == 0
  {
    buffer := CreateHeader(xid, OFPT_QUEUE_GET_CONFIG_REPLY, length);
    Store16(buffer, 8, port);
    assert forall j :: 10 <= j < length ==> buffer[j] == 0;
    SixZeros(buffer[..]);
  }

  lemma SixZeros(m: seq<byte>)
    requires 16 <= |m| && m[10] == 0 && m[11] == 0 && m[12] == 0 && m[13] == 0 && m[14] == 0 && m[15] == 0
    ensures m[10..16] == [0, 0, 0, 0, 0, 0]
  {
  }

  method CreateQueueGetConfigReply(xid: u32, port: u16, queues: Link?<array<byte>>, ghost s: seq<Item>,
                                   ghost xs: seq<seq<byte>>)
    returns (buffer: array<byte>)
    requires QueueList(queues, s, xs) && 16 + |Flatten(xs)| <= 0xffff
    ensures fresh(buffer) && IsQueueConfigReply(buffer[..], xid, port, Flatten(WireQueues(xs)))
  {
    var queuesLength := SumQueues(queues, s, xs);
    QueuesLength(xs);
    buffer := PrepareQueueConfigReply(xid, port, 16 + queuesLength);
    ghost var mid := buffer[..];
    hide *;
    WriteQueues(buffer, queues, s, xs);
    QueueConfigReplyDone(buffer[..], mid, xid, port, Flatten(WireQueues(xs)));
  }
}
