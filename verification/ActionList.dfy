/**
 src/cc_of_action.c: action lists.  Each action is a structure in host order that
 a node of a singly linked list points at; what padding holds is not specified.
 */
module ActionList {

  import opened SingleLink
  import opened Bytes
  import opened Options
  import R = Records

  type Item = Link<array<byte>>

  /** The structures that the nodes s point at. */
  ghost function Structs(s: seq<Item>): (r: seq<seq<byte>>)
    reads s, set l | l in s :: l.data
    ensures |r| == |s| && forall i :: 0 <= i < |s| ==> r[i] == s[i].data[..]
  {
    seq(|s|, i requires 0 <= i < |s| reads s, set l | l in s :: l.data => s[i].data[..])
  }

  /** A loop over the list s of the structures xs has come to its i-th node. */
  ghost predicate Walking(s: seq<Item>, xs: seq<seq<byte>>, i: nat, item: Link?<array<byte>>)
    reads s, set l | l in s :: l.data
  {
    && i <= |s| && Structs(s) == xs && item == (if i < |s| then s[i] else null)
    && (forall j {:trigger s[j].next} :: 0 <= j < |s| ==> s[j].next == if j + 1 < |s| then s[j + 1] else null)
  }

  lemma WalkingStart(head: Link?<array<byte>>, s: seq<Item>, xs: seq<seq<byte>>)
    requires Spine(head, s) && Structs(s) == xs
    ensures Walking(s, xs, 0, head) && |s| == |xs|
  {
  }

  lemma WalkingNext(s: seq<Item>, xs: seq<seq<byte>>, i: nat, item: Link?<array<byte>>)
    requires Walking(s, xs, i, item)
    ensures if item == null then i == |s|
            else i < |s| == |xs| && item in s && item.data[..] == xs[i] && Walking(s, xs, i + 1, item.next)
  {
    if item != null {
      assert s[i].next == if i + 1 < |s| then s[i + 1] else null;
    }
  }

  /** An action well-formed in host order, and what it is. */
  ghost predicate Is(x: seq<byte>, a: R.Action) {
    R.Exact(Host, x) && R.DecodeAction(Host, x) == Some(a)
  }

  /** The sum of the length fields. */
  function Total(xs: seq<seq<byte>>): nat
    requires forall i :: 0 <= i < |xs| ==> |xs[i]| >= 4
  {
    if xs == [] then 0 else Total(xs[..|xs| - 1]) + Get16(Host, xs[|xs| - 1], 2)
  }

  /** One action more than before, the last of which is a. */
  ghost predicate Appended(before: seq<seq<byte>>, after: seq<seq<byte>>, a: R.Action) {
    |after| == |before| + 1 && after[..|before|] == before && Is(after[|before|], a)
  }

  /** A structure with its type and length set. */
  method NewAction(code: u16, len: u16) returns (action: array<byte>)
    requires 8 <= len
    ensures fresh(action) && action.Length == len
    ensures action[0] == code % 0x100 && action[1] == code / 0x100 && action[2] == len % 0x100 &&
            action[3] == len / 0x100
  {
    action := new byte[len];
    action[0], action[1], action[2], action[3] := code % 0x100, code / 0x100, len % 0x100, len / 0x100;
  }

  lemma Split32(v: u32)
    ensures v == (v % 0x100 + 0x100 * (v / 0x100 % 0x100))
                 + 0x1_0000 * (v / 0x1_0000 % 0x100 + 0x100 * (v / 0x100_0000))
  {
    var a, b, c := v / 0x100, v / 0x1_0000, v / 0x100_0000;
    assert v == 0x100 * a + v % 0x100 && a == 0x100 * b + a % 0x100 && b == 0x100 * c + b % 0x100;
  }

  method NewNwAddrAction(code: u16, addr: u32) returns (action: array<byte>)
    requires code in {R.SET_NW_SRC, R.SET_NW_DST}
    ensures fresh(action) && Is(action[..], R.SetNwAddr(code == R.SET_NW_SRC, addr))
  {
    action := NewAction(code, 8);
    action[4], action[5], action[6], action[7] :=
      addr % 0x100, addr / 0x100 % 0x100, addr / 0x1_0000 % 0x100, addr / 0x100_0000;
    Split32(addr);
    assert Get16(Host, action[..], 0) == code && Get16(Host, action[..], 2) == 8;
  }

  method NewOutputAction(port: u16, maxLen: u16) returns (action: array<byte>)
    ensures fresh(action) && Is(action[..], R.Output(port, maxLen))
  {
    action := NewAction(R.OUTPUT, 8);
    action[4], action[5] := port % 0x100, port / 0x100;
    action[6], action[7] := maxLen % 0x100, maxLen / 0x100;
    ghost var x := action[..];
    assert Get16(Host, x, 0) == R.OUTPUT && Get16(Host, x, 2) == 8;
    assert Get16(Host, x, 4) == port && Get16(Host, x, 6) == maxLen;
    hide Get16;
  }

  method NewVlanVidAction(vid: u16) returns (action: array<byte>)
    ensures fresh(action) && Is(action[..], R.SetVlanVid(vid))
  {
    action := NewAction(R.SET_VLAN_VID, 8);
    action[4], action[5] := vid % 0x100, vid / 0x100;
    ghost var x := action[..];
    assert Get16(Host, x, 0) == R.SET_VLAN_VID && Get16(Host, x, 2) == 8 && Get16(Host, x, 4) == vid;
    hide Get16;
  }

  method NewTpPortAction(code: u16, port: u16) returns (action: array<byte>)
    requires code in {R.SET_TP_SRC, R.SET_TP_DST}
    ensures fresh(action) && Is(action[..], R.SetTpPort(code == R.SET_TP_SRC, port))
  {
    action := NewAction(code, 8);
    action[4], action[5] := port % 0x100, port / 0x100;
    ghost var x := action[..];
    assert Get16(Host, x, 0) == code && Get16(Host, x, 2) == 8 && Get16(Host, x, 4) == port;
    hide Get16;
  }

  lemma IsDlAddr(x: seq<byte>, code: u16, mac: seq<byte>)
    requires code in {R.SET_DL_SRC, R.SET_DL_DST} && |x| == 16 && x[4..10] == mac
    requires Get16(Host, x, 0) == code && Get16(Host, x, 2) == 16
    ensures Is(x, R.SetDlAddr(code == R.SET_DL_SRC, mac))
  {
  }

  method NewDlAddrAction(code: u16, mac: seq<byte>) returns (action: array<byte>)
    requires code in {R.SET_DL_SRC, R.SET_DL_DST} && |mac| == 6
    ensures fresh(action) && Is(action[..], R.SetDlAddr(code == R.SET_DL_SRC, mac))
  {
    action := NewAction(code, 16);
    action[4], action[5], action[6], action[7], action[8], action[9] := mac[0], mac[1], mac[2], mac[3], mac[4], mac[5];
    ghost var x := action[..];
    assert x[4..10] == mac;
    assert Get16(Host, x, 0) == code && Get16(Host, x, 2) == 16 && |x| == 16;
    hide Is, Get16;
    IsDlAddr(x, code, mac);
  }

  method NewEnqueueAction(port: u16, queueId: u32) returns (action: array<byte>)
    ensures fresh(action) && Is(action[..], R.Enqueue(port, queueId))
  {
    action := NewAction(R.ENQUEUE, 16);
    action[4], action[5] := port % 0x100, port / 0x100;
    action[12], action[13], action[14], action[15] :=
      queueId % 0x100, queueId / 0x100 % 0x100, queueId / 0x1_0000 % 0x100, queueId / 0x100_0000;
    Split32(queueId);
  }

  /** The structure of a vendor action whose body is cut to 16 bits of length. */
  method NewVendorAction(vendor: u32, body: seq<byte>) returns (action: array<byte>)
    requires |body| < 0x1_0000
    ensures fresh(action) && action.Length == 8 + |body|
    ensures if |body| <= 65527 then Is(action[..], R.Vendor(vendor, body)) else R.DecodeAction(Host, action[..]) == None
  {
    action := new byte[8 + |body|];
    var len := (8 + |body|) % 0x1_0000;
    forall i | 0 <= i < |body| {
      action[8 + i] := body[i];
    }
    action[0], action[1], action[2], action[3] := R.VENDOR % 0x100, R.VENDOR / 0x100, len % 0x100, len / 0x100;
    action[4], action[5], action[6], action[7] :=
      vendor % 0x100, vendor / 0x100 % 0x100, vendor / 0x1_0000 % 0x100, vendor / 0x100_0000;
    Split32(vendor);
    ghost var x := action[..];
    assert x[0] == 0xff && x[1] == 0xff && x[2] == len % 0x100 && x[3] == len / 0x100;
    assert x[4] == vendor % 0x100 && x[5] == vendor / 0x100 % 0x100 && x[6] == vendor / 0x1_0000 % 0x100
      && x[7] == vendor / 0x100_0000;
    assert x[8..] == body;
    VendorIs(x, vendor, len);
  }

  lemma VendorIs(x: seq<byte>, vendor: u32, len: u16)
    requires 8 <= |x| && len == |x| % 0x1_0000 && |x| <= 0x1_0000 + 7
    requires x[0] == 0xff && x[1] == 0xff && x[2] == len % 0x100 && x[3] == len / 0x100
    requires x[4] == vendor % 0x100 && x[5] == vendor / 0x100 % 0x100 && x[6] == vendor / 0x1_0000 % 0x100
    requires x[7] == vendor / 0x100_0000
    ensures if |x| <= 0xffff then Is(x, R.Vendor(vendor, x[8..])) else R.DecodeAction(Host, x) == None
  {
    Split32(vendor);
    assert Get16(Host, x, 2) == len && Get16(Host, x, 0) == R.VENDOR && Get32(Host, x, 4) == vendor;
  }

  /** One turn of get_actions_length: whether the type is defined, and the sum so far. */
  method AddLength(action: Item, sum: nat, ghost s: seq<Item>, ghost xs: seq<seq<byte>>, ghost i: nat)
    returns (defined: bool, sum': nat)
    requires Walking(s, xs, i, action) && forall j :: 0 <= j < |xs| ==> |xs[j]| >= 4
    requires i <= |xs| && sum == Total(xs[..i])
    ensures i < |s| == |xs| && Walking(s, xs, i + 1, action.next)
    ensures defined <==> R.Defined(Get16(Host, xs[i], 0))
    ensures sum' == Total(xs[..i + 1])
  {
    WalkingNext(s, xs, i, action);
    var header := action.data;
    ghost var x := xs[i];
    assert header[..] == x && xs[..i + 1][..i] == xs[..i];
    hide Walking;
    var code, len := Get16(Host, header[..], 0), Get16(Host, header[..], 2);
    defined, sum' := code <= R.ENQUEUE || code == R.VENDOR, sum + len as int;
  }

  /** The first i actions are of defined types. */
  ghost predicate AllDefined(xs: seq<seq<byte>>, i: nat) {
    i <= |xs| && forall j :: 0 <= j < i ==> |xs[j]| >= 2 && R.Defined(Get16(Host, xs[j], 0))
  }

  lemma DefinedNext(xs: seq<seq<byte>>, i: nat)
    requires AllDefined(xs, i) && i < |xs| && |xs[i]| >= 2
    ensures AllDefined(xs, i + 1) <==> R.Defined(Get16(Host, xs[i], 0))
    ensures !AllDefined(xs, i + 1) ==> !AllDefined(xs, |xs|)
  {
    if AllDefined(xs, |xs|) {
      assert R.Defined(Get16(Host, xs[i], 0));
    }
  }

  /** The loop of get_actions_length. */
  method AddLengths(head: Link?<array<byte>>, ghost s: seq<Item>, ghost xs: seq<seq<byte>>)
      returns (allDefined: bool, sum: nat)
    requires Walking(s, xs, 0, head) && |s| == |xs| && forall j :: 0 <= j < |xs| ==> |xs[j]| >= 4
    ensures allDefined <==> AllDefined(xs, |xs|)
    ensures allDefined ==> sum == Total(xs)
  {
    var action := head;
    ghost var i := 0;
    sum := 0;
    assert xs[..0] == [] && Total(xs[..0]) == 0 && AllDefined(xs, 0);
    hide *;
    while action != null
      invariant 0 <= i <= |xs| && Walking(s, xs, i, action) && sum == Total(xs[..i]) && AllDefined(xs, i)
      decreases |xs| - i
    {
      DefinedNext(xs, i) by {
        WalkingNext(s, xs, i, action);
      }
      allDefined, sum := AddLength(action, sum, s, xs, i);
      if !allDefined {
        return;
      }
      action, i := action.next, i + 1;
    }
    WalkingNext(s, xs, i, action);
    assert xs[..i] == xs;
    allDefined := true;
  }

  /** The structures of a list whose values are those before and one more. */
  lemma StructsAppended(s: seq<Item>, before: seq<array<byte>>, action: array<byte>, xs: seq<seq<byte>>)
    requires Values(s) == before + [action]
    requires |xs| == |before| && forall j :: 0 <= j < |before| ==> before[j][..] == xs[j]
    ensures Structs(s) == xs + [action[..]]
  {
    var ys := Structs(s);
    forall j | 0 <= j < |s| ensures ys[j] == (xs + [action[..]])[j] {
      assert s[j].data == Values(s)[j];
    }
  }

  class OpenflowActions {
    var list: Link?<array<byte>>
    ghost var spine: seq<Item>

    ghost predicate Valid()
      reads this, spine
    {
      Spine(list, spine)
    }

    constructor ()
      ensures Valid() && spine == []
    {
      list := null;
      spine := [];
    }

    lemma ListStarts()
      requires Valid()
      ensures Walking(spine, Structs(spine), 0, list) && |spine| == |Structs(spine)|
    {
      WalkingStart(list, spine, Structs(spine));
    }

    method Adopt(newList: Link?<array<byte>>, ghost more: seq<Item>)
      requires Spine(newList, more)
      modifies this
      ensures Valid() && spine == more
    {
      assert forall l :: l in more ==> l as object != this;
      hide Spine;
      list, spine := newList, more;
    }

    method Append(action: array<byte>)
      requires Valid()
      modifies this, spine
      ensures Valid() && Structs(spine) == old(Structs(spine)) + [old(action[..])]
    {
      ghost var before := Structs(spine);
      assert Spine(list, spine);
      hide *;
      var newList;
      ghost var more;
      newList, more := AppendToTail(list, action, spine);
      StructsAppended(more, old(Values(spine)), action, before);
      Adopt(newList, more);
    }

    method AppendActionOutput(port: u16, maxLen: u16)
      requires Valid()
      modifies this, spine
      ensures Valid() && Appended(old(Structs(spine)), Structs(spine), R.Output(port, maxLen))
    {
      hide Is, Spine;
      var action := NewOutputAction(port, maxLen);
      Append(action);
    }

    method AppendActionSetVlanVid(vid: u16)
      requires Valid()
      modifies this, spine
      ensures Valid() && Appended(old(Structs(spine)), Structs(spine), R.SetVlanVid(vid))
    {
      hide Is, Spine;
      var action := NewVlanVidAction(vid);
      Append(action);
    }

    method AppendActionSetVlanPcp(pcp: byte)
      requires Valid()
      modifies this, spine
      ensures Valid() && Appended(old(Structs(spine)), Structs(spine), R.SetVlanPcp(pcp))
    {
      var action := NewAction(R.SET_VLAN_PCP, 8);
      action[4] := pcp;
      assert Is(action[..], R.SetVlanPcp(pcp));
      hide Is;
      Append(action);
    }

    method AppendActionStripVlan()
      requires Valid()
      modifies this, spine
      ensures Valid() && Appended(old(Structs(spine)), Structs(spine), R.StripVlan)
    {
      var action := NewAction(R.STRIP_VLAN, 8);
      assert Is(action[..], R.StripVlan);
      hide Is;
      Append(action);
    }

    /** append_action_set_dl_src and append_action_set_dl_dst. */
    method AppendActionSetDlAddr(code: u16, mac: seq<byte>)
      requires Valid()
      requires code in {R.SET_DL_SRC, R.SET_DL_DST} && |mac| == 6
      modifies this, spine
      ensures Valid() && Appended(old(Structs(spine)), Structs(spine), R.SetDlAddr(code == R.SET_DL_SRC, mac))
    {
      hide Is, Spine;
      var action := NewDlAddrAction(code, mac);
      Append(action);
    }

    /** append_action_set_nw_src and append_action_set_nw_dst. */
    method AppendActionSetNwAddr(code: u16, addr: u32)
      requires Valid()
      requires code in {R.SET_NW_SRC, R.SET_NW_DST}
      modifies this, spine
      ensures Valid() && Appended(old(Structs(spine)), Structs(spine), R.SetNwAddr(code == R.SET_NW_SRC, addr))
    {
      hide Is, Spine;
      var action := NewNwAddrAction(code, addr);
      Append(action);
    }

    method AppendActionSetNwTos(tos: byte)
      requires Valid()
      modifies this, spine
      ensures Valid() && Appended(old(Structs(spine)), Structs(spine), R.SetNwTos(tos))
    {
      var action := NewAction(R.SET_NW_TOS, 8);
      action[4] := tos;
      assert Is(action[..], R.SetNwTos(tos));
      hide Is;
      Append(action);
    }

    /** append_action_set_tp_src and append_action_set_tp_dst. */
    method AppendActionSetTpPort(code: u16, port: u16)
      requires Valid()
      requires code in {R.SET_TP_SRC, R.SET_TP_DST}
      modifies this, spine
      ensures Valid() && Appended(old(Structs(spine)), Structs(spine), R.SetTpPort(code == R.SET_TP_SRC, port))
    {
      hide Is, Spine;
      var action := NewTpPortAction(code, port);
      Append(action);
    }

    method AppendActionEnqueue(port: u16, queueId: u32)
      requires Valid()
      modifies this, spine
      ensures Valid() && Appended(old(Structs(spine)), Structs(spine), R.Enqueue(port, queueId))
    {
      hide Is, Spine;
      var action := NewEnqueueAction(port, queueId);
      Append(action);
    }

    /** The body's length and the action's are truncated to 16 bits, so a body of 65528
        to 65535 bytes gives an action whose length field is below the least one. */
    method AppendActionVendor(vendor: u32, body: seq<byte>)
      requires Valid()
      modifies this, spine
      ensures Valid() && |Structs(spine)| == |old(Structs(spine))| + 1
      ensures var n := |body| % 0x1_0000;
              if n <= 65527 then Appended(old(Structs(spine)), Structs(spine), R.Vendor(vendor, body[..n]))
              else R.DecodeAction(Host, Structs(spine)[|Structs(spine)| - 1]) == None
    {
      var bodyLength := |body| % 0x1_0000;
      var action := NewVendorAction(vendor, body[..bodyLength]);
      hide R.DecodeAction, Is;
      Append(action);
    }

    /** get_actions_length: -1 cut to 16 bits for an undefined type or a sum that does not fit. */
    method GetActionsLength() returns (length: u16)
      requires Valid() && forall j :: 0 <= j < |spine| ==> |Structs(spine)[j]| >= 4
      ensures var xs := Structs(spine);
              length == if (exists j :: 0 <= j < |xs| && 11 < Get16(Host, xs[j], 0) < 0xffff) || Total(xs) > 0xffff
                        then 0xffff else Total(xs)
    {
      WalkingStart(list, spine, Structs(spine));
      var defined, actionsLength := AddLengths(list, spine, Structs(spine));
      if !defined {
        return 0xffff;
      }
      if actionsLength > 0xffff {
        return 0xffff;
      }
      return actionsLength;
    }
  }
}
