/**
 lib/cc_byte_order.c: conversions between wire records and host structures,
 field by field, in memory.  A pointer is an array and a position in it.
 */
module ByteOrder {

  import opened Bytes
  import opened Tlv
  import opened Records
  import opened Regions
  import opened InPlace

  /** Memory m with the bytes x at d. */
  function Patch(m: seq<byte>, d: nat, x: seq<byte>): (r: seq<byte>)
    requires d + |x| <= |m|
    ensures |r| == |m|
    ensures forall i {:trigger r[i]} :: 0 <= i < |m| ==> r[i] == if d <= i < d + |x| then x[i - d] else m[i]
  {
    m[..d] + x + m[d + |x|..]
  }

  lemma PatchBeyond(m: seq<byte>, d: nat, x: seq<byte>, a: nat, b: nat)
    requires d + |x| <= a <= b <= |m|
    ensures Patch(m, d, x)[a..b] == m[a..b]
  {
  }

  lemma PatchTwice(m: seq<byte>, d: nat, x: seq<byte>, e: nat, y: seq<byte>)
    requires e == d + |x| && e + |y| <= |m|
    ensures Patch(Patch(m, d, x), e, y) == Patch(m, d, x + y)
  {
  }

  lemma Peel(w: seq<byte>, at: nat, v: seq<byte>, rest: seq<byte>)
    requires at <= |w| && w[at..] == v + rest
    ensures at + |v| <= |w| && w[..at + |v|] == w[..at] + v && w[at + |v|..] == rest
  {
    assert |w| - at == |v| + |rest|;
    assert w[at + |v|..] == w[at..][|v|..];
    forall i | at <= i < at + |v| ensures w[i] == v[i - at] {
      assert w[i] == w[at..][i - at];
    }
  }

  /** Of two pieces of n bytes: different memory, the same piece, or pieces that do not overlap. */
  predicate Apart(dst: array<byte>, d: nat, src: array<byte>, s: nat, n: nat) {
    dst != src || d == s || d + n <= s || s + n <= d
  }

  /** k bytes of the record x have been converted to w, at d in memory that held m; the
      others are still to be read at s. */
  ghost predicate Halfway(dst: array<byte>, d: nat, src: array<byte>, s: nat,
                          x: seq<byte>, w: seq<byte>, m: seq<byte>, k: nat)
    reads dst, src
  {
    && |w| == |x| && k <= |w| && Apart(dst, d, src, s, |x|)
    && |m| == dst.Length && d + |w| <= dst.Length && s + |x| <= src.Length
    && (forall i {:trigger dst[i]} :: 0 <= i < dst.Length ==> dst[i] == if d <= i < d + k then w[i - d] else m[i])
    && (forall j {:trigger x[j]} :: k <= j < |x| ==> src[s + j] == x[j])
  }

  predicate Copied(x: seq<byte>, w: seq<byte>, k: nat, n: nat) {
    |w| == |x| && k + n <= |x| && forall i {:trigger w[i]} :: k <= i < k + n ==> w[i] == x[i]
  }

  predicate Cleared(w: seq<byte>, k: nat, n: nat) {
    k + n <= |w| && forall i {:trigger w[i]} :: k <= i < k + n ==> w[i] == 0
  }

  method Swap16(dst: array<byte>, d: nat, src: array<byte>, s: nat,
                ghost x: seq<byte>, ghost w: seq<byte>, ghost m: seq<byte>, k: nat)
    requires Halfway(dst, d, src, s, x, w, m, k) && Reversed(x, w, k, 2)
    modifies dst
    ensures Halfway(dst, d, src, s, x, w, m, k + 2)
  {
    assert src[s + k] == x[k] && src[s + k + 1] == x[k + 1];
    dst[d + k], dst[d + k + 1] := src[s + k + 1], src[s + k];
  }

  /** Four bytes of the converted record are stored. */
  method StoreFour(dst: array<byte>, d: nat, src: array<byte>, s: nat, ghost x: seq<byte>, ghost w: seq<byte>,
                   ghost m: seq<byte>, k: nat, a: byte, b: byte, e: byte, f: byte)
    requires Halfway(dst, d, src, s, x, w, m, k) && k + 4 <= |w|
    requires a == w[k] && b == w[k + 1] && e == w[k + 2] && f == w[k + 3]
    modifies dst
    ensures Halfway(dst, d, src, s, x, w, m, k + 4)
  {
    dst[d + k], dst[d + k + 1], dst[d + k + 2], dst[d + k + 3] := a, b, e, f;
  }

  lemma HalfwayReads(dst: array<byte>, d: nat, src: array<byte>, s: nat, x: seq<byte>, w: seq<byte>, m: seq<byte>,
                     k: nat, n: nat)
    requires Halfway(dst, d, src, s, x, w, m, k) && Reversed(x, w, k, n)
    ensures k + n <= |x| == |w| && s + k + n <= src.Length
    ensures forall j {:trigger w[j]} :: k <= j < k + n ==> w[j] == src[s + 2 * k + n - 1 - j]
  {
    forall j {:trigger w[j]} | k <= j < k + n ensures w[j] == src[s + 2 * k + n - 1 - j] {
      assert w[j] == x[2 * k + n - 1 - j];
    }
  }

  method Swap32(dst: array<byte>, d: nat, src: array<byte>, s: nat,
                ghost x: seq<byte>, ghost w: seq<byte>, ghost m: seq<byte>, k: nat)
    requires Halfway(dst, d, src, s, x, w, m, k) && Reversed(x, w, k, 4)
    modifies dst
    ensures Halfway(dst, d, src, s, x, w, m, k + 4)
  {
    hide *;
    HalfwayReads(dst, d, src, s, x, w, m, k, 4);
    assert w[k] == src[s + k + 3] && w[k + 1] == src[s + k + 2];
    assert w[k + 2] == src[s + k + 1] && w[k + 3] == src[s + k];
    StoreFour(dst, d, src, s, x, w, m, k, src[s + k + 3], src[s + k + 2], src[s + k + 1], src[s + k]);
  }

  /** All eight bytes are read before the first is stored. */
  method Swap64(dst: array<byte>, d: nat, src: array<byte>, s: nat,
                ghost x: seq<byte>, ghost w: seq<byte>, ghost m: seq<byte>, k: nat)
    requires Halfway(dst, d, src, s, x, w, m, k) && Reversed(x, w, k, 8)
    modifies dst
    ensures Halfway(dst, d, src, s, x, w, m, k + 8)
  {
    hide *;
    HalfwayReads(dst, d, src, s, x, w, m, k, 8);
    var low, low1, low2, low3 := src[s + k], src[s + k + 1], src[s + k + 2], src[s + k + 3];
    assert w[k + 4] == low3 && w[k + 5] == low2 && w[k + 6] == low1 && w[k + 7] == low;
    assert w[k] == src[s + k + 7] && w[k + 1] == src[s + k + 6];
    assert w[k + 2] == src[s + k + 5] && w[k + 3] == src[s + k + 4];
    StoreFour(dst, d, src, s, x, w, m, k, src[s + k + 7], src[s + k + 6], src[s + k + 5], src[s + k + 4]);
    StoreFour(dst, d, src, s, x, w, m, k + 4, low3, low2, low1, low);
  }

  method Copy(dst: array<byte>, d: nat, src: array<byte>, s: nat,
              ghost x: seq<byte>, ghost w: seq<byte>, ghost m: seq<byte>, k: nat, n: nat)
    requires Halfway(dst, d, src, s, x, w, m, k) && Copied(x, w, k, n)
    modifies dst
    ensures Halfway(dst, d, src, s, x, w, m, k + n)
  {
    for i := k to k + n
      invariant Halfway(dst, d, src, s, x, w, m, i)
    {
      assert src[s + i] == x[i];
      dst[d + i] := src[s + i];
    }
  }

  method Clear(dst: array<byte>, d: nat, ghost src: array<byte>, ghost s: nat,
               ghost x: seq<byte>, ghost w: seq<byte>, ghost m: seq<byte>, k: nat, n: nat)
    requires Halfway(dst, d, src, s, x, w, m, k) && Cleared(w, k, n)
    modifies dst
    ensures Halfway(dst, d, src, s, x, w, m, k + n)
  {
    for i := k to k + n
      invariant Halfway(dst, d, src, s, x, w, m, i)
    {
      assert w[i] == 0;
      dst[d + i] := 0;
    }
  }

  lemma Finished(dst: array<byte>, d: nat, src: array<byte>, s: nat, x: seq<byte>, w: seq<byte>, m: seq<byte>)
    requires Halfway(dst, d, src, s, x, w, m, |w|)
    ensures dst[..] == Patch(m, d, w)
  {
  }

  lemma MatchFields(x: seq<byte>)
    requires |x| == 40
    ensures var w := Mirror(MatchStruct, x);
            && Reversed(x, w, 0, 4) && Reversed(x, w, 4, 2) && Copied(x, w, 6, 6) && Copied(x, w, 12, 6)
            && Reversed(x, w, 18, 2) && Copied(x, w, 20, 1) && Cleared(w, 21, 1) && Reversed(x, w, 22, 2)
            && Copied(x, w, 24, 1) && Copied(x, w, 25, 1) && Cleared(w, 26, 2) && Reversed(x, w, 28, 4)
            && Reversed(x, w, 32, 4) && Reversed(x, w, 36, 2) && Reversed(x, w, 38, 2)
  {
  }

  /** ntoh_match, which is also hton_match. */
  method NtohMatch(dst: array<byte>, d: nat, src: array<byte>, s: nat)
    requires d + 40 <= dst.Length && s + 40 <= src.Length && Apart(dst, d, src, s, 40)
    modifies dst
    ensures dst[..] == Patch(old(dst[..]), d, Mirror(MatchStruct, old(src[s..s + 40])))
  {
    ghost var m, x := dst[..], src[s..s + 40];
    ghost var w := Mirror(MatchStruct, x);
    MatchFields(x);
    hide Halfway, Mirror, Reversed, Copied, Cleared;
    Swap32(dst, d, src, s, x, w, m, 0);
    Swap16(dst, d, src, s, x, w, m, 4);
    Copy(dst, d, src, s, x, w, m, 6, 6);
    Copy(dst, d, src, s, x, w, m, 12, 6);
    Swap16(dst, d, src, s, x, w, m, 18);
    Copy(dst, d, src, s, x, w, m, 20, 1);
    Clear(dst, d, src, s, x, w, m, 21, 1);
    Swap16(dst, d, src, s, x, w, m, 22);
    Copy(dst, d, src, s, x, w, m, 24, 1);
    Copy(dst, d, src, s, x, w, m, 25, 1);
    Clear(dst, d, src, s, x, w, m, 26, 2);
    Swap32(dst, d, src, s, x, w, m, 28);
    Swap32(dst, d, src, s, x, w, m, 32);
    Swap16(dst, d, src, s, x, w, m, 36);
    Swap16(dst, d, src, s, x, w, m, 38);
    Finished(dst, d, src, s, x, w, m);
  }

  lemma PhyPortFields(x: seq<byte>)
    requires |x| == 48
    ensures var w := Mirror(PhyPortStruct, x);
            && Reversed(x, w, 0, 2) && Copied(x, w, 2, 6) && Copied(x, w, 8, 16) && Reversed(x, w, 24, 4)
            && Reversed(x, w, 28, 4) && Reversed(x, w, 32, 4) && Reversed(x, w, 36, 4) && Reversed(x, w, 40, 4)
            && Reversed(x, w, 44, 4)
  {
  }

  /** ntoh_phy_port, which is also hton_phy_port. */
  method NtohPhyPort(dst: array<byte>, d: nat, src: array<byte>, s: nat)
    requires d + 48 <= dst.Length && s + 48 <= src.Length && Apart(dst, d, src, s, 48)
    modifies dst
    ensures dst[..] == Patch(old(dst[..]), d, Mirror(PhyPortStruct, old(src[s..s + 48])))
  {
    ghost var m, x := dst[..], src[s..s + 48];
    ghost var w := Mirror(PhyPortStruct, x);
    PhyPortFields(x);
    hide Halfway, Mirror, Reversed, Copied, Cleared;
    Swap16(dst, d, src, s, x, w, m, 0);
    Copy(dst, d, src, s, x, w, m, 2, 6);
    Copy(dst, d, src, s, x, w, m, 8, 16);
    Swap32(dst, d, src, s, x, w, m, 24);
    Swap32(dst, d, src, s, x, w, m, 28);
    Swap32(dst, d, src, s, x, w, m, 32);
    Swap32(dst, d, src, s, x, w, m, 36);
    Swap32(dst, d, src, s, x, w, m, 40);
    Swap32(dst, d, src, s, x, w, m, 44);
    Finished(dst, d, src, s, x, w, m);
  }

  // ----- actions; the fixed-size converters serve both directions

  lemma ActionFields(code: u16, x: seq<byte>)
    requires Defined(code) && Fits(ActionStruct(code), |x|)
    ensures var w := Mirror(ActionStruct(code), x);
            && Reversed(x, w, 0, 2) && Reversed(x, w, 2, 2)
            && (code == OUTPUT ==> Reversed(x, w, 4, 2) && Reversed(x, w, 6, 2))
            && (code in {SET_VLAN_VID, SET_TP_SRC, SET_TP_DST} ==> Reversed(x, w, 4, 2) && Cleared(w, 6, 2))
            && (code in {SET_VLAN_PCP, SET_NW_TOS} ==> Copied(x, w, 4, 1) && Cleared(w, 5, 3))
            && (code == STRIP_VLAN ==> Cleared(w, 4, 4))
            && (code in {SET_DL_SRC, SET_DL_DST} ==> Copied(x, w, 4, 6) && Cleared(w, 10, 6))
            && (code in {SET_NW_SRC, SET_NW_DST} ==> Reversed(x, w, 4, 4))
            && (code == ENQUEUE ==> Reversed(x, w, 4, 2) && Cleared(w, 6, 6) && Reversed(x, w, 12, 4))
            && (code == VENDOR ==> Reversed(x, w, 4, 4) && Copied(x, w, 8, |x| - 8))
  {
  }

  method NtohActionOutput(dst: array<byte>, d: nat, src: array<byte>, s: nat)
    requires d + 8 <= dst.Length && s + 8 <= src.Length && Apart(dst, d, src, s, 8)
    modifies dst
    ensures dst[..] == Patch(old(dst[..]), d, Mirror(ActionStruct(OUTPUT), old(src[s..s + 8])))
  {
    ghost var m, x := dst[..], src[s..s + 8];
    ghost var w := Mirror(ActionStruct(OUTPUT), x);
    ActionFields(OUTPUT, x);
    hide Halfway, Mirror, Reversed, Copied, Cleared;
    Swap16(dst, d, src, s, x, w, m, 0);
    Swap16(dst, d, src, s, x, w, m, 2);
    Swap16(dst, d, src, s, x, w, m, 4);
    Swap16(dst, d, src, s, x, w, m, 6);
    Finished(dst, d, src, s, x, w, m);
  }

  method NtohActionVlanVid(dst: array<byte>, d: nat, src: array<byte>, s: nat)
    requires d + 8 <= dst.Length && s + 8 <= src.Length && Apart(dst, d, src, s, 8)
    modifies dst
    ensures dst[..] == Patch(old(dst[..]), d, Mirror(ActionStruct(SET_VLAN_VID), old(src[s..s + 8])))
  {
    ghost var m, x := dst[..], src[s..s + 8];
    ghost var w := Mirror(ActionStruct(SET_VLAN_VID), x);
    ActionFields(SET_VLAN_VID, x);
    hide Halfway, Mirror, Reversed, Copied, Cleared;
    Swap16(dst, d, src, s, x, w, m, 0);
    Swap16(dst, d, src, s, x, w, m, 2);
    Swap16(dst, d, src, s, x, w, m, 4);
    Clear(dst, d, src, s, x, w, m, 6, 2);
    Finished(dst, d, src, s, x, w, m);
  }

  method NtohActionVlanPcp(dst: array<byte>, d: nat, src: array<byte>, s: nat)
    requires d + 8 <= dst.Length && s + 8 <= src.Length && Apart(dst, d, src, s, 8)
    modifies dst
    ensures dst[..] == Patch(old(dst[..]), d, Mirror(ActionStruct(SET_VLAN_PCP), old(src[s..s + 8])))
  {
    ghost var m, x := dst[..], src[s..s + 8];
    ghost var w := Mirror(ActionStruct(SET_VLAN_PCP), x);
    ActionFields(SET_VLAN_PCP, x);
    hide Halfway, Mirror, Reversed, Copied, Cleared;
    Swap16(dst, d, src, s, x, w, m, 0);
    Swap16(dst, d, src, s, x, w, m, 2);
    Copy(dst, d, src, s, x, w, m, 4, 1);
    Clear(dst, d, src, s, x, w, m, 5, 3);
    Finished(dst, d, src, s, x, w, m);
  }

  method NtohActionStripVlan(dst: array<byte>, d: nat, src: array<byte>, s: nat)
    requires d + 8 <= dst.Length && s + 8 <= src.Length && Apart(dst, d, src, s, 8)
    modifies dst
    ensures dst[..] == Patch(old(dst[..]), d, Mirror(ActionStruct(STRIP_VLAN), old(src[s..s + 8])))
  {
    ghost var m, x := dst[..], src[s..s + 8];
    ghost var w := Mirror(ActionStruct(STRIP_VLAN), x);
    ActionFields(STRIP_VLAN, x);
    hide Halfway, Mirror, Reversed, Copied, Cleared;
    Swap16(dst, d, src, s, x, w, m, 0);
    Swap16(dst, d, src, s, x, w, m, 2);
    Clear(dst, d, src, s, x, w, m, 4, 4);
    Finished(dst, d, src, s, x, w, m);
  }

  method NtohActionDlAddr(dst: array<byte>, d: nat, src: array<byte>, s: nat, ghost code: u16)
    requires code in {SET_DL_SRC, SET_DL_DST}
    requires d + 16 <= dst.Length && s + 16 <= src.Length && Apart(dst, d, src, s, 16)
    modifies dst
    ensures dst[..] == Patch(old(dst[..]), d, Mirror(ActionStruct(code), old(src[s..s + 16])))
  {
    ghost var m, x := dst[..], src[s..s + 16];
    ghost var w := Mirror(ActionStruct(code), x);
    ActionFields(code, x);
    hide Halfway, Mirror, Reversed, Copied, Cleared;
    Swap16(dst, d, src, s, x, w, m, 0);
    Swap16(dst, d, src, s, x, w, m, 2);
    Copy(dst, d, src, s, x, w, m, 4, 6);
    Clear(dst, d, src, s, x, w, m, 10, 6);
    Finished(dst, d, src, s, x, w, m);
  }

  method NtohActionNwAddr(dst: array<byte>, d: nat, src: array<byte>, s: nat, ghost code: u16)
    requires code in {SET_NW_SRC, SET_NW_DST}
    requires d + 8 <= dst.Length && s + 8 <= src.Length && Apart(dst, d, src, s, 8)
    modifies dst
    ensures dst[..] == Patch(old(dst[..]), d, Mirror(ActionStruct(code), old(src[s..s + 8])))
  {
    ghost var m, x := dst[..], src[s..s + 8];
    ghost var w := Mirror(ActionStruct(code), x);
    ActionFields(code, x);
    hide Halfway, Mirror, Reversed, Copied, Cleared;
    Swap16(dst, d, src, s, x, w, m, 0);
    Swap16(dst, d, src, s, x, w, m, 2);
    Swap32(dst, d, src, s, x, w, m, 4);
    Finished(dst, d, src, s, x, w, m);
  }

  method NtohActionNwTos(dst: array<byte>, d: nat, src: array<byte>, s: nat)
    requires d + 8 <= dst.Length && s + 8 <= src.Length && Apart(dst, d, src, s, 8)
    modifies dst
    ensures dst[..] == Patch(old(dst[..]), d, Mirror(ActionStruct(SET_NW_TOS), old(src[s..s + 8])))
  {
    ghost var m, x := dst[..], src[s..s + 8];
    ghost var w := Mirror(ActionStruct(SET_NW_TOS), x);
    ActionFields(SET_NW_TOS, x);
    hide Halfway, Mirror, Reversed, Copied, Cleared;
    Swap16(dst, d, src, s, x, w, m, 0);
    Swap16(dst, d, src, s, x, w, m, 2);
    Copy(dst, d, src, s, x, w, m, 4, 1);
    Clear(dst, d, src, s, x, w, m, 5, 3);
    Finished(dst, d, src, s, x, w, m);
  }

  method NtohActionTpPort(dst: array<byte>, d: nat, src: array<byte>, s: nat, ghost code: u16)
    requires code in {SET_TP_SRC, SET_TP_DST}
    requires d + 8 <= dst.Length && s + 8 <= src.Length && Apart(dst, d, src, s, 8)
    modifies dst
    ensures dst[..] == Patch(old(dst[..]), d, Mirror(ActionStruct(code), old(src[s..s + 8])))
  {
    ghost var m, x := dst[..], src[s..s + 8];
    ghost var w := Mirror(ActionStruct(code), x);
    ActionFields(code, x);
    hide Halfway, Mirror, Reversed, Copied, Cleared;
    Swap16(dst, d, src, s, x, w, m, 0);
    Swap16(dst, d, src, s, x, w, m, 2);
    Swap16(dst, d, src, s, x, w, m, 4);
    Clear(dst, d, src, s, x, w, m, 6, 2);
    Finished(dst, d, src, s, x, w, m);
  }

  method NtohActionEnqueue(dst: array<byte>, d: nat, src: array<byte>, s: nat)
    requires d + 16 <= dst.Length && s + 16 <= src.Length && Apart(dst, d, src, s, 16)
    modifies dst
    ensures dst[..] == Patch(old(dst[..]), d, Mirror(ActionStruct(ENQUEUE), old(src[s..s + 16])))
  {
    ghost var m, x := dst[..], src[s..s + 16];
    ghost var w := Mirror(ActionStruct(ENQUEUE), x);
    ActionFields(ENQUEUE, x);
    hide Halfway, Mirror, Reversed, Copied, Cleared;
    Swap16(dst, d, src, s, x, w, m, 0);
    Swap16(dst, d, src, s, x, w, m, 2);
    Swap16(dst, d, src, s, x, w, m, 4);
    Clear(dst, d, src, s, x, w, m, 6, 6);
    Swap32(dst, d, src, s, x, w, m, 12);
    Finished(dst, d, src, s, x, w, m);
  }

  function Peek16(o: Order, a: array<byte>, i: nat): u16
    requires i + 2 <= a.Length
    reads a
  {
    if o.Host? then a[i] as int + 0x100 * a[i + 1] as int else a[i + 1] as int + 0x100 * a[i] as int
  }

  /** copy_action_vendor_body: copied onto itself, a body of any length stays as it is. */
  method CopyActionVendorBody(dst: array<byte>, d: nat, src: array<byte>, s: nat, n: nat, ghost body: seq<byte>)
    requires d + 8 + n <= dst.Length && s + 8 + n <= src.Length && Apart(dst, d, src, s, 8 + n)
    requires src[s + 8..s + 8 + n] == body
    modifies dst
    ensures dst[..] == Patch(old(dst[..]), d + 8, body)
  {
    ghost var m, x := dst[..], src[s..s + 8 + n];
    ghost var w := m[d..d + 8] + body;
    SubSlice(src[..], s, s + 8 + n, 8, 8 + n);
    assert x[8..] == body;
    assert Copied(x, w, 8, n) && Halfway(dst, d, src, s, x, w, m, 8);
    hide Copied, Halfway;
    Copy(dst, d, src, s, x, w, m, 8, n);
    BodyPatched(dst, d, src, s, x, w, m);
  }

  lemma BodyPatched(dst: array<byte>, d: nat, src: array<byte>, s: nat, x: seq<byte>, w: seq<byte>, m: seq<byte>)
    requires Halfway(dst, d, src, s, x, w, m, |w|) && 8 <= |w| && w[..8] == m[d..d + 8]
    ensures dst[..] == Patch(m, d + 8, w[8..])
  {
    assert forall i :: 0 <= i < 8 ==> w[i] == w[..8][i] && m[d..d + 8][i] == m[d + i];
  }

  /** type, len and vendor are converted. */
  method ConvertVendorHeader(dst: array<byte>, d: nat, src: array<byte>, s: nat, ghost x: seq<byte>)
    requires d + |x| <= dst.Length && s + |x| <= src.Length && Apart(dst, d, src, s, |x|)
    requires 8 <= |x| && src[s..s + |x|] == x
    modifies dst
    ensures dst[..] == Patch(old(dst[..]), d, Mirror(ActionStruct(VENDOR), x)[..8]) && src[s + 8..s + |x|] == x[8..]
    ensures Peek16(Host, dst, d + 2) == Get16(Wire, x, 2)
    ensures Peek16(Host, src, s + 2) == if dst == src && d == s then Get16(Wire, x, 2) else Get16(Host, x, 2)
  {
    ghost var m, w := dst[..], Mirror(ActionStruct(VENDOR), x);
    ActionFields(VENDOR, x);
    assert w[2] == x[3] && w[3] == x[2];
    assert Halfway(dst, d, src, s, x, w, m, 0);
    hide Mirror, Reversed;
    Swap16(dst, d, src, s, x, w, m, 0);
    Swap16(dst, d, src, s, x, w, m, 2);
    Swap32(dst, d, src, s, x, w, m, 4);
    HalfwayPatch(dst, d, src, s, x, w, m, 8);
    HeaderPeeks(dst, d, src, s, x, w, m);
  }

  /** The lengths in memory once eight bytes are converted. */
  lemma HeaderPeeks(dst: array<byte>, d: nat, src: array<byte>, s: nat, x: seq<byte>, w: seq<byte>, m: seq<byte>)
    requires Halfway(dst, d, src, s, x, w, m, 8) && w[2] == x[3] && w[3] == x[2]
    requires dst != src || d != s ==> src[s + 2] == x[2] && src[s + 3] == x[3]
    ensures Peek16(Host, dst, d + 2) == Get16(Wire, x, 2)
    ensures Peek16(Host, src, s + 2) == if dst == src && d == s then Get16(Wire, x, 2) else Get16(Host, x, 2)
  {
  }

  /** Header and body together are the converted action; in place the body is there already. */
  lemma VendorWhole(m: seq<byte>, d: nat, x: seq<byte>, inPlace: bool, mid: seq<byte>, body: seq<byte>)
    requires 8 <= |x| && d + |x| <= |m| && mid == Patch(m, d, Mirror(ActionStruct(VENDOR), x)[..8])
    requires d + 8 + |body| <= |m|
    requires if inPlace then m[d..d + |x|] == x && body == mid[d + 8..d + 8 + |body|] else body == x[8..]
    ensures Patch(mid, d + 8, body) == Patch(m, d, Mirror(ActionStruct(VENDOR), x))
  {
    var w := Mirror(ActionStruct(VENDOR), x);
    assert w[8..] == x[8..] && w[..8] + w[8..] == w;
    if inPlace {
      assert Patch(mid, d + 8, body) == mid;
      forall i | 8 <= i < |x| ensures w[i] == m[d + i] {
        assert x[i] == m[d..d + |x|][i];
      }
    } else {
      PatchTwice(m, d, w[..8], d + 8, x[8..]);
    }
  }

  /** The length of the body is taken from the converted header. */
  method NtohActionVendor(dst: array<byte>, d: nat, src: array<byte>, s: nat, ghost n: nat)
    requires d + n <= dst.Length && s + n <= src.Length && Apart(dst, d, src, s, n)
    requires 8 <= n && Peek16(Wire, src, s + 2) == n
    modifies dst
    ensures dst[..] == Patch(old(dst[..]), d, Mirror(ActionStruct(VENDOR), old(src[s..s + n])))
  {
    ghost var m, x := dst[..], src[s..s + n];
    assert Get16(Wire, x, 2) == n;
    hide *;
    ConvertVendorHeader(dst, d, src, s, x);
    VendorWhole(m, d, x, false, dst[..], x[8..]);
    CopyActionVendorBody(dst, d, src, s, Peek16(Host, dst, d + 2) - 8, x[8..]);
  }

  /** The length of the body is read from the source after the destination's header is
      written.  In place it reads in reverse, but then the body is copied onto itself: all
      it takes is that the reversed length covers a header and memory that is there. */
  method HtonActionVendor(dst: array<byte>, d: nat, src: array<byte>, s: nat, ghost n: nat)
    requires d + n <= dst.Length && s + n <= src.Length && Apart(dst, d, src, s, n)
    requires 8 <= n && Peek16(Host, src, s + 2) == n
    requires dst == src && d == s ==> 8 <= Peek16(Wire, src, s + 2) && s + Peek16(Wire, src, s + 2) <= src.Length
    modifies dst
    ensures dst[..] == Patch(old(dst[..]), d, Mirror(ActionStruct(VENDOR), old(src[s..s + n])))
  {
    ghost var m, x, inPlace := dst[..], src[s..s + n], dst == src && d == s;
    ghost var back := if inPlace then Get16(Wire, x, 2) else Get16(Host, x, 2);
    assert 8 <= back && d + back <= |m| && s + back <= src.Length && (!inPlace ==> back == n);
    assert (inPlace ==> m[d..d + n] == x) && Apart(dst, d, src, s, back) && |x| == n;
    hide *;
    ConvertVendorHeader(dst, d, src, s, x);
    HtonVendorBody(dst, d, src, s, m, x, inPlace, back);
  }

  method HtonVendorBody(dst: array<byte>, d: nat, src: array<byte>, s: nat,
                        ghost m: seq<byte>, ghost x: seq<byte>, ghost inPlace: bool, ghost back: u16)
    requires 8 <= |x| && d + |x| <= |m| && 8 <= back && d + back <= |m| && s + back <= src.Length
    requires dst[..] == Patch(m, d, Mirror(ActionStruct(VENDOR), x)[..8]) && Apart(dst, d, src, s, back)
    requires s + 4 <= src.Length && Peek16(Host, src, s + 2) == back
    requires if inPlace then dst == src && d == s && m[d..d + |x|] == x
             else back == |x| && src[s + 8..s + |x|] == x[8..]
    modifies dst
    ensures dst[..] == Patch(m, d, Mirror(ActionStruct(VENDOR), x))
  {
    hide *;
    ghost var mid := dst[..];
    ghost var body := if inPlace then mid[d + 8..d + back] else x[8..];
    VendorWhole(m, d, x, inPlace, mid, body);
    CopyActionVendorBody(dst, d, src, s, Peek16(Host, src, s + 2) - 8, body);
  }

  /** Writing a converted record of a type's own size is converting the action over what was there. */
  lemma FlipIsPatch(o: Order, m: seq<byte>, d: nat, x: seq<byte>, y: seq<byte>, p: seq<byte>)
    requires Known(o, x) && d + |x| <= |m| && p == m[d..d + |x|]
    requires Span(Get16(o, x, 0), |x|) <= |x| && y == x[..Span(Get16(o, x, 0), |x|)]
    ensures Patch(m, d, Mirror(ActionStruct(Get16(o, x, 0)), y)) == Patch(m, d, FlipAction(o, x, p))
  {
    var w, z := Mirror(ActionStruct(Get16(o, x, 0)), y), FlipAction(o, x, p);
    forall i | 0 <= i < |y| ensures w[i] == z[i] {
    }
    forall i | |y| <= i < |x| ensures z[i] == m[d + i] {
    }
  }

  /** The cases of ntoh_action and hton_action that are the same converters. */
  method ConvertFixed(code: u16, dst: array<byte>, d: nat, src: array<byte>, s: nat, ghost y: seq<byte>)
    requires code <= ENQUEUE && Apart(dst, d, src, s, Size(ActionStruct(code)))
    requires d + Size(ActionStruct(code)) <= dst.Length && s + Size(ActionStruct(code)) <= src.Length
    requires src[s..s + Size(ActionStruct(code))] == y
    modifies dst
    ensures dst[..] == Patch(old(dst[..]), d, Mirror(ActionStruct(code), y))
  {
    hide Mirror, Patch;
    if code == OUTPUT {
      NtohActionOutput(dst, d, src, s);
    } else if code == SET_VLAN_VID {
      NtohActionVlanVid(dst, d, src, s);
    } else if code == SET_VLAN_PCP {
      NtohActionVlanPcp(dst, d, src, s);
    } else if code == STRIP_VLAN {
      NtohActionStripVlan(dst, d, src, s);
    } else if code == SET_DL_SRC || code == SET_DL_DST {
      NtohActionDlAddr(dst, d, src, s, code);
    } else if code == SET_NW_SRC || code == SET_NW_DST {
      NtohActionNwAddr(dst, d, src, s, code);
    } else if code == SET_NW_TOS {
      NtohActionNwTos(dst, d, src, s);
    } else if code == SET_TP_SRC || code == SET_TP_DST {
      NtohActionTpPort(dst, d, src, s, code);
    } else {
      NtohActionEnqueue(dst, d, src, s);
    }
  }

  /** A whole action of a defined type in memory of its own. */
  lemma KnownHere(o: Order, dst: array<byte>, d: nat, src: array<byte>, s: nat, n: nat, c: seq<byte>, p: seq<byte>)
    requires dst != src && s + n <= src.Length && src[s..s + n] == c && Known(o, c)
    ensures 8 <= n == |c| == |FlipAction(o, c, p)| && Apart(dst, d, src, s, n)
    ensures Get16(o, c, 2) == n && (|p| == n ==> Get16(Other(o), FlipAction(o, c, p), 2) == n)
    ensures Other(Wire) == Host
  {
    if |p| == n {
      FlipHeader(o, c, p);
    }
  }

  /** What the converters read of an action, and what converting it amounts to; the source
      does nothing with an action of an undefined type. */
  lemma ActionParts(o: Order, dst: array<byte>, d: nat, src: array<byte>, s: nat, n: nat, code: u16)
    requires 2 <= n && d + n <= dst.Length && s + n <= src.Length && Apart(dst, d, src, s, n)
    requires Defined(Get16(o, src[s..s + n], 0)) ==> Known(o, src[s..s + n])
    requires code == Peek16(o, src, s)
    ensures code == Get16(o, src[s..s + n], 0) && (Defined(code) <==> code == VENDOR || code <= ENQUEUE)
    ensures Known(o, src[s..s + n]) ==> Defined(code)
    ensures code == VENDOR ==>
              && 8 <= n && Peek16(o, src, s + 2) == n
              && Patch(dst[..], d, FlipAction(o, src[s..s + n], dst[d..d + n])) ==
                 Patch(dst[..], d, Mirror(ActionStruct(VENDOR), src[s..s + n]))
    ensures code <= ENQUEUE ==>
              var size := Size(ActionStruct(code));
              && size <= n && Apart(dst, d, src, s, size)
              && Patch(dst[..], d, FlipAction(o, src[s..s + n], dst[d..d + n])) ==
                 Patch(dst[..], d, Mirror(ActionStruct(code), src[s..s + size]))
  {
    var x, p := src[s..s + n], dst[d..d + n];
    assert code == Get16(o, x, 0);
    if Known(o, x) {
      var y := x[..Span(code, n)];
      assert code == VENDOR ==> y == x;
      assert code != VENDOR ==> src[s..s + Size(ActionStruct(code))] == y;
      FlipIsPatch(o, dst[..], d, x, y, p);
      assert Peek16(o, src, s + 2) == Get16(o, x, 2);
      hide FlipAction, Mirror, Patch, Get16, Peek16;
    }
  }

  /** ntoh_action: for an undefined type an error is logged and that is all. */
  method NtohAction(dst: array<byte>, d: nat, src: array<byte>, s: nat, ghost n: nat)
    requires 2 <= n && d + n <= dst.Length && s + n <= src.Length && Apart(dst, d, src, s, n)
    requires Defined(Get16(Wire, src[s..s + n], 0)) ==> Known(Wire, src[s..s + n])
    modifies dst
    ensures Known(Wire, old(src[s..s + n])) ==>
              dst[..] == Patch(old(dst[..]), d, FlipAction(Wire, old(src[s..s + n]), old(dst[d..d + n])))
    ensures !Defined(Get16(Wire, old(src[s..s + n]), 0)) ==> dst[..] == old(dst[..])
  {
    hide *;
    var code := Peek16(Wire, src, s);
    ActionParts(Wire, dst, d, src, s, n, code);
    if code == VENDOR {
      NtohActionVendor(dst, d, src, s, n);
    } else if code <= ENQUEUE {
      ConvertFixed(code, dst, d, src, s, src[s..s + Size(ActionStruct(code))]);
    }
  }

  method HtonAction(dst: array<byte>, d: nat, src: array<byte>, s: nat, ghost n: nat)
    requires 2 <= n && d + n <= dst.Length && s + n <= src.Length && Apart(dst, d, src, s, n)
    requires Defined(Get16(Host, src[s..s + n], 0)) ==> Known(Host, src[s..s + n])
    requires dst == src && d == s && Get16(Host, src[s..s + n], 0) == VENDOR ==>
               8 <= Peek16(Wire, src, s + 2) && s + Peek16(Wire, src, s + 2) <= src.Length
    modifies dst
    ensures Known(Host, old(src[s..s + n])) ==>
              dst[..] == Patch(old(dst[..]), d, FlipAction(Host, old(src[s..s + n]), old(dst[d..d + n])))
    ensures !Defined(Get16(Host, old(src[s..s + n]), 0)) ==> dst[..] == old(dst[..])
  {
    hide *;
    var code := Peek16(Host, src, s);
    ActionParts(Host, dst, d, src, s, n, code);
    if code == VENDOR {
      HtonActionVendor(dst, d, src, s, n);
    } else if code <= ENQUEUE {
      ConvertFixed(code, dst, d, src, s, src[s..s + Size(ActionStruct(code))]);
    }
  }

  // ----- flow statistics

  /** malloc and memcpy. */
  method Clone(src: array<byte>, s: nat, n: nat) returns (fs: array<byte>)
    requires s + n <= src.Length
    ensures fresh(fs) && fs[..] == src[s..s + n]
  {
    fs := new byte[n];
    forall i | 0 <= i < n {
      fs[i] := src[s + i];
    }
  }

  lemma FlowStatsFields(x: seq<byte>)
    requires |x| == 88
    ensures var w := Mirror(FlowStatsStruct, x);
            && Reversed(x, w, 0, 2) && Copied(x, w, 2, 1) && Cleared(w, 3, 1)
            && w[4..44] == Mirror(MatchStruct, x[4..44])
            && Reversed(x, w, 44, 4) && Reversed(x, w, 48, 4) && Reversed(x, w, 52, 2) && Reversed(x, w, 54, 2)
            && Reversed(x, w, 56, 2) && Cleared(w, 58, 6)
            && Reversed(x, w, 64, 8) && Reversed(x, w, 72, 8) && Reversed(x, w, 80, 8)
  {
    FlowStatsReversed(x);
    FlowStatsMatch(x);
    hide Reversed, Get16;
  }

  lemma HalfwayPatch(dst: array<byte>, d: nat, src: array<byte>, s: nat, x: seq<byte>, w: seq<byte>, m: seq<byte>,
                     k: nat)
    requires Halfway(dst, d, src, s, x, w, m, k)
    ensures dst[..] == Patch(m, d, w[..k]) && src[s + k..s + |x|] == x[k..]
  {
  }

  lemma PatchHalfway(dst: array<byte>, d: nat, src: array<byte>, s: nat, x: seq<byte>, w: seq<byte>, m: seq<byte>,
                     k: nat, n: nat)
    requires k + n <= |w| == |x| && d + |w| <= |m| && s + |x| <= src.Length && src[s..s + |x|] == x
    requires Apart(dst, d, src, s, |x|)
    requires dst[..] == Patch(Patch(m, d, w[..k]), d + k, w[k..k + n])
    ensures Halfway(dst, d, src, s, x, w, m, k + n)
  {
  }

  /** Length, table and match. */
  method ConvertFlowMatch(dst: array<byte>, d: nat, fs: array<byte>, ghost x: seq<byte>, ghost w: seq<byte>,
                          ghost m: seq<byte>)
    requires dst != fs && |x| == 88 <= fs.Length && fs[..88] == x && Halfway(dst, d, fs, 0, x, w, m, 0)
    requires Reversed(x, w, 0, 2) && Copied(x, w, 2, 1) && Cleared(w, 3, 1) && w[4..44] == Mirror(MatchStruct, x[4..44])
    modifies dst
    ensures Halfway(dst, d, fs, 0, x, w, m, 44)
  {
    assert fs[4..44] == x[4..44] && fs[0..88] == x && d + 88 <= |m| == dst.Length;
    hide Mirror, Reversed, Copied, Cleared, Patch, Halfway;
    Swap16(dst, d, fs, 0, x, w, m, 0);
    Copy(dst, d, fs, 0, x, w, m, 2, 1);
    Clear(dst, d, fs, 0, x, w, m, 3, 1);
    HalfwayPatch(dst, d, fs, 0, x, w, m, 4);
    NtohMatch(dst, d + 4, fs, 4);
    PatchHalfway(dst, d, fs, 0, x, w, m, 4, 40);
  }

  /** The fixed part of ntoh_flow_stats and hton_flow_stats, from a copy. */
  method ConvertFlowStats(dst: array<byte>, d: nat, fs: array<byte>)
    requires dst != fs && 88 <= fs.Length && d + 88 <= dst.Length
    modifies dst
    ensures dst[..] == Patch(old(dst[..]), d, Mirror(FlowStatsStruct, old(fs[..88])))
    ensures fs[..] == old(fs[..])
  {
    ghost var m, x := dst[..], fs[..88];
    ghost var w := Mirror(FlowStatsStruct, x);
    FlowStatsFields(x);
    assert Halfway(dst, d, fs, 0, x, w, m, 0);
    hide *;
    ConvertFlowMatch(dst, d, fs, x, w, m);
    Swap32(dst, d, fs, 0, x, w, m, 44);
    Swap32(dst, d, fs, 0, x, w, m, 48);
    Swap16(dst, d, fs, 0, x, w, m, 52);
    Swap16(dst, d, fs, 0, x, w, m, 54);
    Swap16(dst, d, fs, 0, x, w, m, 56);
    Clear(dst, d, fs, 0, x, w, m, 58, 6);
    Swap64(dst, d, fs, 0, x, w, m, 64);
    Swap64(dst, d, fs, 0, x, w, m, 72);
    Swap64(dst, d, fs, 0, x, w, m, 80);
    Finished(dst, d, fs, 0, x, w, m);
  }

  /** A conversion loop has come to the element at `at`: what precedes it is converted. */
  ghost predicate Partway(o: Order, k: Kind, f: Conversion, m: seq<byte>, d: nat, x: seq<byte>, p: seq<byte>,
                          w: seq<byte>, at: nat, mem: seq<byte>) {
    && at <= |x| == |p| == |w| && d + |x| <= |m| && p == m[d..d + |x|]
    && Tiled(o, k, x[at..]) && w[at..] == MapTiles(o, k, x[at..], p[at..], f)
    && mem == Patch(m, d, w[..at])
  }

  lemma PartwayReads(o: Order, k: Kind, f: Conversion, m: seq<byte>, d: nat, x: seq<byte>, p: seq<byte>,
                     w: seq<byte>, at: nat, mem: seq<byte>, n: nat)
    requires Partway(o, k, f, m, d, x, p, w, at, mem) && at + n <= |x|
    ensures |mem| == |m| && mem[d + at..d + at + n] == p[at..at + n]
  {
    SubSlice(m, d, d + |x|, at, at + n);
    PatchBeyond(m, d, w[..at], d + at, d + at + n);
  }

  lemma PartwayNext(o: Order, k: Kind, f: Conversion, m: seq<byte>, d: nat, x: seq<byte>, p: seq<byte>,
                    w: seq<byte>, at: nat, mem: seq<byte>, n: nat,
                    c: seq<byte>, q: seq<byte>, mem2: seq<byte>)
    requires Partway(o, k, f, m, d, x, p, w, at, mem) && at < |x| && k.min <= |x| - at && n == Len(o, k, x[at..])
    requires at + n <= |x| && c == x[at..at + n] && d + at + n <= |mem| && q == mem[d + at..d + at + n]
    requires |f(c, q)| == n && mem2 == Patch(mem, d + at, f(c, q))
    ensures Partway(o, k, f, m, d, x, p, w, at + n, mem2)
  {
    hide Tiled, Len, Patch, MapTiles, Get16, Sound;
    MapNext(o, k, x, p, f, at);
    PartwayReads(o, k, f, m, d, x, p, w, at, mem, n);
    var v, rest := f(c, q), MapTiles(o, k, x[at + n..], p[at + n..], f);
    assert w[at..] == v + rest;
    Peel(w, at, v, rest);
    PatchTwice(m, d, w[..at], d + at, v);
  }

  lemma PeekPatched(a: array<byte>, m: seq<byte>, d: nat, v: seq<byte>, i: nat)
    requires d + |v| <= |m| && i + 2 <= |v| && a[..] == Patch(m, d, v)
    ensures Peek16(Host, a, d + i) == Get16(Host, v, i)
  {
  }

  lemma PeekSlice(o: Order, a: array<byte>, s: nat, c: seq<byte>, i: nat)
    requires s + |c| <= a.Length && i + 2 <= |c| && a[s..s + |c|] == c
    ensures Peek16(o, a, s + i) == Get16(o, c, i)
  {
  }

  /** What the next turn reads, in the source and in the destination. */
  lemma PartwayFirst(o: Order, k: Kind, f: Conversion, m: seq<byte>, d: nat, x: seq<byte>, p: seq<byte>,
                     w: seq<byte>, at: nat, mem: seq<byte>)
    returns (n: u16, c: seq<byte>, q: seq<byte>)
    requires Partway(o, k, f, m, d, x, p, w, at, mem) && at < |x|
    ensures Sound(k) && k.min <= |x| - at && n == Len(o, k, x[at..]) && k.min <= n
    ensures at + n <= |x| && d + at + n <= |mem| && c == x[at..at + n] && q == mem[d + at..d + at + n]
  {
    NextElement(o, k, x, at);
    n := Len(o, k, x[at..]);
    c, q := x[at..at + n], mem[d + at..d + at + n];
  }

  lemma FlipperIs(o: Order, c: seq<byte>, q: seq<byte>)
    ensures Flipper(o)(c, q) == FlipAction(o, c, q) && PropertyFlipper(o)(c, q) == FlipProperty(o, c, q)
  {
  }

  lemma PartwayDone(o: Order, k: Kind, f: Conversion, m: seq<byte>, d: nat, x: seq<byte>, p: seq<byte>,
                    w: seq<byte>, at: nat, mem: seq<byte>)
    requires Partway(o, k, f, m, d, x, p, w, at, mem) && at == |x|
    ensures mem == Patch(m, d, w)
  {
  }

  lemma KnownShort(o: Order, b: seq<byte>)
    requires KnownActions(o, b) && |b| < 8
    ensures b == []
  {
  }

  /** The loop over the actions of a flow record has come to `at`. */
  ghost predicate Flipping(o: Order, m: seq<byte>, d: nat, x: seq<byte>, p: seq<byte>, w: seq<byte>, at: nat,
                           mem: seq<byte>) {
    Partway(o, ACTIONS, Flipper(o), m, d, x, p, w, at, mem) && KnownActions(o, x[at..])
  }

  lemma FlowStarts(o: Order, m: seq<byte>, d: nat, x: seq<byte>)
    requires KnownFlow(o, x) && d + |x| <= |m|
    ensures Flipping(o, m, d, x, m[d..d + |x|], FlipFlow(o, x, m[d..d + |x|]), 88,
                     Patch(m, d, Mirror(FlowStatsStruct, x[..88])))
  {
    var h, p := Mirror(FlowStatsStruct, x[..88]), m[d..d + |x|];
    var w := FlipFlow(o, x, p);
    assert w == h + FlipActions(o, x[88..], p[88..]);
    assert w[..88] == h && w[88..] == FlipActions(o, x[88..], p[88..]);
  }

  lemma FlippingReads(o: Order, m: seq<byte>, d: nat, x: seq<byte>, p: seq<byte>, w: seq<byte>, at: nat, mem: seq<byte>)
    returns (n: u16, c: seq<byte>, q: seq<byte>)
    requires Flipping(o, m, d, x, p, w, at, mem) && at < |x|
    ensures 8 <= n && at + n <= |x| && d + at + n <= |mem| && Known(o, c)
    ensures c == x[at..at + n] && q == mem[d + at..d + at + n] && n == Len(o, ACTIONS, x[at..])
  {
    n, c, q := PartwayFirst(o, ACTIONS, Flipper(o), m, d, x, p, w, at, mem);
    KnownNext(o, x, at);
  }

  lemma FlippingNext(o: Order, m: seq<byte>, d: nat, x: seq<byte>, p: seq<byte>, w: seq<byte>, at: nat, mem: seq<byte>,
                     n: u16, c: seq<byte>, q: seq<byte>, mem2: seq<byte>)
    requires Flipping(o, m, d, x, p, w, at, mem) && at + 8 <= |x| && n == Len(o, ACTIONS, x[at..])
    requires at + n <= |x| && d + at + n <= |mem| && c == x[at..at + n] && q == mem[d + at..d + at + n]
    requires n == |FlipAction(o, c, q)| && mem2 == Patch(mem, d + at, FlipAction(o, c, q))
    ensures Flipping(o, m, d, x, p, w, at + n, mem2)
  {
    KnownNext(o, x, at);
    FlipperIs(o, c, q);
    hide Partway, KnownActions, Len, Get16, FlipAction;
    PartwayNext(o, ACTIONS, Flipper(o), m, d, x, p, w, at, mem, n, c, q, mem2);
  }

  lemma FlippingEnds(o: Order, m: seq<byte>, d: nat, x: seq<byte>, p: seq<byte>, w: seq<byte>, at: nat, mem: seq<byte>)
    requires Flipping(o, m, d, x, p, w, at, mem)
    ensures at <= |x| && (|x| - at < 8 ==> mem == Patch(m, d, w))
  {
    if |x| - at < 8 {
      KnownShort(o, x[at..]);
      PartwayDone(o, ACTIONS, Flipper(o), m, d, x, p, w, at, mem);
    }
  }

  /** One turn of the loop of ntoh_flow_stats; the length comes from the converted action. */
  method NtohActionAndLength(dst: array<byte>, d: nat, fs: array<byte>, at: nat, ghost k: nat,
                             ghost mem: seq<byte>, ghost x: seq<byte>, ghost c: seq<byte>, ghost q: seq<byte>)
    returns (len: u16)
    requires dst != fs && dst[..] == mem && fs[..] == x && at + k <= |x| && d + k <= |mem|
    requires Known(Wire, c) && x[at..at + k] == c && mem[d..d + k] == q
    modifies dst
    ensures dst[..] == Patch(mem, d, FlipAction(Wire, c, q)) && fs[..] == x
    ensures len == k == |FlipAction(Wire, c, q)|
  {
    hide *;
    assert fs[at..at + k] == c && dst[d..d + k] == q;
    KnownHere(Wire, dst, d, fs, at, k, c, q);
    NtohAction(dst, d, fs, at, k);
    PeekPatched(dst, mem, d, FlipAction(Wire, c, q), 2);
    len := Peek16(Host, dst, d + 2);
  }

  method NtohTurn(dst: array<byte>, d: nat, fs: array<byte>, at: nat,
                  ghost m: seq<byte>, ghost x: seq<byte>, ghost p: seq<byte>, ghost w: seq<byte>)
    returns (len: u16)
    requires dst != fs && fs[..] == x && at + 8 <= |x| && Flipping(Wire, m, d, x, p, w, at, dst[..])
    modifies dst
    ensures 8 <= len <= |x| - at && fs[..] == x && Flipping(Wire, m, d, x, p, w, at + len, dst[..])
  {
    hide *;
    ghost var mem := dst[..];
    ghost var k, c, q := FlippingReads(Wire, m, d, x, p, w, at, mem);
    len := NtohActionAndLength(dst, d + at, fs, at, k, mem, x, c, q);
    FlippingNext(Wire, m, d, x, p, w, at, mem, len, c, q, dst[..]);
  }

  /** The loop of ntoh_flow_stats over the actions. */
  method NtohActions(dst: array<byte>, d: nat, fs: array<byte>, start: nat,
                     ghost m: seq<byte>, ghost x: seq<byte>, ghost p: seq<byte>, ghost w: seq<byte>)
    requires dst != fs && start <= fs.Length < start + 0x1_0000 && fs[..] == x
    requires Flipping(Wire, m, d, x, p, w, start, dst[..])
    modifies dst
    ensures dst[..] == Patch(m, d, w)
  {
    hide *;
    var actionsLength: u16, at: nat := fs.Length - start, start;
    while actionsLength >= 8
      invariant at + actionsLength == |x| && fs[..] == x && Flipping(Wire, m, d, x, p, w, at, dst[..])
    {
      var len := NtohTurn(dst, d, fs, at, m, x, p, w);
      actionsLength, at := actionsLength - len, at + len;
    }
    FlippingEnds(Wire, m, d, x, p, w, at, dst[..]);
  }

  /** One turn of the loop of hton_flow_stats; the length comes from the unconverted action. */
  method HtonActionAndLength(dst: array<byte>, d: nat, fs: array<byte>, at: nat, ghost k: nat,
                             ghost mem: seq<byte>, ghost x: seq<byte>, ghost c: seq<byte>, ghost q: seq<byte>)
    returns (len: u16)
    requires dst != fs && dst[..] == mem && fs[..] == x && at + k <= |x| && d + k <= |mem|
    requires Known(Host, c) && x[at..at + k] == c && mem[d..d + k] == q
    modifies dst
    ensures dst[..] == Patch(mem, d, FlipAction(Host, c, q)) && fs[..] == x
    ensures len == k == |FlipAction(Host, c, q)|
  {
    hide *;
    assert fs[at..at + k] == c && dst[d..d + k] == q;
    KnownHere(Host, dst, d, fs, at, k, c, q);
    HtonAction(dst, d, fs, at, k);
    PeekSlice(Host, fs, at, c, 2);
    len := Peek16(Host, fs, at + 2);
  }

  method HtonTurn(dst: array<byte>, d: nat, fs: array<byte>, at: nat,
                  ghost m: seq<byte>, ghost x: seq<byte>, ghost p: seq<byte>, ghost w: seq<byte>)
    returns (len: u16)
    requires dst != fs && fs[..] == x && at + 8 <= |x| && Flipping(Host, m, d, x, p, w, at, dst[..])
    modifies dst
    ensures 8 <= len <= |x| - at && fs[..] == x && Flipping(Host, m, d, x, p, w, at + len, dst[..])
  {
    hide *;
    ghost var mem := dst[..];
    ghost var k, c, q := FlippingReads(Host, m, d, x, p, w, at, mem);
    len := HtonActionAndLength(dst, d + at, fs, at, k, mem, x, c, q);
    FlippingNext(Host, m, d, x, p, w, at, mem, len, c, q, dst[..]);
  }

  /** The loop of hton_flow_stats over the actions. */
  method HtonActions(dst: array<byte>, d: nat, fs: array<byte>, start: nat,
                     ghost m: seq<byte>, ghost x: seq<byte>, ghost p: seq<byte>, ghost w: seq<byte>)
    requires dst != fs && start <= fs.Length < start + 0x1_0000 && fs[..] == x
    requires Flipping(Host, m, d, x, p, w, start, dst[..])
    modifies dst
    ensures dst[..] == Patch(m, d, w)
  {
    hide *;
    var actionsLength: u16, at: nat := fs.Length - start, start;
    while actionsLength >= 8
      invariant at + actionsLength == |x| && fs[..] == x && Flipping(Host, m, d, x, p, w, at, dst[..])
    {
      var len := HtonTurn(dst, d, fs, at, m, x, p, w);
      actionsLength, at := actionsLength - len, at + len;
    }
    FlippingEnds(Host, m, d, x, p, w, at, dst[..]);
  }

  /** What lies at s is a flow record. */
  lemma FlowAt(o: Order, src: array<byte>, s: nat, n: nat)
    requires s + n <= src.Length && KnownFlow(o, src[s..s + n])
    ensures 88 <= n < 0x1_0000 && Peek16(o, src, s) == n
  {
  }

  /** The record is copied first, so the destination may be the source or overlap it. */
  method NtohFlowStats(dst: array<byte>, d: nat, src: array<byte>, s: nat, ghost n: nat)
    requires d + n <= dst.Length && s + n <= src.Length && KnownFlow(Wire, src[s..s + n])
    modifies dst
    ensures dst[..] == Patch(old(dst[..]), d, FlipFlow(Wire, old(src[s..s + n]), old(dst[d..d + n])))
  {
    hide *;
    ghost var m, x, p := dst[..], src[s..s + n], dst[d..d + n];
    ghost var w := FlipFlow(Wire, x, p);
    FlowAt(Wire, src, s, n);
    var fs := Clone(src, s, Peek16(Wire, src, s));
    assert fs.Length == n && fs[..] == x && fs[..88] == x[..88] && p == m[d..d + |x|];
    FlowStarts(Wire, m, d, x);
    ConvertFlowStats(dst, d, fs);
    NtohActions(dst, d, fs, 88, m, x, p, w);
  }

  /** The record is copied first, so the destination may be the source or overlap it. */
  method HtonFlowStats(dst: array<byte>, d: nat, src: array<byte>, s: nat, ghost n: nat)
    requires d + n <= dst.Length && s + n <= src.Length && KnownFlow(Host, src[s..s + n])
    modifies dst
    ensures dst[..] == Patch(old(dst[..]), d, FlipFlow(Host, old(src[s..s + n]), old(dst[d..d + n])))
  {
    hide *;
    ghost var m, x, p := dst[..], src[s..s + n], dst[d..d + n];
    ghost var w := FlipFlow(Host, x, p);
    FlowAt(Host, src, s, n);
    var fs := Clone(src, s, Peek16(Host, src, s));
    assert fs.Length == n && fs[..] == x && fs[..88] == x[..88] && p == m[d..d + |x|];
    FlowStarts(Host, m, d, x);
    ConvertFlowStats(dst, d, fs);
    HtonActions(dst, d, fs, 88, m, x, p, w);
  }

  // ----- packet queues

  lemma PropertiesShort(o: Order, b: seq<byte>)
    requires KnownProperties(o, b) && |b| < 8
    ensures b == []
  {
  }

  method StoreQueueHead(dst: array<byte>, d: nat, pq: array<byte>, ghost x: seq<byte>)
    requires dst != pq && 8 <= pq.Length && d + 8 <= dst.Length && pq[..] == x
    modifies dst
    ensures dst[..] == Patch(old(dst[..]), d, QueueHead(x)) && pq[..] == x
    ensures Peek16(Host, dst, d + 4) == Get16(Wire, x, 4)
  {
    hide *;
    ghost var m := dst[..];
    PutFour(dst, d, pq[3], pq[2], pq[1], pq[0]);
    PutFour(dst, d + 4, pq[5], pq[4], 0, 0);
    PatchTwice(m, d, [x[3], x[2], x[1], x[0]], d + 4, [x[5], x[4], 0, 0]);
    QueueHeadIs(x);
    PeekPatched(dst, m, d, QueueHead(x), 4);
  }

  method PutFour(dst: array<byte>, d: nat, a: byte, b: byte, e: byte, f: byte)
    requires d + 4 <= dst.Length
    modifies dst
    ensures dst[..] == Patch(old(dst[..]), d, [a, b, e, f])
  {
    dst[d], dst[d + 1], dst[d + 2], dst[d + 3] := a, b, e, f;
  }

  lemma QueueHeadIs(x: seq<byte>)
    requires 8 <= |x|
    ensures QueueHead(x) == [x[3], x[2], x[1], x[0]] + [x[5], x[4], 0, 0]
    ensures |QueueHead(x)| == 8 && Get16(Host, QueueHead(x), 4) == Get16(Wire, x, 4)
  {
  }

  lemma PropertyPatched(code: u16, m: seq<byte>, d: nat, c: seq<byte>, q: seq<byte>)
    requires |c| >= 8 && d + |c| <= |m| && q == m[d..d + |c|] && (code == MIN_RATE ==> 10 <= |c|)
    ensures var mid := Patch(m, d, [c[1], c[0], c[3], c[2]]);
            Patch(m, d, FlipAs(code, c, q)) == if code == MIN_RATE then Patch(mid, d + 8, [c[9], c[8]]) else mid
  {
    hide FlipAs, Patch;
    var h, y := [c[1], c[0], c[3], c[2]], FlipAs(code, c, q);
    FlippedBytes(code, c, q);
    var mid, whole := Patch(m, d, h), Patch(m, d, y);
    if code == MIN_RATE {
      var rated := Patch(mid, d + 8, [c[9], c[8]]);
      forall i | 0 <= i < |m| ensures whole[i] == rated[i] {
        if d <= i < d + |c| {
          assert q[i - d] == m[i];
        }
      }
    } else {
      forall i | 0 <= i < |m| ensures whole[i] == mid[i] {
        if d <= i < d + |c| {
          assert q[i - d] == m[i];
        }
      }
    }
  }

  /** A property converted as one of type `code`, byte by byte. */
  lemma FlippedBytes(code: u16, c: seq<byte>, q: seq<byte>)
    requires |c| >= 8 && |q| == |c| && (code == MIN_RATE ==> 10 <= |c|)
    ensures var y := FlipAs(code, c, q);
            && y[0] == c[1] && y[1] == c[0] && y[2] == c[3] && y[3] == c[2]
            && (code == MIN_RATE ==> y[8] == c[9] && y[9] == c[8])
            && forall i {:trigger y[i]} :: 4 <= i < |c| && (code == MIN_RATE ==> i < 8 || 10 <= i) ==> y[i] == q[i]
  {
    var y := FlipAs(code, c, q);
    assert y[0] == c[1] && y[1] == c[0] && y[2] == c[3] && y[3] == c[2];
  }

  method StorePropertyHead(dst: array<byte>, d: nat, ph: array<byte>, ghost c: seq<byte>)
    requires dst != ph && 4 <= ph.Length && d + 4 <= dst.Length && ph[..] == c
    modifies dst
    ensures dst[..] == Patch(old(dst[..]), d, [c[1], c[0], c[3], c[2]]) && ph[..] == c
    ensures Peek16(Host, dst, d) == Get16(Wire, c, 0)
  {
    dst[d], dst[d + 1] := ph[1], ph[0];
    dst[d + 2], dst[d + 3] := ph[3], ph[2];
  }

  /** The property is copied first, so it may be converted in place. */
  method NtohQueueProperty(dst: array<byte>, d: nat, src: array<byte>, s: nat, ghost k: nat,
                           ghost c: seq<byte>, ghost q: seq<byte>)
    requires d + k <= dst.Length && s + k <= src.Length && KnownProperty(Wire, c)
    requires src[s..s + k] == c && dst[d..d + k] == q
    modifies dst
    ensures dst[..] == Patch(old(dst[..]), d, FlipProperty(Wire, c, q))
  {
    ghost var m, code := dst[..], Get16(Wire, c, 0);
    assert src[s] == c[0] && src[s + 1] == c[1] && src[s + 2] == c[2] && src[s + 3] == c[3];
    var ph := Clone(src, s, Peek16(Wire, src, s + 2));
    assert ph.Length == k && ph[..] == c;
    StorePropertyHead(dst, d, ph, c);
    if Peek16(Host, dst, d) == MIN_RATE {
      ghost var mid := dst[..];
      dst[d + 8], dst[d + 9] := ph[9], ph[8];
      assert dst[..] == Patch(mid, d + 8, [c[9], c[8]]);
    }
    PropertyPatched(code, m, d, c, q);
  }

  /** The loop of ntoh_packet_queue has come to `at`. */
  ghost predicate Ongoing(m: seq<byte>, d: nat, x: seq<byte>, p: seq<byte>, w: seq<byte>, at: nat, mem: seq<byte>) {
    && Partway(Wire, PROPERTIES, PropertyFlipper(Wire), m, d, x, p, w, at, mem) && KnownProperties(Wire, x[at..])
  }

  lemma QueueStarts(m: seq<byte>, d: nat, x: seq<byte>)
    requires KnownQueue(Wire, x) && d + |x| <= |m|
    ensures Ongoing(m, d, x, m[d..d + |x|], FlipQueue(Wire, x, m[d..d + |x|]), 8, Patch(m, d, QueueHead(x)))
  {
    var p := m[d..d + |x|];
    var w := FlipQueue(Wire, x, p);
    assert w[..8] == QueueHead(x) && w[8..] == FlipProperties(Wire, x[8..], p[8..]);
  }

  lemma OngoingReads(m: seq<byte>, d: nat, x: seq<byte>, p: seq<byte>, w: seq<byte>, at: nat, mem: seq<byte>)
    returns (n: u16, c: seq<byte>, q: seq<byte>)
    requires Ongoing(m, d, x, p, w, at, mem) && at < |x|
    ensures 8 <= n && at + n <= |x| && d + at + n <= |mem| && KnownProperty(Wire, c)
    ensures c == x[at..at + n] && q == mem[d + at..d + at + n] && n == Len(Wire, PROPERTIES, x[at..])
  {
    n, c, q := PartwayFirst(Wire, PROPERTIES, PropertyFlipper(Wire), m, d, x, p, w, at, mem);
    PropertyNext(Wire, x, at);
  }

  lemma OngoingNext(m: seq<byte>, d: nat, x: seq<byte>, p: seq<byte>, w: seq<byte>, at: nat, mem: seq<byte>,
                    n: u16, c: seq<byte>, q: seq<byte>, mem2: seq<byte>)
    requires Ongoing(m, d, x, p, w, at, mem) && at + 8 <= |x| && n == Len(Wire, PROPERTIES, x[at..])
    requires at + n <= |x| && d + at + n <= |mem| && c == x[at..at + n] && q == mem[d + at..d + at + n]
    requires mem2 == Patch(mem, d + at, FlipProperty(Wire, c, q))
    ensures Ongoing(m, d, x, p, w, at + n, mem2)
  {
    hide Partway, KnownProperties, Len, Get16, FlipProperty, Patch, Sound;
    PropertyNext(Wire, x, at);
    FlipperIs(Wire, c, q);
    PartwayNext(Wire, PROPERTIES, PropertyFlipper(Wire), m, d, x, p, w, at, mem, n, c, q, mem2);
  }

  lemma OngoingEnds(m: seq<byte>, d: nat, x: seq<byte>, p: seq<byte>, w: seq<byte>, at: nat, mem: seq<byte>)
    requires Ongoing(m, d, x, p, w, at, mem)
    ensures at <= |x| && (|x| - at < 8 ==> mem == Patch(m, d, w))
  {
    if |x| - at < 8 {
      PropertiesShort(Wire, x[at..]);
      PartwayDone(Wire, PROPERTIES, PropertyFlipper(Wire), m, d, x, p, w, at, mem);
    }
  }

  method NtohPropertyTurn(dst: array<byte>, d: nat, pq: array<byte>, at: nat,
                          ghost m: seq<byte>, ghost x: seq<byte>, ghost p: seq<byte>, ghost w: seq<byte>)
    returns (len: u16)
    requires dst != pq && pq[..] == x && at + 8 <= |x| && Ongoing(m, d, x, p, w, at, dst[..])
    modifies dst
    ensures 8 <= len <= |x| - at && pq[..] == x && Ongoing(m, d, x, p, w, at + len, dst[..])
  {
    hide *;
    ghost var mem := dst[..];
    ghost var k, c, q := OngoingReads(m, d, x, p, w, at, mem);
    len := NtohPropertyAndLength(dst, d + at, pq, at, k, mem, x, c, q);
    OngoingNext(m, d, x, p, w, at, mem, len, c, q, dst[..]);
  }

  method NtohPropertyAndLength(dst: array<byte>, d: nat, pq: array<byte>, at: nat, ghost k: nat,
                               ghost mem: seq<byte>, ghost x: seq<byte>, ghost c: seq<byte>, ghost q: seq<byte>)
    returns (len: u16)
    requires dst != pq && dst[..] == mem && pq[..] == x && at + k <= |x| && d + k <= |mem|
    requires KnownProperty(Wire, c) && x[at..at + k] == c && mem[d..d + k] == q
    modifies dst
    ensures dst[..] == Patch(mem, d, FlipProperty(Wire, c, q)) && pq[..] == x
    ensures len == k == |FlipProperty(Wire, c, q)|
  {
    PropertyFlips(Wire, c, q);
    assert pq[at..at + k] == c && dst[d..d + k] == q && |c| == k;
    NtohQueueProperty(dst, d, pq, at, k, c, q);
    PeekPatched(dst, mem, d, FlipProperty(Wire, c, q), 2);
    len := Peek16(Host, dst, d + 2);
  }

  /** The loop of ntoh_packet_queue over the properties. */
  method NtohProperties(dst: array<byte>, d: nat, pq: array<byte>, start: nat, length: u16,
                        ghost m: seq<byte>, ghost x: seq<byte>, ghost p: seq<byte>, ghost w: seq<byte>)
    requires dst != pq && start + length == |x| && pq[..] == x && Ongoing(m, d, x, p, w, start, dst[..])
    modifies dst
    ensures dst[..] == Patch(m, d, w)
  {
    hide *;
    var propertiesLength: u16, at: nat := length, start;
    while propertiesLength >= 8
      invariant at + propertiesLength == |x| && pq[..] == x && Ongoing(m, d, x, p, w, at, dst[..])
    {
      var len := NtohPropertyTurn(dst, d, pq, at, m, x, p, w);
      propertiesLength, at := propertiesLength - len, at + len;
    }
    OngoingEnds(m, d, x, p, w, at, dst[..]);
  }

  /** The queue is copied first, so it may be converted in place. */
  method NtohPacketQueue(dst: array<byte>, d: nat, src: array<byte>, s: nat, ghost n: nat,
                         ghost x: seq<byte>, ghost p: seq<byte>)
    requires d + n <= dst.Length && s + n <= src.Length && KnownQueue(Wire, x)
    requires src[s..s + n] == x && dst[d..d + n] == p
    modifies dst
    ensures dst[..] == Patch(old(dst[..]), d, FlipQueue(Wire, x, p))
  {
    ghost var m := dst[..];
    assert src[s + 4] == x[4] && src[s + 5] == x[5];
    var pq := Clone(src, s, Peek16(Wire, src, s + 4));
    assert pq.Length == n && pq[..] == x && m[d..d + n] == p;
    StoreQueueHead(dst, d, pq, x);
    var propertiesLength := Peek16(Host, dst, d + 4) - 8;
    assert propertiesLength == n - 8;
    QueueStarts(m, d, x);
    hide *;
    NtohProperties(dst, d, pq, 8, propertiesLength, m, x, p, FlipQueue(Wire, x, p));
  }

  /** Two pieces of n bytes that have no byte in common. */
  predicate Separate(dst: array<byte>, d: nat, src: array<byte>, s: nat, n: nat) {
    dst != src || d + n <= s || s + n <= d
  }

  /** The type found at s once the header of property c is converted at d in the memory m,
      where the source lies in that memory; otherwise the type of c. */
  function TypeRead(within: bool, m: seq<byte>, d: nat, s: nat, c: seq<byte>): u16
    requires 4 <= |c| && (within ==> d + 4 <= |m| && s + 2 <= |m|)
  {
    if within then Get16(Host, Patch(m, d, [c[1], c[0], c[3], c[2]]), s) else Get16(Host, c, 0)
  }

  lemma TypeReadIs(within: bool, m: seq<byte>, d: nat, s: nat, c: seq<byte>)
    requires 4 <= |c| && (within ==> d + |c| <= |m| && s + |c| <= |m| && m[s..s + |c|] == c)
    ensures within && (d + |c| <= s || s + |c| <= d) ==> TypeRead(within, m, d, s, c) == Get16(Host, c, 0)
    ensures within && d == s ==> TypeRead(within, m, d, s, c) == Get16(Wire, c, 0)
  {
    if within {
      assert m[s] == m[s..s + |c|][0] && m[s + 1] == m[s..s + |c|][1];
    }
  }

  lemma TypeNow(dst: array<byte>, d: nat, src: array<byte>, s: nat, m: seq<byte>, c: seq<byte>)
    requires 4 <= |c| && d + 4 <= |m| == dst.Length && s + 2 <= src.Length
    requires dst[..] == Patch(m, d, [c[1], c[0], c[3], c[2]]) && (dst != src ==> src[s] == c[0] && src[s + 1] == c[1])
    ensures Peek16(Host, src, s) == TypeRead(dst == src, m, d, s, c)
  {
    assert dst == src ==> src[s] == dst[..][s] && src[s + 1] == dst[..][s + 1];
  }

  /** What lies at s is the property c. */
  lemma PropertyAt(src: array<byte>, s: nat, k: nat, c: seq<byte>)
    requires s + k <= src.Length && KnownProperty(Host, c) && src[s..s + k] == c
    ensures |c| == k && 8 <= k && Peek16(Host, src, s + 2) == k && src[s] == c[0] && src[s + 1] == c[1]
  {
  }

  /** Where the pieces are apart, the type read again is the property's own. */
  lemma TypeApart(dst: array<byte>, d: nat, src: array<byte>, s: nat, c: seq<byte>, q: seq<byte>)
    requires 8 <= |c| && d + |c| <= dst.Length && s + |c| <= src.Length && src[s..s + |c|] == c
    requires Separate(dst, d, src, s, |c|)
    ensures FlipAs(TypeRead(dst == src, dst[..], d, s, c), c, q) == FlipProperty(Host, c, q)
  {
    assert dst == src ==> dst[..][s..s + |c|] == c;
    TypeReadIs(dst == src, dst[..], d, s, c);
  }

  /** In place it is the type in reverse. */
  lemma TypeInPlace(dst: array<byte>, d: nat, c: seq<byte>)
    requires 8 <= |c| && d + |c| <= dst.Length && dst[d..d + |c|] == c
    ensures FlipAs(TypeRead(true, dst[..], d, d, c), c, c) == FlipInPlace(c)
  {
    assert dst[..][d..d + |c|] == c;
    TypeReadIs(true, dst[..], d, d, c);
  }

  /** What converting by the type read again comes to in either case. */
  lemma ConvertedBy(dst: array<byte>, d: nat, src: array<byte>, s: nat, c: seq<byte>, q: seq<byte>)
    requires 8 <= |c| && d + |c| <= dst.Length && s + |c| <= src.Length
    requires src[s..s + |c|] == c && dst[d..d + |c|] == q
    ensures var y := FlipAs(TypeRead(dst == src, dst[..], d, s, c), c, q);
            && (Separate(dst, d, src, s, |c|) ==> y == FlipProperty(Host, c, q))
            && (dst == src && d == s ==> y == FlipInPlace(c))
  {
    hide *;
    if Separate(dst, d, src, s, |c|) {
      TypeApart(dst, d, src, s, c, q);
    }
    if dst == src && d == s {
      TypeInPlace(dst, d, c);
    }
  }

  /** The source's type is read again after the destination's header is written. */
  method HtonQueueProperty(dst: array<byte>, d: nat, src: array<byte>, s: nat, ghost k: nat,
                           ghost c: seq<byte>, ghost q: seq<byte>)
    requires d + k <= dst.Length && s + k <= src.Length && KnownProperty(Host, c)
    requires src[s..s + k] == c && dst[d..d + k] == q
    requires TypeRead(dst == src, dst[..], d, s, c) == MIN_RATE ==> 10 <= k
    modifies dst
    ensures dst[..] == Patch(old(dst[..]), d, FlipAs(TypeRead(dst == src, old(dst[..]), d, s, c), c, q))
    ensures Separate(dst, d, src, s, k) ==> dst[..] == Patch(old(dst[..]), d, FlipProperty(Host, c, q))
    ensures dst == src && d == s ==> dst[..] == Patch(old(dst[..]), d, FlipInPlace(c))
  {
    ghost var m, code := dst[..], TypeRead(dst == src, dst[..], d, s, c);
    PropertyAt(src, s, k, c);
    hide *;
    ConvertedBy(dst, d, src, s, c, q);
    assert q == m[d..d + k];
    PropertyPatched(code, m, d, c, q);
    var ph := Clone(src, s, Peek16(Host, src, s + 2));
    assert ph.Length == k && ph[..] == c && (dst != src ==> src[s] == c[0] && src[s + 1] == c[1]);
    StorePropertyHead(dst, d, ph, c);
    TypeNow(dst, d, src, s, m, c);
    if Peek16(Host, src, s) == MIN_RATE {
      StoreRate(dst, d, ph, c);
    }
  }

  method StoreRate(dst: array<byte>, d: nat, ph: array<byte>, ghost c: seq<byte>)
    requires dst != ph && 10 <= ph.Length && d + 10 <= dst.Length && ph[..] == c
    modifies dst
    ensures dst[..] == Patch(old(dst[..]), d + 8, [c[9], c[8]])
  {
    dst[d + 8], dst[d + 9] := ph[9], ph[8];
  }

  /** The loop over the properties has come to `at` with the count r. */
  ghost predicate Counting(m: seq<byte>, d: nat, x: seq<byte>, p: seq<byte>, w: seq<byte>, at: nat, r: u16,
                           mem: seq<byte>) {
    && at <= |x| == |p| == |w| && d + |x| <= |m| && p == m[d..d + |x|]
    && KnownProperties(Host, x[at..]) && Crosses(x[at..], r)
    && w[at..] == FlipSome(x[at..], p[at..], r)
    && mem == Patch(m, d, w[..at])
  }

  lemma CountingMemory(m: seq<byte>, d: nat, x: seq<byte>, p: seq<byte>, w: seq<byte>, at: nat, r: u16, mem: seq<byte>,
                       n: nat)
    requires Counting(m, d, x, p, w, at, r, mem) && at + n <= |x|
    ensures |x| == |p| && d + at + n <= |mem| && mem[d + at..d + at + n] == p[at..at + n]
  {
    hide Crosses, KnownProperties, FlipSome, Patch;
    SubSlice(m, d, d + |x|, at, at + n);
    PatchBeyond(m, d, w[..at], d + at, d + at + n);
  }

  /** What the next turn reads, in the source and in the destination. */
  lemma CountingReads(m: seq<byte>, d: nat, x: seq<byte>, p: seq<byte>, w: seq<byte>, at: nat, r: u16, mem: seq<byte>)
    returns (n: u16, c: seq<byte>, q: seq<byte>)
    requires Counting(m, d, x, p, w, at, r, mem) && r >= 8
    ensures at + 8 <= |x| && n == Len(Host, PROPERTIES, x[at..]) && 8 <= n && at + n <= |x| && d + at + n <= |mem|
    ensures c == x[at..at + n] && q == mem[d + at..d + at + n] && KnownProperty(Host, c)
  {
    var b := x[at..];
    SomeFirst(b, p[at..], r);
    n := Len(Host, PROPERTIES, b);
    c, q := x[at..at + n], p[at..at + n];
    assert c == b[..n];
    CountingMemory(m, d, x, p, w, at, r, mem, n);
  }

  lemma Slices(x: seq<byte>, at: nat, n: nat)
    requires at + n <= |x|
    ensures x[at..][..n] == x[at..at + n] && x[at..][n..] == x[at + n..]
  {
  }

  lemma CountingNext(m: seq<byte>, d: nat, x: seq<byte>, p: seq<byte>, w: seq<byte>, at: nat, r: u16, mem: seq<byte>,
                     n: u16, c: seq<byte>, q: seq<byte>, mem2: seq<byte>)
    requires Counting(m, d, x, p, w, at, r, mem) && r >= 8
    requires at + 8 <= |x| && n == Len(Host, PROPERTIES, x[at..]) && at + n <= |x| && d + at + n <= |mem|
    requires c == x[at..at + n] && q == mem[d + at..d + at + n] && mem2 == Patch(mem, d + at, FlipProperty(Host, c, q))
    ensures Counting(m, d, x, p, w, at + n, Less(r, n), mem2)
  {
    var b, bp := x[at..], p[at..];
    SomeFirst(b, bp, r);
    CountingMemory(m, d, x, p, w, at, r, mem, n);
    Slices(x, at, n);
    Slices(p, at, n);
    var v, rest := FlipProperty(Host, c, q), FlipSome(b[n..], bp[n..], Less(r, n));
    hide FlipSome, FlipProperty, FlipAs, Crosses, KnownProperties, KnownProperty, Len, Less, Get16, Patch;
    Peel(w, at, v, rest);
    PatchTwice(m, d, w[..at], d + at, v);
  }

  lemma CountingDone(m: seq<byte>, d: nat, x: seq<byte>, p: seq<byte>, w: seq<byte>, at: nat, r: u16, mem: seq<byte>)
    requires Counting(m, d, x, p, w, at, r, mem) && r < 8
    ensures mem == Patch(m, d, w)
  {
    assert w[at..] == p[at..];
    forall i | at <= i < |w| ensures w[i] == m[d + i] {
      assert w[i] == w[at..][i - at] == p[at..][i - at] == m[d..d + |x|][i];
    }
  }

  method HtonPropertyTurn(dst: array<byte>, d: nat, pq: array<byte>, at: nat, count: u16,
                          ghost m: seq<byte>, ghost x: seq<byte>, ghost p: seq<byte>, ghost w: seq<byte>)
    returns (len: u16)
    requires dst != pq && pq[..] == x && 8 <= count && Counting(m, d, x, p, w, at, count, dst[..])
    modifies dst
    ensures 8 <= len <= |x| - at && pq[..] == x
    ensures Counting(m, d, x, p, w, at + len, Less(count, len), dst[..])
  {
    hide *;
    ghost var mem := dst[..];
    ghost var k, c, q := CountingReads(m, d, x, p, w, at, count, mem);
    len := HtonPropertyAndLength(dst, d + at, pq, at, k, mem, x, c, q);
    CountingNext(m, d, x, p, w, at, count, mem, len, c, q, dst[..]);
  }

  method HtonPropertyAndLength(dst: array<byte>, d: nat, pq: array<byte>, at: nat, ghost k: nat,
                               ghost mem: seq<byte>, ghost x: seq<byte>, ghost c: seq<byte>, ghost q: seq<byte>)
    returns (len: u16)
    requires dst != pq && dst[..] == mem && pq[..] == x && at + k <= |x| && d + k <= |mem|
    requires KnownProperty(Host, c) && x[at..at + k] == c && mem[d..d + k] == q
    modifies dst
    ensures dst[..] == Patch(mem, d, FlipProperty(Host, c, q)) && pq[..] == x
    ensures len == k == |FlipProperty(Host, c, q)|
  {
    PropertyFlips(Host, c, q);
    assert pq[at..at + k] == c && dst[d..d + k] == q && |c| == k;
    assert Get16(Host, c, 2) == k && (TypeRead(dst == pq, mem, d, at, c) == MIN_RATE ==> 10 <= k);
    assert Separate(dst, d, pq, at, k);
    hide *;
    HtonQueueProperty(dst, d, pq, at, k, c, q);
    PeekSlice(Host, pq, at, c, 2);
    len := Peek16(Host, pq, at + 2);
  }

  /** The loop of hton_packet_queue over the properties, started with any count it can cross. */
  method HtonProperties(dst: array<byte>, d: nat, pq: array<byte>, start: nat, length: u16,
                        ghost m: seq<byte>, ghost x: seq<byte>, ghost p: seq<byte>, ghost w: seq<byte>)
    requires dst != pq && pq[..] == x && Counting(m, d, x, p, w, start, length, dst[..])
    modifies dst
    ensures dst[..] == Patch(m, d, w)
  {
    hide *;
    var propertiesLength: u16, at: nat := length, start;
    while propertiesLength >= 8
      invariant pq[..] == x && Counting(m, d, x, p, w, at, propertiesLength, dst[..])
      decreases |x| - at
    {
      var len := HtonPropertyTurn(dst, d, pq, at, propertiesLength, m, x, p, w);
      propertiesLength, at := Less(propertiesLength, len), at + len;
    }
    CountingDone(m, d, x, p, w, at, propertiesLength, dst[..]);
  }

  lemma CountingStarts(m: seq<byte>, d: nat, x: seq<byte>, back: u16)
    requires KnownQueue(Host, x) && d + |x| <= |m| && Crosses(x[8..], Count(back))
    ensures Counting(m, d, x, m[d..d + |x|], FlipQueueBy(x, m[d..d + |x|], back), 8, Count(back),
                     Patch(m, d, QueueHead(x)))
  {
    var p := m[d..d + |x|];
    var w := FlipQueueBy(x, p, back);
    assert w[..8] == QueueHead(x) && w[8..] == FlipSome(x[8..], p[8..], Count(back));
  }

  /** The length found at s once the head of queue x is converted at d in the memory m,
      where the source lies in that memory; otherwise the length of x. */
  function LengthRead(within: bool, m: seq<byte>, d: nat, s: nat, x: seq<byte>): u16
    requires 8 <= |x| && (within ==> d + 8 <= |m| && s + 6 <= |m|)
  {
    if within then Get16(Host, Patch(m, d, QueueHead(x)), s + 4) else Get16(Host, x, 4)
  }

  lemma LengthReadIs(within: bool, m: seq<byte>, d: nat, s: nat, x: seq<byte>)
    requires 8 <= |x| && (within ==> d + |x| <= |m| && s + |x| <= |m| && m[s..s + |x|] == x)
    ensures within && (d + |x| <= s || s + |x| <= d) ==> LengthRead(within, m, d, s, x) == Get16(Host, x, 4)
    ensures within && d == s ==> LengthRead(within, m, d, s, x) == Get16(Wire, x, 4)
  {
    if within {
      assert m[s + 4] == m[s..s + |x|][4] && m[s + 5] == m[s..s + |x|][5];
    }
  }

  lemma LengthNow(dst: array<byte>, d: nat, src: array<byte>, s: nat, m: seq<byte>, x: seq<byte>)
    requires 8 <= |x| && d + 8 <= |m| == dst.Length && s + 6 <= src.Length
    requires dst[..] == Patch(m, d, QueueHead(x)) && (dst != src ==> src[s + 4] == x[4] && src[s + 5] == x[5])
    ensures Peek16(Host, src, s + 4) == LengthRead(dst == src, m, d, s, x)
  {
    assert dst == src ==> src[s + 4] == dst[..][s + 4] && src[s + 5] == dst[..][s + 5];
  }

  /** What lies at s is the queue x. */
  lemma QueueAt(src: array<byte>, s: nat, n: nat, x: seq<byte>)
    requires s + n <= src.Length && KnownQueue(Host, x) && src[s..s + n] == x
    ensures |x| == n && 8 <= n && Peek16(Host, src, s + 4) == n && src[s + 4] == x[4] && src[s + 5] == x[5]
  {
  }

  /** Where the pieces are apart, the length read again is the queue's own. */
  lemma LengthApart(dst: array<byte>, d: nat, src: array<byte>, s: nat, x: seq<byte>, p: seq<byte>)
    requires KnownQueue(Host, x) && |p| == |x| && d + |x| <= dst.Length && s + |x| <= src.Length
    requires src[s..s + |x|] == x && Separate(dst, d, src, s, |x|)
    ensures 8 <= |x| && LengthRead(dst == src, dst[..], d, s, x) == |x|
    ensures Crosses(x[8..], Count(|x|)) && FlipQueueBy(x, p, |x|) == FlipQueue(Host, x, p)
  {
    assert dst == src ==> dst[..][s..s + |x|] == x;
    LengthReadIs(dst == src, dst[..], d, s, x);
    assert Get16(Host, x, 4) == |x|;
    hide *;
    OwnLength(x, p);
  }

  lemma LengthInPlace(dst: array<byte>, d: nat, x: seq<byte>)
    requires 8 <= |x| && d + |x| <= dst.Length && dst[d..d + |x|] == x
    ensures LengthRead(true, dst[..], d, d, x) == Get16(Wire, x, 4)
  {
    assert dst[..][d..d + |x|] == x;
    LengthReadIs(true, dst[..], d, d, x);
  }

  /** What converting by the length read again comes to in either case. */
  lemma CrossedBy(dst: array<byte>, d: nat, src: array<byte>, s: nat, x: seq<byte>, p: seq<byte>)
    requires KnownQueue(Host, x) && 8 <= |x| && d + |x| <= dst.Length && s + |x| <= src.Length
    requires src[s..s + |x|] == x && dst[d..d + |x|] == p
    ensures var back := LengthRead(dst == src, dst[..], d, s, x);
            && (Separate(dst, d, src, s, |x|) ==>
                  Crosses(x[8..], Count(back)) && FlipQueueBy(x, p, back) == FlipQueue(Host, x, p))
            && (dst == src && d == s ==> back == Get16(Wire, x, 4))
  {
    hide *;
    if Separate(dst, d, src, s, |x|) {
      LengthApart(dst, d, src, s, x, p);
    }
    if dst == src && d == s {
      LengthInPlace(dst, d, x);
    }
  }

  /** The source's length is read again after the destination's head is written.  In place
      it then reads in reverse; module InPlace says when the result is right all the same. */
  method HtonPacketQueue(dst: array<byte>, d: nat, src: array<byte>, s: nat, ghost n: nat,
                         ghost x: seq<byte>, ghost p: seq<byte>)
    requires d + n <= dst.Length && s + n <= src.Length && KnownQueue(Host, x)
    requires src[s..s + n] == x && dst[d..d + n] == p
    requires Separate(dst, d, src, s, n) || Crosses(x[8..], Count(LengthRead(dst == src, dst[..], d, s, x)))
    modifies dst
    ensures Separate(dst, d, src, s, n) ==> dst[..] == Patch(old(dst[..]), d, FlipQueue(Host, x, p))
    ensures !Separate(dst, d, src, s, n) ==>
              dst[..] == Patch(old(dst[..]), d, FlipQueueBy(x, p, LengthRead(dst == src, old(dst[..]), d, s, x)))
    ensures dst == src && d == s ==> LengthRead(dst == src, old(dst[..]), d, s, x) == Get16(Wire, x, 4)
  {
    ghost var m, back := dst[..], LengthRead(dst == src, dst[..], d, s, x);
    QueueAt(src, s, n, x);
    hide *;
    CrossedBy(dst, d, src, s, x, p);
    assert p == m[d..d + n];
    CountingStarts(m, d, x, back);
    var pq := Clone(src, s, Peek16(Host, src, s + 4));
    assert pq.Length == n && pq[..] == x && (dst != src ==> src[s + 4] == x[4] && src[s + 5] == x[5]);
    StoreQueueHead(dst, d, pq, x);
    LengthNow(dst, d, src, s, m, x);
    HtonProperties(dst, d, pq, 8, Count(Peek16(Host, src, s + 4)), m, x, p, FlipQueueBy(x, p, back));
  }
}
