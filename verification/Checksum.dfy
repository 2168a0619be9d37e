/**
 get_checksum of lib/cc_utility.c against RFC 1071, "Computing the Internet Checksum".
 */
module Checksum {

  import opened Bytes

  /** The 16-bit words of a buffer as a little-endian host reads them; an odd last
      byte is a word by itself. */
  function Words(b: seq<byte>): (ws: seq<u16>)
    ensures |ws| == (|b| + 1) / 2
    ensures forall i {:trigger ws[i]} :: 0 <= i < |ws| ==>
              ws[i] == if 2 * i + 1 < |b| then Get16(Host, b, 2 * i) else b[2 * i]
  {
    seq((|b| + 1) / 2, i requires 0 <= i < (|b| + 1) / 2 =>
      if 2 * i + 1 < |b| then Get16(Host, b, 2 * i) else b[2 * i])
  }

  function Sum(ws: seq<u16>): nat {
    if ws == [] then 0 else Sum(ws[..|ws| - 1]) + ws[|ws| - 1]
  }

  /** The 16-bit one's complement number a sum folds to: 0 only for 0. */
  function Norm(sum: nat): u16 {
    if sum == 0 then 0 else (sum - 1) % 0xffff + 1
  }

  /** What the code returns: the accumulator is 32 bits wide. */
  function Checksum(b: seq<byte>): u16 {
    0xffff - Norm(Sum(Words(b)) % 0x1_0000_0000)
  }

  lemma {:induction false} DropMultiple(a: nat, h: nat)
    ensures (a + 0xffff * h) % 0xffff == a % 0xffff
  {
    if h > 0 {
      DropMultiple(a, h - 1);
      AddOne(a + 0xffff * (h - 1));
    }
  }

  lemma AddOne(a: nat)
    ensures (a + 0xffff) % 0xffff == a % 0xffff
  {
  }

  /** One fold adds the carries back in: the sum gets smaller, its value does not change. */
  lemma Fold(sum: nat)
    requires sum >= 0x1_0000
    ensures 0 < sum % 0x1_0000 + sum / 0x1_0000 < sum
    ensures (sum % 0x1_0000 + sum / 0x1_0000) % 0xffff == sum % 0xffff
    ensures Norm(sum % 0x1_0000 + sum / 0x1_0000) == Norm(sum)
  {
    var h, l := sum / 0x1_0000, sum % 0x1_0000;
    assert sum == l + 0x1_0000 * h && h >= 1 && l >= 0;
    DropMultiple(l + h, h);
    DropMultiple(l + h - 1, h);
  }

  /** The accumulator after the first n words. */
  function Wrapped(ws: seq<u16>, n: nat): u32
    requires n <= |ws|
  {
    Sum(ws[..n]) % 0x1_0000_0000
  }

  lemma WrapAdd(sum: nat, w: u16)
    ensures (sum % 0x1_0000_0000 + w) % 0x1_0000_0000 == (sum + w) % 0x1_0000_0000
  {
    var q, r := sum / 0x1_0000_0000, sum % 0x1_0000_0000;
    assert sum == 0x1_0000_0000 * q + r;
    if r + w < 0x1_0000_0000 {
      assert sum + w == 0x1_0000_0000 * q + (r + w);
    } else {
      assert sum + w == 0x1_0000_0000 * (q + 1) + (r + w - 0x1_0000_0000);
    }
  }

  lemma Accumulate(ws: seq<u16>, n: nat)
    requires n < |ws|
    ensures (Wrapped(ws, n) + ws[n]) % 0x1_0000_0000 == Wrapped(ws, n + 1)
  {
    assert ws[..n + 1][..n] == ws[..n];
    assert Sum(ws[..n + 1]) == Sum(ws[..n]) + ws[n];
    assert Wrapped(ws, n) == Sum(ws[..n]) % 0x1_0000_0000 && Wrapped(ws, n + 1) == Sum(ws[..n + 1]) % 0x1_0000_0000;
    hide *;
    WrapAdd(Sum(ws[..n]), ws[n]);
  }

  /** The first loop and the odd byte: the words added up in 32 bits. */
  method AddWords(b: seq<byte>) returns (csum: u32)
    requires |b| < 0x1_0000_0000
    ensures csum == Wrapped(Words(b), |Words(b)|)
  {
    ghost var ws, n := Words(b), 0;
    assert forall i {:trigger ws[i]} :: 0 <= i < |ws| ==>
             ws[i] == if 2 * i + 1 < |b| then Get16(Host, b, 2 * i) else b[2 * i];
    assert |ws| == (|b| + 1) / 2 && Wrapped(ws, 0) == 0;
    hide *;
    var pos, size: u32 := 0, |b|;
    csum := 0;
    while 2 <= size
      invariant pos == 2 * n && pos + size == |b|
      invariant n <= |ws| && csum == Wrapped(ws, n)
    {
      Accumulate(ws, n);
      csum := (csum + Get16(Host, b, pos)) % 0x1_0000_0000;
      pos, size, n := pos + 2, size - 2, n + 1;
    }
    if size == 1 {
      Accumulate(ws, n);
      csum := (csum + b[pos]) % 0x1_0000_0000;
      n := n + 1;
    }
  }

  method GetChecksum(b: seq<byte>) returns (checksum: u16)
    requires |b| < 0x1_0000_0000
    ensures checksum == Checksum(b)
  {
    var csum := AddWords(b);
    ghost var sum := csum;
    assert Words(b)[..|Words(b)|] == Words(b);
    assert Checksum(b) == 0xffff - Norm(sum);
    hide Checksum, Words, Sum, Wrapped;
    while csum >= 0x1_0000
      invariant Norm(csum) == Norm(sum)
    {
      Fold(csum);
      csum := csum % 0x1_0000 + csum / 0x1_0000;
    }
    checksum := 0xffff - csum;
  }

  // ----- the accumulator

  lemma {:induction false} SumBound(ws: seq<u16>)
    ensures Sum(ws) <= 0xffff * |ws|
  {
    if ws != [] {
      SumBound(ws[..|ws| - 1]);
    }
  }

  lemma SumSize(b: seq<byte>)
    ensures Sum(Words(b)) <= 0xffff * ((|b| + 1) / 2)
  {
    SumBound(Words(b));
  }

  lemma ChecksumIs(b: seq<byte>)
    ensures Checksum(b) == 0xffff - Norm(Sum(Words(b)) % 0x1_0000_0000)
  {
  }

  lemma FitsWord(sum: nat)
    requires sum < 0x1_0000_0000
    ensures sum % 0x1_0000_0000 == sum
  {
  }

  lemma WrapCount(sum: nat)
    requires 0x1_0000_0000 <= sum <= 0xffff * 0x8000_0000
    ensures 0 < sum / 0x1_0000_0000 < 0xffff
  {
  }

  lemma HalfUp(n: nat, most: nat)
    requires n <= 2 * most
    ensures (n + 1) / 2 <= most
  {
  }

  /** 65537 words cannot overflow 32 bits, since 65537 * 65535 == 2^32 - 1. */
  lemma NoOverflow(b: seq<byte>)
    requires |b| <= 131074
    ensures Sum(Words(b)) < 0x1_0000_0000
    ensures Checksum(b) == 0xffff - Norm(Sum(Words(b)))
  {
    hide *;
    SumSize(b);
    HalfUp(|b|, 65537);
    ChecksumIs(b);
    FitsWord(Sum(Words(b)));
  }

  lemma {:induction false} AllOnesSum(ws: seq<u16>)
    requires forall i :: 0 <= i < |ws| ==> ws[i] == 0xffff
    ensures Sum(ws) == 0xffff * |ws|
  {
    if ws != [] {
      AllOnesSum(ws[..|ws| - 1]);
    }
  }

  /** The bound is tight: with one byte more the carry out of bit 31 can be lost. */
  lemma OverflowBeyond(b: seq<byte>)
    requires |b| == 131075 && forall i :: 0 <= i < |b| ==> b[i] == 0xff
    ensures Sum(Words(b)) >= 0x1_0000_0000
    ensures Checksum(b) != 0xffff - Norm(Sum(Words(b)))
  {
    var ws := Words(b);
    AllOnesSum(ws[..65537]);
    assert ws == ws[..65537] + [0xff];
    assert ws[..|ws| - 1] == ws[..65537];
  }

  /** Each wrap of the accumulator loses 1 modulo 65535, and fewer than 65535 can happen. */
  lemma WrapLoses(sum: nat, wraps: nat)
    requires wraps == sum / 0x1_0000_0000 && 0 < wraps < 0xffff
    ensures Norm(sum % 0x1_0000_0000) != Norm(sum)
  {
    var low := sum % 0x1_0000_0000;
    assert sum == low + 0xffff * (0x1_0001 * wraps) + wraps;
    if low > 0 {
      var q := (low - 1) / 0xffff;
      assert sum - 1 == 0xffff * (q + 0x1_0001 * wraps) + ((low - 1) % 0xffff + wraps);
    }
  }

  /** For every size: the code folds the sum of the words exactly if that sum fits 32 bits. */
  lemma ExactWhen(b: seq<byte>)
    requires |b| < 0x1_0000_0000
    ensures Checksum(b) == 0xffff - Norm(Sum(Words(b))) <==> Sum(Words(b)) < 0x1_0000_0000
  {
    hide *;
    var sum := Sum(Words(b));
    SumSize(b);
    HalfUp(|b|, 0x8000_0000);
    ChecksumIs(b);
    if sum >= 0x1_0000_0000 {
      WrapCount(sum);
      WrapLoses(sum, sum / 0x1_0000_0000);
    } else {
      FitsWord(sum);
    }
  }

  // ----- RFC 1071, section 1

  /** One's complement addition of 16-bit numbers: the end-around carry. */
  function OnesAdd(x: u16, y: u16): u16 {
    if x + y > 0xffff then x + y - 0xffff else x + y
  }

  function OnesSum(ws: seq<u16>): u16 {
    if ws == [] then 0 else OnesAdd(OnesSum(ws[..|ws| - 1]), ws[|ws| - 1])
  }

  lemma NormAdd(sum: nat, w: u16)
    ensures Norm(sum + w) == OnesAdd(Norm(sum), w)
  {
    if sum > 0 {
      var q := (sum - 1) / 0xffff;
      assert sum + w - 1 == 0xffff * q + (Norm(sum) + w - 1);
    }
  }

  lemma {:induction false} NormIsOnesSum(ws: seq<u16>)
    ensures Norm(Sum(ws)) == OnesSum(ws)
  {
    if ws != [] {
      NormIsOnesSum(ws[..|ws| - 1]);
      NormAdd(Sum(ws[..|ws| - 1]), ws[|ws| - 1]);
    }
  }

  /** The result is the complement of the one's complement sum of the words, exactly
      if their plain sum fits 32 bits; up to 131074 bytes it always does. */
  lemma IsInternetChecksum(b: seq<byte>)
    requires |b| < 0x1_0000_0000
    ensures Checksum(b) == 0xffff - OnesSum(Words(b)) <==> Sum(Words(b)) < 0x1_0000_0000
    ensures |b| <= 131074 ==> Checksum(b) == 0xffff - OnesSum(Words(b))
  {
    ExactWhen(b);
    NormIsOnesSum(Words(b));
    if |b| <= 131074 {
      NoOverflow(b);
    }
  }

  /** An odd buffer is summed as if a zero byte followed it. */
  lemma PadOdd(b: seq<byte>)
    requires |b| % 2 == 1
    ensures Checksum(b + [0]) == Checksum(b)
  {
    assert Words(b + [0]) == Words(b);
  }

  // ----- verifying a stored checksum

  function Store16(b: seq<byte>, i: nat, w: u16): (r: seq<byte>)
    requires i + 2 <= |b|
    ensures |r| == |b| && Get16(Host, r, i) == w
  {
    b[i := w % 0x100][i + 1 := w / 0x100]
  }

  lemma {:induction false} SumUpdate(ws: seq<u16>, i: nat, w: u16)
    requires i < |ws|
    ensures Sum(ws[i := w]) == Sum(ws) - ws[i] + w
  {
    var n := |ws| - 1;
    if i == n {
      assert ws[i := w][..n] == ws[..n];
    } else {
      assert ws[i := w][..n] == ws[..n][i := w];
      SumUpdate(ws[..n], i, w);
    }
  }

  lemma WordsStore(b: seq<byte>, i: nat, w: u16)
    requires i % 2 == 0 && i + 2 <= |b|
    ensures Words(Store16(b, i, w)) == Words(b)[i / 2 := w]
  {
    var r := Store16(b, i, w);
    forall k | 0 <= k < |Words(b)| ensures Words(r)[k] == Words(b)[i / 2 := w][k] {
    }
  }

  /** With the field zeroed before, a buffer that carries w there sums to zero exactly
      for the computed checksum, or for 0xffff where that is 0. */
  lemma StoredVerifies(b: seq<byte>, i: nat, w: u16)
    requires |b| <= 131074 && i % 2 == 0 && i + 2 <= |b| && Get16(Host, b, i) == 0
    ensures Checksum(Store16(b, i, w)) == 0 <==> w == Checksum(b) || (w == 0xffff && Checksum(b) == 0)
  {
    WordsStore(b, i, w);
    SumUpdate(Words(b), i / 2, w);
    NoOverflow(b);
    NoOverflow(Store16(b, i, w));
    NormAdd(Sum(Words(b)), w);
  }

  // ----- RFC 1071, section 2 (A) and (B)

  lemma {:induction false} SumSplit(xs: seq<u16>, ys: seq<u16>)
    ensures Sum(xs + ys) == Sum(xs) + Sum(ys)
    decreases |ys|
  {
    if ys == [] {
      assert xs + ys == xs;
    } else {
      var n := |ys| - 1;
      assert (xs + ys)[..|xs + ys| - 1] == xs + ys[..n];
      SumSplit(xs, ys[..n]);
    }
  }

  lemma TakeOut(ws: seq<u16>, k: nat)
    requires k < |ws|
    ensures var rest := ws[..k] + ws[k + 1..];
            && multiset(rest) == multiset(ws) - multiset{ws[k]}
            && Sum(ws) == Sum(rest) + ws[k]
  {
    var pre, post := ws[..k], ws[k + 1..];
    assert ws == pre + [ws[k]] + post;
    SumSplit(pre + [ws[k]], post);
    SumSplit(pre, post);
    assert (pre + [ws[k]])[..k] == pre;
    assert multiset(ws) == multiset(pre + post) + multiset{ws[k]};
  }

  lemma {:induction false} SumPermuted(xs: seq<u16>, ys: seq<u16>)
    requires multiset(xs) == multiset(ys)
    ensures Sum(xs) == Sum(ys)
    decreases |xs|
  {
    hide *;
    if xs == [] {
      assert |multiset(ys)| == 0;
      assert xs == ys;
    } else {
      assert xs[0] in multiset(xs) && xs[0] in multiset(ys);
      var k :| 0 <= k < |ys| && ys[k] == xs[0];
      TakeOut(xs, 0);
      TakeOut(ys, k);
      var rest, others := xs[..0] + xs[1..], ys[..k] + ys[k + 1..];
      assert multiset(rest) == multiset(others) && |rest| == |xs| - 1;
      SumPermuted(rest, others);
    }
  }

  /** (A) The order of the words does not matter. */
  lemma Reordered(a: seq<byte>, b: seq<byte>)
    requires multiset(Words(a)) == multiset(Words(b))
    ensures Checksum(a) == Checksum(b)
  {
    SumPermuted(Words(a), Words(b));
  }

  function Swap(w: u16): u16 {
    w % 0x100 * 0x100 + w / 0x100
  }

  lemma SwapHalves(h: byte, l: byte)
    ensures Swap(0x100 * h + l) == 0x100 * l + h
  {
    Halves(0x100 * h + l, h, l);
  }

  /** Swapping the bytes multiplies by 256 modulo 65535. */
  lemma SwapIsTimes256(w: u16)
    ensures 0x100 * w == Swap(w) + 0xffff * (w / 0x100)
  {
    var h, l := w / 0x100, w % 0x100;
    assert w == 0x100 * h + l;
    SwapHalves(h, l);
    hide Swap;
  }

  lemma {:induction false} SumSwapped(ws: seq<u16>, vs: seq<u16>) returns (k: nat)
    requires |vs| == |ws| && forall i :: 0 <= i < |ws| ==> vs[i] == Swap(ws[i])
    ensures 0x100 * Sum(ws) == Sum(vs) + 0xffff * k
    ensures Sum(ws) == 0 <==> Sum(vs) == 0
  {
    k := 0;
    if ws != [] {
      var n := |ws| - 1;
      k := SumSwapped(ws[..n], vs[..n]);
      SwapIsTimes256(ws[n]);
      k := k + ws[n] / 0x100;
    }
  }

  /** Norm picks the only representative between 1 and 0xffff. */
  lemma NormUnique(sum: nat, x: int, k: int)
    requires 1 <= x <= 0xffff && sum > 0 && sum == x + 0xffff * k
    ensures Norm(sum) == x
  {
    assert sum - 1 == 0xffff * k + (x - 1);
  }

  lemma NormSwapped(s: nat, v: nat, k: nat)
    requires 0x100 * s == v + 0xffff * k && (s == 0 <==> v == 0)
    ensures Norm(v) == Swap(Norm(s))
  {
    if s > 0 {
      var x := Norm(s);
      var q := (s - 1) / 0xffff;
      assert s == x + 0xffff * q;
      SwapIsTimes256(x);
      assert v == Swap(x) + 0xffff * (x / 0x100 + 0x100 * q - k);
      NormUnique(v, Swap(x), x / 0x100 + 0x100 * q - k);
    }
  }

  lemma SwapComplement(w: u16)
    ensures Swap(0xffff - w) == 0xffff - Swap(w)
  {
    hide Swap;
    var h, l := w / 0x100, w % 0x100;
    assert w == 0x100 * h + l;
    SwapHalves(h, l);
    SwapHalves(0xff - h, 0xff - l);
  }

  function SwapPairs(a: seq<byte>): seq<byte>
    requires |a| % 2 == 0
  {
    seq(|a|, i requires 0 <= i < |a| => if i % 2 == 0 then a[i + 1] else a[i - 1])
  }

  lemma WordSwapped(a: seq<byte>, i: nat)
    requires |a| % 2 == 0 && 2 * i < |a|
    ensures Words(SwapPairs(a))[i] == Swap(Words(a)[i])
  {
    hide Swap;
    var b := SwapPairs(a);
    assert Words(a)[i] == Get16(Host, a, 2 * i) && Words(b)[i] == Get16(Host, b, 2 * i);
    assert b[2 * i] == a[2 * i + 1] && b[2 * i + 1] == a[2 * i];
    SwapHalves(a[2 * i + 1], a[2 * i]);
  }

  /** (B) Swapping the bytes of every word swaps the bytes of the result. */
  lemma ByteSwapped(a: seq<byte>)
    requires |a| <= 131074 && |a| % 2 == 0
    ensures Checksum(SwapPairs(a)) == Swap(Checksum(a))
  {
    var b := SwapPairs(a);
    forall i | 0 <= i < |Words(a)| ensures Words(b)[i] == Swap(Words(a)[i]) {
      WordSwapped(a, i);
    }
    var k := SumSwapped(Words(a), Words(b));
    NoOverflow(a);
    NoOverflow(b);
    NormSwapped(Sum(Words(a)), Sum(Words(b)), k);
    SwapComplement(Norm(Sum(Words(a))));
  }
}
