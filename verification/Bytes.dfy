/**
 Memory as bytes.  The host is little-endian, the wire is big-endian.
 */
module Bytes {

  type byte = x: int | 0 <= x < 0x100
  type u16 = x: int | 0 <= x < 0x1_0000
  type u32 = x: int | 0 <= x < 0x1_0000_0000
  type u64 = x: int | 0 <= x < 0x1_0000_0000_0000_0000

  datatype Order = Host | Wire

  function Get16(o: Order, b: seq<byte>, i: nat): u16
    requires i + 2 <= |b|
  {
    if o.Host? then b[i] as int + 0x100 * b[i + 1] as int else b[i + 1] as int + 0x100 * b[i] as int
  }

  function Get32(o: Order, b: seq<byte>, i: nat): u32
    requires i + 4 <= |b|
  {
    if o.Host? then Get16(o, b, i) as int + 0x1_0000 * Get16(o, b, i + 2) as int
    else Get16(o, b, i + 2) as int + 0x1_0000 * Get16(o, b, i) as int
  }

  function Get64(o: Order, b: seq<byte>, i: nat): u64
    requires i + 8 <= |b|
  {
    if o.Host? then Get32(o, b, i) as int + 0x1_0000_0000 * Get32(o, b, i + 4) as int
    else Get32(o, b, i + 4) as int + 0x1_0000_0000 * Get32(o, b, i) as int
  }

  // ----- numbers, independently of width and order

  /** The number whose digits to base 256 are b, the most significant one first. */
  function Number(b: seq<byte>): nat {
    if b == [] then 0 else 0x100 * Number(b[..|b| - 1]) + b[|b| - 1]
  }

  lemma NumberOfTwo(a: byte, b: byte)
    ensures Number([a, b]) == 0x100 * a + b
  {
    assert [a, b][..1] == [a] && [a][..0] == [];
    assert Number([a]) == a;
  }

  lemma NumberOfFour(a: byte, b: byte, c: byte, d: byte)
    ensures Number([a, b, c, d]) == 0x1_0000 * (0x100 * a + b) + (0x100 * c + d)
  {
    NumberOfTwo(a, b);
    assert [a, b, c, d][..3] == [a, b, c] && [a, b, c][..2] == [a, b];
    assert Number([a, b, c]) == 0x100 * Number([a, b]) + c;
  }

  lemma NumberSplit(x: seq<byte>, y: seq<byte>)
    requires |y| == 4
    ensures Number(x + y) == 0x1_0000_0000 * Number(x) + Number(y)
  {
    NumberLast(x + y);
    NumberLast((x + y)[..|x| + 3]);
    NumberLast((x + y)[..|x| + 2]);
    NumberLast((x + y)[..|x| + 1]);
    assert (x + y)[..|x| + 3][..|x| + 2] == (x + y)[..|x| + 2];
    assert (x + y)[..|x| + 2][..|x| + 1] == (x + y)[..|x| + 1];
    assert (x + y)[..|x| + 1][..|x|] == x;
    assert y == [y[0], y[1], y[2], y[3]];
    NumberOfFour(y[0], y[1], y[2], y[3]);
    hide Number;
  }

  lemma NumberLast(b: seq<byte>)
    requires b != []
    ensures Number(b) == 0x100 * Number(b[..|b| - 1]) + b[|b| - 1]
  {
  }

  /** On the wire a number stands with its most significant byte first. */
  lemma OnWire16(b: seq<byte>, i: nat)
    requires i + 2 <= |b|
    ensures Get16(Wire, b, i) == Number(b[i..i + 2])
  {
    assert b[i..i + 2] == [b[i], b[i + 1]];
    NumberOfTwo(b[i], b[i + 1]);
  }

  lemma OnWire32(b: seq<byte>, i: nat)
    requires i + 4 <= |b|
    ensures Get32(Wire, b, i) == Number(b[i..i + 4])
  {
    assert b[i..i + 4] == [b[i], b[i + 1], b[i + 2], b[i + 3]];
    NumberOfFour(b[i], b[i + 1], b[i + 2], b[i + 3]);
  }

  lemma OnWire64(b: seq<byte>, i: nat)
    requires i + 8 <= |b|
    ensures Get64(Wire, b, i) == Number(b[i..i + 8])
  {
    OnWire32(b, i);
    OnWire32(b, i + 4);
    assert b[i..i + 8] == b[i..i + 4] + b[i + 4..i + 8];
    hide Get32, Number;
    NumberSplit(b[i..i + 4], b[i + 4..i + 8]);
  }

  /** In the host's memory its bytes stand in reverse. */
  lemma InHost16(b: seq<byte>, i: nat)
    requires i + 2 <= |b|
    ensures Get16(Host, b, i) == Number([b[i + 1], b[i]])
  {
    NumberOfTwo(b[i + 1], b[i]);
  }

  lemma InHost32(b: seq<byte>, i: nat)
    requires i + 4 <= |b|
    ensures Get32(Host, b, i) == Number([b[i + 3], b[i + 2], b[i + 1], b[i]])
  {
    NumberOfFour(b[i + 3], b[i + 2], b[i + 1], b[i]);
  }

  /** The two bytes of a number that has been put together from them. */
  lemma Halves(v: nat, h: nat, l: nat)
    requires v == 0x100 * h + l && l < 0x100
    ensures v / 0x100 == h && v % 0x100 == l
  {
  }

  lemma SubSlice<T>(x: seq<T>, a: nat, b: nat, c: nat, d: nat)
    requires a <= b <= |x| && c <= d <= b - a
    ensures x[a..b][c..d] == x[a + c..a + d]
  {
    forall i | 0 <= i < d - c ensures x[a..b][c..d][i] == x[a + c..a + d][i] {
    }
  }
}
