/** Bytes as numbers, and numbers as bit strings. */
module Octets {

  type Byte = x: int | 0 <= x < 0x100

  type Bytes = seq<Byte>

  /** Two bytes, or one cell of flash. */
  type Half = x: int | 0 <= x < 0x10000

  type Bits = seq<bool>

  /** The two bytes of a 16-bit number, and the number of two bytes. */
  function HighByte(n: nat): Byte {
    n / 256 % 256
  }

  function LowByte(n: nat): Byte {
    n % 256
  }

  function Number(high: Byte, low: Byte): nat {
    256 * (high as nat) + low
  }

  function Pow2(n: nat): (p: nat)
    ensures p >= 1
  {
    if n == 0 then 1 else 2 * Pow2(n - 1)
  }

  /** The low n bits of v, most significant first. */
  function Bin(v: nat, n: nat): (bits: Bits)
    ensures |bits| == n
    decreases n
  {
    if n == 0 then [] else Bin(v / 2, n - 1) + [v % 2 == 1]
  }

  /** The number a bit string stands for. */
  function Num(bits: Bits): (v: nat)
    ensures v < Pow2(|bits|)
  {
    if bits == [] then 0
    else
      var n := |bits| - 1;
      2 * Num(bits[..n]) + if bits[n] then 1 else 0
  }

  lemma {:induction false} NumBin(v: nat, n: nat)
    requires v < Pow2(n)
    ensures Num(Bin(v, n)) == v
    decreases n
  {
    if n > 0 {
      assert Bin(v, n)[..n - 1] == Bin(v / 2, n - 1);
      NumBin(v / 2, n - 1);
    }
  }

  lemma {:induction false} BinNum(bits: Bits)
    ensures Bin(Num(bits), |bits|) == bits
  {
    if bits != [] {
      var n := |bits| - 1;
      BinNum(bits[..n]);
      assert bits == bits[..n] + [bits[n]];
    }
  }

  lemma ByteRange()
    ensures Pow2(8) == 256
  {
    assert Pow2(4) == 16;
  }

  /** The bits of a byte string, most significant bit of each byte first. */
  function BitsOf(m: Bytes): (bits: Bits)
    ensures |bits| == 8 * |m|
  {
    if m == [] then [] else BitsOf(m[..|m| - 1]) + Bin(m[|m| - 1], 8)
  }

  lemma {:induction false} BitsOfInjective(a: Bytes, b: Bytes)
    requires |a| == |b| && BitsOf(a) == BitsOf(b)
    ensures a == b
  {
    hide Bin, Num;
    if a != [] {
      var n := |a| - 1;
      var x, y := BitsOf(a[..n]), BitsOf(b[..n]);
      assert x == BitsOf(a)[..8 * n] && y == BitsOf(b)[..8 * n];
      assert Bin(a[n], 8) == BitsOf(a)[8 * n..] && Bin(b[n], 8) == BitsOf(b)[8 * n..];
      BitsOfInjective(a[..n], b[..n]);
      ByteRange();
      NumBin(a[n], 8);
      NumBin(b[n], 8);
      assert a == a[..n] + [a[n]] && b == b[..n] + [b[n]];
    }
  }

  lemma BitsOfByte(b: Byte)
    ensures BitsOf([b]) == Bin(b, 8)
  {
    assert BitsOf([b]) == BitsOf([]) + Bin(b, 8);
  }

  lemma {:induction false} BitsOfConcat(a: Bytes, b: Bytes)
    ensures BitsOf(a + b) == BitsOf(a) + BitsOf(b)
  {
    hide Bin;
    if b == [] {
      assert a + b == a;
    } else {
      var n, ab := |b| - 1, a + b;
      assert ab[..|ab| - 1] == a + b[..n] && ab[|ab| - 1] == b[n];
      BitsOfConcat(a, b[..n]);
      Regroup(BitsOf(a), BitsOf(b[..n]), Bin(b[n], 8));
    }
  }

  lemma Regroup(x: Bits, y: Bits, z: Bits)
    ensures (x + y) + z == x + (y + z)
  {
  }
}
