/** Checksums as remainders of bit strings divided by a polynomial over GF(2).

    A generator of degree n is the n coefficients below its leading term, highest first. The theory holds
    for every generator; the two checksums of the program are instances of it. */
module Division {
  import opened Octets

  /** A generator that ends in 1. */
  predicate Generator(g: Bits) {
    |g| >= 8 && g[|g| - 1]
  }

  function Zeros(n: nat): Bits {
    seq(n, _ => false)
  }

  function Xor(a: Bits, b: Bits): Bits
    requires |a| == |b|
  {
    seq(|a|, i requires 0 <= i < |a| => a[i] != b[i])
  }

  /** One step of long division: bring down a zero, subtract the generator if the leading term is 1. */
  function Shift(g: Bits, r: Bits): (r': Bits)
    requires Generator(g) && |r| == |g|
    ensures |r'| == |g|
  {
    seq(|g|, i requires 0 <= i < |g| => (i + 1 < |g| && r[i + 1]) != (r[0] && g[i]))
  }

  /** The remainder of the message `m` times x^n, started from register r. */
  function Divide(g: Bits, r: Bits, m: Bits): (r': Bits)
    requires Generator(g) && |r| == |g|
    ensures |r'| == |g|
    decreases |m|
  {
    if m == [] then r else Divide(g, Shift(g, r[0 := r[0] != m[0]]), m[1..])
  }

  /** Bit i of a byte, most significant first. */
  predicate BitAt(b: bv8, i: nat)
    decreases i
  {
    if i == 0 then b & 0x80 != 0 else BitAt(b << 1, i - 1)
  }

  function ByteBits(b: bv8): (bits: Bits)
    ensures |bits| == 8
  {
    seq(8, i requires 0 <= i < 8 => BitAt(b, i))
  }

  function Remainder(g: Bits, m: Bytes): (r: Bits)
    requires Generator(g)
    ensures |r| == |g|
  {
    Divide(g, Zeros(|g|), BitsOf(m))
  }

  // ----- algebra of division

  lemma ShiftLinear(g: Bits, r: Bits, s: Bits)
    requires Generator(g) && |r| == |s| == |g|
    ensures Shift(g, Xor(r, s)) == Xor(Shift(g, r), Shift(g, s))
  {
  }

  /** Division is linear: a corrupted message leaves the remainder of the message xor that of the error. */
  lemma {:induction false} DivideLinear(g: Bits, r: Bits, s: Bits, a: Bits, b: Bits)
    requires Generator(g) && |r| == |s| == |g| && |a| == |b|
    ensures Divide(g, Xor(r, s), Xor(a, b)) == Xor(Divide(g, r, a), Divide(g, s, b))
    decreases |a|
  {
    if a != [] {
      var r', s' := r[0 := r[0] != a[0]], s[0 := s[0] != b[0]];
      assert Xor(a, b)[1..] == Xor(a[1..], b[1..]);
      assert Xor(r, s)[0 := Xor(r, s)[0] != Xor(a, b)[0]] == Xor(r', s');
      ShiftLinear(g, r', s');
      DivideLinear(g, Shift(g, r'), Shift(g, s'), a[1..], b[1..]);
    }
  }

  lemma {:induction false} DivideConcat(g: Bits, r: Bits, a: Bits, b: Bits)
    requires Generator(g) && |r| == |g|
    ensures Divide(g, r, a + b) == Divide(g, Divide(g, r, a), b)
    decreases |a|
  {
    if a == [] {
      assert a + b == b;
    } else {
      assert (a + b)[1..] == a[1..] + b;
      DivideConcat(g, Shift(g, r[0 := r[0] != a[0]]), a[1..], b);
    }
  }

  /** The generator ends in 1, so no step turns a nonzero register into zero. */
  lemma ShiftInjective(g: Bits, r: Bits)
    requires Generator(g) && |r| == |g|
    ensures Shift(g, r) == Zeros(|g|) <==> r == Zeros(|g|)
  {
    var s, n := Shift(g, r), |g|;
    if s == Zeros(n) {
      assert !s[n - 1] && !r[0];
      forall i | 0 <= i < n
        ensures !r[i]
      {
        if i > 0 {
          assert !s[i - 1];
        }
      }
    }
  }

  lemma {:induction false} DivideZeros(g: Bits, r: Bits, n: nat)
    requires Generator(g) && |r| == |g|
    ensures Divide(g, r, Zeros(n)) == Zeros(|g|) <==> r == Zeros(|g|)
    decreases n
  {
    if n > 0 {
      assert Zeros(n)[1..] == Zeros(n - 1);
      assert r[0 := r[0] != false] == r;
      ShiftInjective(g, r);
      DivideZeros(g, Shift(g, r), n - 1);
    }
  }

  /** A short bit string as the top of a register. */
  function Pack(n: nat, w: Bits): Bits
    requires |w| <= n
  {
    w + Zeros(n - |w|)
  }

  /** Dividing in a short string is the same as adding it to the register and dividing in zeros. */
  lemma {:induction false} DividePacked(g: Bits, r: Bits, w: Bits)
    requires Generator(g) && |r| == |g| && |w| <= |g|
    ensures Divide(g, r, w) == Divide(g, Xor(r, Pack(|g|, w)), Zeros(|w|))
    decreases |w|
  {
    var n := |g|;
    if w == [] {
      assert Xor(r, Pack(n, w)) == r;
    } else {
      var r', low := r[0 := r[0] != w[0]], [false] + w[1..] + Zeros(n - |w|);
      assert Xor(r, Pack(n, w)) == Xor(r', low);
      assert Shift(g, low) == Pack(n, w[1..]);
      ShiftLinear(g, r', low);
      assert Zeros(|w|)[1..] == Zeros(|w| - 1);
      var x := Xor(r, Pack(n, w));
      assert x[0 := x[0] != false] == x;
      DividePacked(g, Shift(g, r'), w[1..]);
    }
  }

  /** A register whose first k bits are clear just moves up k places. */
  lemma {:induction false} DivideMoves(g: Bits, x: Bits, k: nat)
    requires Generator(g) && |x| == |g| && k <= |g| && x[..k] == Zeros(k)
    ensures Divide(g, x, Zeros(k)) == x[k..] + Zeros(k)
    decreases k
  {
    if k == 0 {
      assert x[0..] + Zeros(0) == x;
    } else {
      assert Zeros(k)[1..] == Zeros(k - 1);
      assert !x[..k][0];
      assert x[0 := x[0] != false] == x;
      var y := x[1..] + [false];
      assert Shift(g, x) == y;
      forall i | 0 <= i < k - 1
        ensures !y[i]
      {
        assert !x[..k][i + 1];
      }
      assert y[..k - 1] == Zeros(k - 1);
      DivideMoves(g, y, k - 1);
      assert y[k - 1..] + Zeros(k - 1) == x[k..] + Zeros(k);
    }
  }

  lemma SplitTop(r: Bits, w: Bits)
    requires |w| == 8 <= |r|
    ensures Xor(r, Pack(|r|, w)) == Xor(Pack(|r|, Xor(r[..8], w)), Zeros(8) + r[8..])
    ensures Xor(Zeros(8), Zeros(8)) == Zeros(8)
    ensures (Zeros(8) + r[8..])[..8] == Zeros(8) && (Zeros(8) + r[8..])[8..] == r[8..]
  {
  }

  /** The step of every table-driven checksum: index by the top byte of the register plus the data byte,
      then add the rest of the register moved up a byte. */
  lemma TableStep(g: Bits, r: Bits, w: Bits)
    requires Generator(g) && |r| == |g| && |w| == 8
    ensures Divide(g, r, w) == Xor(Divide(g, Zeros(|g|), Xor(r[..8], w)), r[8..] + Zeros(8))
  {
    hide Divide, Shift;
    var n, i := |g|, Xor(r[..8], w);
    var high, low := Pack(n, i), Zeros(8) + r[8..];
    DividePacked(g, r, w);
    SplitTop(r, w);
    DivideLinear(g, high, low, Zeros(8), Zeros(8));
    DividePacked(g, Zeros(n), i);
    assert Xor(Zeros(n), high) == high;
    DivideMoves(g, low, 8);
  }

  // ----- error detection

  /** Every error burst no longer than the checksum leaves a nonzero remainder. */
  lemma BurstRemainder(g: Bits, i: nat, w: Bits, j: nat)
    requires Generator(g) && |w| <= |g| && true in w
    ensures Divide(g, Zeros(|g|), Zeros(i) + w + Zeros(j)) != Zeros(|g|)
  {
    var z := Zeros(|g|);
    DivideZeros(g, z, i);
    DividePacked(g, z, w);
    var p := Pack(|g|, w);
    assert Xor(z, p) == p;
    var k :| 0 <= k < |w| && w[k];
    assert p[k];
    DivideZeros(g, p, |w|);
    DivideZeros(g, Divide(g, z, w), j);
    DivideConcat(g, z, Zeros(i) + w, Zeros(j));
    DivideConcat(g, z, Zeros(i), w);
  }

  /** a and b differ, and only within n consecutive bits starting at bit i. */
  ghost predicate BurstApart(a: Bytes, b: Bytes, i: nat, n: nat) {
    && |a| == |b| && a != b
    && forall k | 0 <= k < 8 * |a| && !(i <= k < i + n) :: BitsOf(a)[k] == BitsOf(b)[k]
  }

  lemma {:induction false} BitXor(a: bv8, b: bv8, i: nat)
    ensures BitAt(a ^ b, i) == (BitAt(a, i) != BitAt(b, i))
    decreases i
  {
    if i > 0 {
      assert (a ^ b) << 1 == (a << 1) ^ (b << 1);
      BitXor(a << 1, b << 1, i - 1);
    } else {
      TopBitXor(a, b);
    }
  }

  lemma TopBitXor(a: bv8, b: bv8)
    ensures ((a ^ b) & 0x80 != 0) == ((a & 0x80 != 0) != (b & 0x80 != 0))
  {
  }

  /** What is left of b after n left shifts. */
  function Rest(b: bv8, n: nat): bv8
    decreases n
  {
    if n == 0 then b else Rest(b << 1, n - 1)
  }

  lemma Rest4(b: bv8, n: nat)
    ensures Rest(b, n + 4) == Rest(b << 4, n)
  {
    assert (((b << 1) << 1) << 1) << 1 == b << 4;
    assert Rest(b, n + 4) == Rest(b << 1, n + 3) == Rest((b << 1) << 1, n + 2) == Rest(((b << 1) << 1) << 1, n + 1);
  }

  lemma {:induction false} ClearIsZero(b: bv8, n: nat)
    requires forall i | 0 <= i < n :: !BitAt(b, i)
    requires Rest(b, n) == 0
    ensures b == 0
    decreases n
  {
    if n > 0 {
      assert !BitAt(b, 0);
      var b' := b << 1;
      forall i | 0 <= i < n - 1
        ensures !BitAt(b', i)
      {
        assert !BitAt(b, i + 1);
      }
      ClearIsZero(b', n - 1);
      TopClear(b);
    }
  }

  lemma TopClear(b: bv8)
    ensures b & 0x80 == 0 && b << 1 == 0 ==> b == 0
    ensures (b << 4) << 4 == 0
  {
  }

  lemma XorZero(a: bv8, b: bv8)
    ensures a ^ b == 0 <==> a == b
  {
  }

  lemma ByteBitsInjective(a: bv8, b: bv8)
    requires ByteBits(a) == ByteBits(b)
    ensures a == b
  {
    var e := a ^ b;
    forall i | 0 <= i < 8
      ensures !BitAt(e, i)
    {
      BitXor(a, b, i);
      assert ByteBits(a)[i] == ByteBits(b)[i];
    }
    Rest4(e, 4);
    Rest4(e << 4, 0);
    TopClear(e);
    ClearIsZero(e, 8);
    XorZero(a, b);
  }

  lemma ErrorShape(x: Bits, y: Bits, i: nat, n: nat) returns (w: Bits, lead: nat, trail: nat)
    requires |x| == |y| && x != y
    requires forall k | 0 <= k < |x| && !(i <= k < i + n) :: x[k] == y[k]
    ensures |w| <= n && true in w && Xor(x, y) == Zeros(lead) + w + Zeros(trail)
  {
    var k :| 0 <= k < |x| && x[k] != y[k];
    var end := if i + n <= |x| then i + n else |x|;
    lead, trail := i, |x| - end;
    w := seq(end - i, j requires 0 <= j < end - i => x[i + j] != y[i + j]);
    assert w[k - i];
  }

  /** Two words of the same length never have the same remainder when a burst no longer than the
      checksum is all that sets them apart. */
  lemma BurstDetected(g: Bits, a: Bytes, b: Bytes, i: nat)
    requires Generator(g) && BurstApart(a, b, i, |g|)
    ensures Remainder(g, a) != Remainder(g, b)
  {
    hide Divide, Shift, BitsOf;
    var z, x, y := Zeros(|g|), BitsOf(a), BitsOf(b);
    if x == y {
      BitsOfInjective(a, b);
      assert false;
    }
    var w, lead, trail := ErrorShape(x, y, i, |g|);
    BurstRemainder(g, lead, w, trail);
    XorSame(z);
    XorSame(Divide(g, z, x));
    DivideLinear(g, z, z, x, y);
  }

  lemma XorSame(r: Bits)
    ensures Xor(r, r) == Zeros(|r|)
  {
  }

  /** A receiver that recomputes the checksum accepts exactly the words with remainder zero. */
  lemma AcceptedIsCodeword(g: Bits, m: Bytes, tail: Bytes)
    requires Generator(g) && 8 * |tail| == |g|
    ensures Remainder(g, m) == BitsOf(tail) <==> Remainder(g, m + tail) == Zeros(|g|)
  {
    var r, w := Remainder(g, m), BitsOf(tail);
    BitsOfConcat(m, tail);
    DivideConcat(g, Zeros(|g|), BitsOf(m), w);
    DividePacked(g, r, w);
    assert Pack(|g|, w) == w;
    DivideZeros(g, Xor(r, w), |g|);
    XorDiffers(r, w);
  }

  lemma XorDiffers(r: Bits, w: Bits)
    requires |r| == |w|
    ensures Xor(r, w) == Zeros(|r|) <==> r == w
  {
    if Xor(r, w) == Zeros(|r|) {
      forall i | 0 <= i < |r|
        ensures r[i] == w[i]
      {
        assert !Xor(r, w)[i];
      }
    }
  }

  /** So no burst of errors up to the length of the checksum, wherever it falls in the message and the
      checksum sent with it, turns an accepted word into another accepted word. */
  lemma BurstRejected(g: Bits, m: Bytes, tail: Bytes, m': Bytes, tail': Bytes, i: nat)
    requires Generator(g) && 8 * |tail| == 8 * |tail'| == |g|
    requires Remainder(g, m) == BitsOf(tail) && BurstApart(m + tail, m' + tail', i, |g|)
    ensures Remainder(g, m') != BitsOf(tail')
  {
    AcceptedIsCodeword(g, m, tail);
    AcceptedIsCodeword(g, m', tail');
    BurstDetected(g, m + tail, m' + tail', i);
  }

  // ----- bytes as pieces of a register

  lemma XorByte(a: bv8, b: bv8)
    ensures ByteBits(a ^ b) == Xor(ByteBits(a), ByteBits(b))
  {
    forall i | 0 <= i < 8
      ensures ByteBits(a ^ b)[i] == Xor(ByteBits(a), ByteBits(b))[i]
    {
      BitXor(a, b, i);
    }
  }

  lemma {:induction false} BitZero(i: nat)
    ensures !BitAt(0, i)
    decreases i
  {
    if i > 0 {
      BitZero(i - 1);
    }
  }

  lemma ZeroByte()
    ensures ByteBits(0) == Zeros(8)
  {
    forall i | 0 <= i < 8
      ensures !ByteBits(0)[i]
    {
      BitZero(i);
    }
  }

  function PowerOfTwo(k: nat): bv8 {
    if k == 0 then 1 else PowerOfTwo(k - 1) << 1
  }

  lemma PowerValues()
    ensures PowerOfTwo(0) == 1 && PowerOfTwo(1) == 2 && PowerOfTwo(2) == 4 && PowerOfTwo(3) == 8
    ensures PowerOfTwo(4) == 16 && PowerOfTwo(5) == 32 && PowerOfTwo(6) == 64 && PowerOfTwo(7) == 128
  {
  }

  lemma {:induction false} BitOfPower(k: nat, i: nat)
    requires k < 8
    ensures BitAt(PowerOfTwo(k), i) <==> i + k == 7
    decreases i
  {
    PowerValues();
    if i == 0 {
    } else if k < 7 {
      BitOfPower(k + 1, i - 1);
    } else {
      BitZero(i - 1);
    }
  }

  /** Moving a byte up one place with a carry into its last bit. */
  lemma CarryByte(b: bv8, carry: bool)
    ensures ByteBits((b << 1) ^ (if carry then 1 else 0)) == ByteBits(b)[1..] + [carry]
  {
    var x: bv8 := if carry then 1 else 0;
    var y := (b << 1) ^ x;
    forall i | 0 <= i < 8
      ensures ByteBits(y)[i] == if i < 7 then BitAt(b, i + 1) else carry
    {
      BitXor(b << 1, x, i);
      BitOfPower(0, i);
      BitZero(i);
      BitEight(b);
    }
  }

  // ----- bytes as numbers and as bit vectors

  /** The bit vector of the low n bits of v. */
  function ToBvN(v: nat, n: nat): bv8
    decreases n
  {
    if n == 0 then 0 else (ToBvN(v / 2, n - 1) << 1) ^ (if v % 2 == 1 then 1 else 0)
  }

  function ToBv(b: Byte): bv8 {
    ToBvN(b, 8)
  }

  function FromBv(x: bv8): Byte {
    ByteRange();
    Num(ByteBits(x))
  }

  /** One more bit, on both sides. */
  lemma OneMoreBit(v: nat, n: nat)
    requires n > 0
    ensures Bin(v, n) == Bin(v / 2, n - 1) + [v % 2 == 1]
    ensures ToBvN(v, n) == (ToBvN(v / 2, n - 1) << 1) ^ (if v % 2 == 1 then 1 else 0)
  {
    hide BitAt, ByteBits;
  }

  lemma ZerosShifted(k: nat, b: Bits)
    ensures (Zeros(k + 1) + b)[1..] == Zeros(k) + b
  {
  }

  lemma NoBits(v: nat)
    ensures Bin(v, 0) == [] && ToBvN(v, 0) == 0
  {
    hide BitAt, ByteBits;
  }

  lemma {:induction false} ToBvBits(v: nat, n: nat)
    requires n <= 8
    ensures ByteBits(ToBvN(v, n)) == Zeros(8 - n) + Bin(v, n)
    decreases n
  {
    hide BitAt, ByteBits, Bin, ToBvN, Zeros;
    if n == 0 {
      ZeroByte();
      NoBits(v);
    } else {
      var carry := v % 2 == 1;
      ToBvBits(v / 2, n - 1);
      OneMoreBit(v, n);
      CarryByte(ToBvN(v / 2, n - 1), carry);
      ZerosShifted(8 - n, Bin(v / 2, n - 1));
    }
  }

  lemma ToBvIsBin(b: Byte)
    ensures ByteBits(ToBv(b)) == Bin(b, 8)
  {
    ToBvBits(b, 8);
    hide ByteBits;
    assert Zeros(0) + Bin(b, 8) == Bin(b, 8);
  }

  lemma FromBvIsBin(x: bv8)
    ensures Bin(FromBv(x), 8) == ByteBits(x)
  {
    hide ByteBits;
    BinNum(ByteBits(x));
  }

  lemma LastBit(b: bv8)
    ensures BitAt(b, 7) == (b & 1 != 0)
  {
  }

  lemma XorConcat(a: Bits, b: Bits, a': Bits, b': Bits)
    requires |a| == |a'| && |b| == |b'|
    ensures Xor(a + b, a' + b') == Xor(a, a') + Xor(b, b')
  {
  }

  /** A division step is a move up by one bit, and the generator added if a 1 fell out. */
  lemma ShiftIsXor(g: Bits, r: Bits)
    requires Generator(g) && |r| == |g|
    ensures Shift(g, r) == Xor(r[1..] + [false], if r[0] then g else Zeros(|g|))
  {
  }

  lemma FirstBit(b: bv8)
    ensures ByteBits(b)[0] == (b & 0x80 != 0)
  {
  }

  lemma BitEight(b: bv8)
    ensures !BitAt(b << 1, 7)
  {
  }
}
