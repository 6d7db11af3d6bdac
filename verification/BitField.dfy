/** Bit fields of a byte buffer, most significant bit first: the accessors all RTCM messages are built from. */
module BitField {
  import opened Octets
  import opened Arithmetic

  const WORD: nat := 0x1_0000_0000

  // ----- single bits of a number

  /** Bit k of v, the least significant being bit 0. */
  predicate Bit(v: nat, k: nat) {
    v / Pow2(k) % 2 == 1
  }

  lemma {:induction false} BinAt(v: nat, n: nat, k: nat)
    requires k < n
    ensures Bin(v, n)[k] <==> Bit(v, n - 1 - k)
    decreases n
  {
    if k < n - 1 {
      BinAt(v / 2, n - 1, k);
      HalfOfQuotient(v, Pow2(n - 2 - k));
    }
  }

  lemma {:induction false} BinSet(v: nat, n: nat, k: nat)
    requires k < n && !Bin(v, n)[k]
    ensures Bin(v + Pow2(n - 1 - k), n) == Bin(v, n)[k := true]
    decreases n
  {
    var p := Pow2(n - 1 - k);
    if k < n - 1 {
      BinSet(v / 2, n - 1, k);
      assert p == 2 * Pow2(n - 2 - k);
      assert (v + p) / 2 == v / 2 + Pow2(n - 2 - k) && (v + p) % 2 == v % 2;
    }
  }

  lemma {:induction false} BinClear(v: nat, n: nat, k: nat)
    requires k < n && Bin(v, n)[k]
    ensures v >= Pow2(n - 1 - k) && Bin(v - Pow2(n - 1 - k), n) == Bin(v, n)[k := false]
    decreases n
  {
    var p := Pow2(n - 1 - k);
    if k < n - 1 {
      BinClear(v / 2, n - 1, k);
      assert p == 2 * Pow2(n - 2 - k);
      assert (v - p) / 2 == v / 2 - Pow2(n - 2 - k) && (v - p) % 2 == v % 2;
    }
  }

  lemma {:induction false} NumOfBin(v: nat, n: nat)
    ensures Num(Bin(v, n)) == v % Pow2(n)
    decreases n
  {
    if n > 0 {
      assert Bin(v, n)[..n - 1] == Bin(v / 2, n - 1);
      NumOfBin(v / 2, n - 1);
      ModDouble(v, Pow2(n - 1));
    }
  }

  /** v with bit k set or cleared. */
  function Force(v: nat, k: nat, on: bool): nat {
    if on then (if Bit(v, k) then v else v + Pow2(k))
    else if Bit(v, k) then BitWeight(v, k); v - Pow2(k) else v
  }

  lemma BitWeight(v: nat, k: nat)
    requires Bit(v, k)
    ensures v >= Pow2(k)
  {
    if v < Pow2(k) {
      QuotientIs(v, Pow2(k), 0, v);
    }
  }

  lemma ForceBits(v: nat, n: nat, k: nat, on: bool)
    requires k < n
    ensures Bin(Force(v, n - 1 - k, on), n) == Bin(v, n)[k := on]
    ensures v < Pow2(n) ==> Force(v, n - 1 - k, on) < Pow2(n)
  {
    hide Bin, Pow2, Bit;
    BinAt(v, n, k);
    if Bin(v, n)[k] {
      BinClear(v, n, k);
    } else {
      BinSet(v, n, k);
      if v < Pow2(n) {
        SetInRange(v, n, k);
      }
    }
    assert Bin(v, n)[k := Bin(v, n)[k]] == Bin(v, n);
  }

  lemma SetInRange(v: nat, n: nat, k: nat)
    requires k < n && v < Pow2(n) && !Bin(v, n)[k]
    ensures v + Pow2(n - 1 - k) < Pow2(n)
  {
    NumBin(v, n);
    NumSet(Bin(v, n), k);
  }

  lemma {:induction false} NumSet(bits: Bits, k: nat)
    requires k < |bits| && !bits[k]
    ensures Num(bits[k := true]) == Num(bits) + Pow2(|bits| - 1 - k)
    decreases |bits|
  {
    var n := |bits| - 1;
    if k < n {
      assert bits[k := true][..n] == bits[..n][k := true];
      NumSet(bits[..n], k);
    } else {
      assert bits[k := true][..n] == bits[..n];
    }
  }

  // ----- one bit of a buffer

  function WithBit(b: Byte, k: nat, on: bool): Byte
    requires k < 8
  {
    WithBitBits(b, k, on);
    Force(b, 7 - k, on)
  }

  lemma WithBitBits(b: Byte, k: nat, on: bool)
    requires k < 8
    ensures Force(b, 7 - k, on) < 0x100 && Bin(Force(b, 7 - k, on), 8) == Bin(b, 8)[k := on]
  {
    ByteRange();
    hide Bin, Force, Pow2;
    ForceBits(b, 8, k, on);
  }

  lemma BitsOfSplit(m: Bytes, q: nat)
    requires q < |m|
    ensures BitsOf(m) == BitsOf(m[..q]) + Bin(m[q], 8) + BitsOf(m[q + 1..])
  {
    hide Bin, BitsOf;
    var p, c := m[..q + 1], m[q + 1..];
    LastByte(p);
    assert p[..q] == m[..q];
    assert m == p + c;
    BitsOfConcat(p, c);
  }

  lemma LastByte(m: Bytes)
    requires m != []
    ensures BitsOf(m) == BitsOf(m[..|m| - 1]) + Bin(m[|m| - 1], 8)
  {
    hide Bin;
  }

  lemma BitsOfAt(m: Bytes, i: nat)
    requires i < 8 * |m|
    ensures BitsOf(m)[i] == Bin(m[i / 8], 8)[i % 8]
  {
    hide BitsOf, Bin;
    BitsOfSplit(m, i / 8);
    assert i == 8 * (i / 8) + i % 8;
  }

  /** A byte with one bit changed changes that bit of the whole. */
  lemma BitsOfUpdate(m: Bytes, q: nat, k: nat, b: Byte, on: bool)
    requires q < |m| && k < 8 && Bin(b, 8) == Bin(m[q], 8)[k := on]
    ensures BitsOf(m[q := b]) == BitsOf(m)[8 * q + k := on]
  {
    hide BitsOf, Bin;
    BitsOfSplit(m, q);
    BitsOfSplit(m[q := b], q);
    assert m[q := b][..q] == m[..q] && m[q := b][q + 1..] == m[q + 1..];
  }

  lemma SliceSlice(s: Bits, i: nat, j: nat, a: nat, b: nat)
    requires i <= j <= |s| && a <= b <= j - i
    ensures s[i..j][a..b] == s[i + a..i + b]
  {
    var t := s[i..j];
    forall k | 0 <= k < b - a ensures t[a..b][k] == s[i + a..i + b][k] {
      assert t[a + k] == s[i + a + k];
    }
  }

  // ----- fields

  /** bits with a field at pos replaced. */
  function Put(bits: Bits, pos: nat, field: Bits): (r: Bits)
    requires pos + |field| <= |bits|
    ensures |r| == |bits|
  {
    bits[..pos] + field + bits[pos + |field|..]
  }

  /** The bits of a signed field: its sign, then the low bits of the two's complement. */
  function SignedBin(v: int, n: nat): (bits: Bits)
    requires n > 0
    ensures |bits| == n
  {
    [v < 0] + Bin(v % Pow2(n - 1), n - 1)
  }

  /** The number a two's complement bit string stands for. */
  function SignedNum(bits: Bits): int
    requires bits != []
  {
    Num(bits) - if bits[0] then Pow2(|bits|) else 0
  }

  predicate Fits(v: int, n: nat)
    requires n > 0
  {
    -(Pow2(n - 1) as int) <= v < Pow2(n - 1)
  }

  lemma {:induction false} NumCons(b: bool, bits: Bits)
    ensures Num([b] + bits) == (if b then Pow2(|bits|) else 0) + Num(bits)
    decreases |bits|
  {
    var n := |bits|;
    if n > 0 {
      NumCons(b, bits[..n - 1]);
      assert ([b] + bits)[..n] == [b] + bits[..n - 1];
    } else {
      assert ([b] + bits)[..0] == [];
    }
  }

  /** A signed field reads back as what was written exactly when it was in range. */
  lemma SignedRoundTrip(v: int, n: nat)
    requires n > 0
    ensures SignedNum(SignedBin(v, n)) == v <==> Fits(v, n)
  {
    var p := Pow2(n - 1);
    NumCons(v < 0, Bin(v % p, n - 1));
    NumBin(v % p, n - 1);
    if Fits(v, n) {
      if v < 0 {
        QuotientIs(v, p, -1, v + p);
      } else {
        QuotientIs(v, p, 0, v);
      }
    }
  }

  lemma UnsignedRoundTrip(v: nat, n: nat)
    ensures Num(Bin(v, n)) == v <==> v < Pow2(n)
  {
    NumOfBin(v, n);
    if v < Pow2(n) {
      QuotientIs(v, Pow2(n), 0, v);
    }
  }

  lemma BinTail(v: nat, n: nat)
    requires n > 0
    ensures Bin(v, n) == [Bit(v, n - 1)] + Bin(v % Pow2(n - 1), n - 1)
  {
    hide Bin, Num, Bit;
    var p, tail := Pow2(n - 1), Bin(v, n)[1..];
    BinAt(v, n, 0);
    assert Bin(v, n) == [Bin(v, n)[0]] + tail;
    NumCons(Bin(v, n)[0], tail);
    NumOfBin(v, n);
    var high := 2 * (v / (2 * p)) + if Bin(v, n)[0] then 1 else 0;
    assert v == high * p + Num(tail);
    QuotientIs(v, p, high, Num(tail));
    BinNum(tail);
  }

  // ----- the accessors

  lemma {:induction false} Pow2Mono(a: nat, b: nat)
    requires a <= b
    ensures Pow2(a) <= Pow2(b)
    decreases b
  {
    if a < b {
      Pow2Mono(a, b - 1);
    }
  }

  lemma WordRange()
    ensures Pow2(32) == WORD && Pow2(31) == 0x8000_0000
  {
    assert Pow2(8) == 256;
    assert Pow2(16) == 65536;
    assert Pow2(24) == 16777216;
    assert Pow2(31) == 0x8000_0000;
  }

  method SetBitU(buff: array<Byte>, pos: nat, len: nat, data: nat)
    requires 1 <= len <= 32 && pos + len <= 8 * buff.Length && data < WORD
    modifies buff
    ensures BitsOf(buff[..]) == Put(BitsOf(old(buff[..])), pos, Bin(data, len))
  {
    hide WithBit, Bin, BitsOf, Put;
    var mask := Pow2(len - 1);
    ghost var was, field := BitsOf(buff[..]), Bin(data, len);
    PutNothing(was, pos);
    var i := pos;
    while i < pos + len
      invariant pos <= i <= pos + len
      invariant i < pos + len ==> mask == Pow2(pos + len - 1 - i)
      invariant BitsOf(buff[..]) == Put(was, pos, field[..i - pos])
    {
      BinAt(data, len, i - pos);
      SetOneBit(buff, i, data / mask % 2 == 1);
      PutMore(was, pos, field, i - pos);
      i, mask := i + 1, mask / 2;
    }
    assert field[..len] == field;
  }

  method SetOneBit(buff: array<Byte>, i: nat, on: bool)
    requires i < 8 * buff.Length
    modifies buff
    ensures BitsOf(buff[..]) == BitsOf(old(buff[..]))[i := on]
  {
    hide Bin, Force, BitsOf;
    ghost var was := buff[..];
    var q, k := i / 8, i % 8;
    var b := WithBit(buff[q], k, on);
    WithBitBits(was[q], k, on);
    BitsOfUpdate(was, q, k, b, on);
    assert 8 * q + k == i;
    buff[q] := b;
    assert buff[..] == was[q := b];
  }

  lemma PutNothing(bits: Bits, pos: nat)
    requires pos <= |bits|
    ensures Put(bits, pos, []) == bits
  {
  }

  lemma PutMore(bits: Bits, pos: nat, field: Bits, k: nat)
    requires k < |field| && pos + |field| <= |bits|
    ensures Put(bits, pos, field[..k])[pos + k := field[k]] == Put(bits, pos, field[..k + 1])
  {
  }

  /** Forcing the sign bit of the two's complement word gives the signed field. */
  lemma ForceSign(data: int, len: nat)
    requires 1 <= len <= 32
    ensures Force(data % WORD, len - 1, data < 0) < WORD
    ensures Bin(Force(data % WORD, len - 1, data < 0), len) == SignedBin(data, len)
  {
    var u := data % WORD;
    WordRange();
    SameLowBits(data, len);
    hide Pow2, Bit, Force;
    ForceBits(u, 32, 32 - len, data < 0);
    ForceFirst(u, len, data < 0);
  }

  lemma ForceFirst(v: nat, n: nat, on: bool)
    requires n > 0
    ensures Bin(Force(v, n - 1, on), n) == [on] + Bin(v % Pow2(n - 1), n - 1)
  {
    hide Pow2, Bit, Force, Bin;
    ForceBits(v, n, 0, on);
    BinTail(v, n);
  }

  lemma SameLowBits(data: int, len: nat)
    requires 1 <= len <= 32
    ensures data % WORD % Pow2(len - 1) == data % Pow2(len - 1)
  {
    WordRange();
    Pow2Sum(len - 1, 33 - len);
    hide Pow2;
    ModMod(data, Pow2(len - 1), Pow2(33 - len));
  }

  lemma {:induction false} Pow2Sum(a: nat, b: nat)
    ensures Pow2(a + b) == Pow2(a) * Pow2(b)
    decreases b
  {
    if b > 0 {
      Pow2Sum(a, b - 1);
    }
  }

  method SetBits(buff: array<Byte>, pos: nat, len: nat, data: int)
    requires 1 <= len <= 32 && pos + len <= 8 * buff.Length && Fits(data, 32)
    modifies buff
    ensures BitsOf(buff[..]) == Put(BitsOf(old(buff[..])), pos, SignedBin(data, len))
  {
    ForceSign(data, len);
    hide Bin, BitsOf, Put, SignedBin, Force;
    SetBitU(buff, pos, len, Force(data % WORD, len - 1, data < 0));
  }

  method GetBitU(buff: array<Byte>, pos: nat, len: nat) returns (bits: nat)
    requires len <= 32 && pos + len <= 8 * buff.Length
    ensures bits == Num(BitsOf(buff[..])[pos..pos + len])
  {
    hide Bin, BitsOf;
    bits := 0;
    ghost var all := BitsOf(buff[..]);
    for i := pos to pos + len
      invariant bits == Num(all[pos..i])
    {
      BitsOfAt(buff[..], i);
      BinAt(buff[i / 8], 8, i % 8);
      assert all[pos..i + 1][..i - pos] == all[pos..i];
      bits := 2 * bits + buff[i / 8] / Pow2(7 - i % 8) % 2;
    }
  }

  method GetBits(buff: array<Byte>, pos: nat, len: nat) returns (v: int)
    requires 1 <= len <= 32 && pos + len <= 8 * buff.Length
    ensures v == SignedNum(BitsOf(buff[..])[pos..pos + len])
  {
    hide Bin, BitsOf;
    var bits := GetBitU(buff, pos, len);
    ghost var field := BitsOf(buff[..])[pos..pos + len];
    TopBit(field);
    v := if Bit(bits, len - 1) then bits - Pow2(len) else bits;
  }

  lemma TopBit(bits: Bits)
    requires bits != []
    ensures bits[0] <==> Bit(Num(bits), |bits| - 1)
  {
    BinNum(bits);
    BinAt(Num(bits), |bits|, 0);
  }

  // ----- signed 38-bit fields, for antenna positions

  /** The upper 32 bits, signed, and the lower six. */
  function Upper(v: real): int {
    (v / 64.0).Floor
  }

  function Lower(v: real): int {
    (v - 64.0 * Upper(v) as real).Floor
  }

  lemma Halves(v: real)
    ensures 64 * Upper(v) + Lower(v) == v.Floor && 0 <= Lower(v) < 64
  {
    var q := v / 64.0;
    assert v == 64.0 * q && q.Floor as real <= q < q.Floor as real + 1.0;
  }

  /** set38bits. */
  method Set38Bits(buff: array<Byte>, pos: nat, value: real)
    requires pos + 38 <= 8 * buff.Length && Fits(Upper(value), 32)
    modifies buff
    ensures BitsOf(buff[..]) == Put(BitsOf(old(buff[..])), pos, SignedBin(Upper(value), 32) + Bin(Lower(value), 6))
  {
    hide Bin, BitsOf, SignedBin, Upper, Lower, Fits;
    Halves(value);
    var wordH, wordL := Upper(value), Lower(value);
    ghost var was := BitsOf(buff[..]);
    SetBits(buff, pos, 32, wordH);
    SetBitU(buff, pos + 32, 6, wordL);
    PutTwice(was, pos, SignedBin(wordH, 32), Bin(wordL, 6));
  }

  lemma PutTwice(bits: Bits, pos: nat, a: Bits, b: Bits)
    requires pos + |a| + |b| <= |bits|
    ensures Put(Put(bits, pos, a), pos + |a|, b) == Put(bits, pos, a + b)
  {
  }

  /** getbits_38. */
  method GetBits38(buff: array<Byte>, pos: nat) returns (v: int)
    requires pos + 38 <= 8 * buff.Length
    ensures v == Num38(BitsOf(buff[..])[pos..pos + 38])
  {
    hide BitsOf, Num, SignedNum;
    var h := GetBits(buff, pos, 32);
    var l := GetBitU(buff, pos + 32, 6);
    v := 64 * h + l;
    ghost var all := BitsOf(buff[..]);
    assert all[pos..pos + 38][..32] == all[pos..pos + 32] && all[pos..pos + 38][32..] == all[pos + 32..pos + 38];
  }

  function Num38(bits: Bits): int
    requires |bits| == 38
  {
    64 * SignedNum(bits[..32]) + Num(bits[32..])
  }

  /** A number written as a 38-bit field reads back rounded down, exactly when its upper part fits 32 bits. */
  lemma RoundTrip38(v: real)
    ensures Num38(SignedBin(Upper(v), 32) + Bin(Lower(v), 6)) == v.Floor <==> Fits(Upper(v), 32)
  {
    hide Bin, SignedBin, Num, SignedNum, Upper, Fits;
    Halves(v);
    var a, b := SignedBin(Upper(v), 32), Bin(Lower(v), 6);
    assert (a + b)[..32] == a && (a + b)[32..] == b;
    SignedRoundTrip(Upper(v), 32);
    assert Pow2(6) == 64;
    UnsignedRoundTrip(Lower(v), 6);
  }
}
