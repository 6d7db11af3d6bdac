/** The 16-bit checksum of the packet and CAN protocols. */
module Crc16 {
  import opened Octets
  import opened Division

  /** The generator 0x11021. */
  function G16(): (g: Bits)
    ensures Generator(g) && |g| == 16
  {
    LastBit(Low(0x1021));
    Reg16(0x1021)
  }

  function High(c: bv16): bv8 {
    ((c >> 8) & 0xFF) as bv8
  }

  function Low(c: bv16): bv8 {
    (c & 0xFF) as bv8
  }

  /** The register as bits, most significant first. */
  function Reg16(c: bv16): (r: Bits)
    ensures |r| == 16
  {
    ByteBits(High(c)) + ByteBits(Low(c))
  }

  /** The checksum as it is sent, high byte first. */
  function Wire16(c: bv16): (w: Bytes)
    ensures |w| == 2
  {
    [FromBv(High(c)), FromBv(Low(c))]
  }

  function Xor16(a: bv16, b: bv16): bv16 {
    a ^ b
  }

  function Twice16(c: bv16): bv16 {
    c << 1
  }

  function Up16(c: bv16): bv16 {
    c << 8
  }

  function Carry16(c: bv16): bv16 {
    if c & 0x8000 != 0 then 0x1021 else 0
  }

  /** One step of bitwise division on the register. */
  function Step16(c: bv16): bv16 {
    Xor16(Twice16(c), Carry16(c))
  }

  function Steps16(c: bv16): bv16 {
    Step16(Step16(Step16(Step16(Step16(Step16(Step16(Step16(c))))))))
  }

  function Row(t0: bv16, t1: bv16, t2: bv16, t3: bv16, t4: bv16, t5: bv16, t6: bv16, t7: bv16,
                t8: bv16, t9: bv16, t10: bv16, t11: bv16, t12: bv16, t13: bv16, t14: bv16, t15: bv16, k: bv8): bv16 {
    match k
    case 0 => t0
    case 1 => t1
    case 2 => t2
    case 3 => t3
    case 4 => t4
    case 5 => t5
    case 6 => t6
    case 7 => t7
    case 8 => t8
    case 9 => t9
    case 10 => t10
    case 11 => t11
    case 12 => t12
    case 13 => t13
    case 14 => t14
    case _ => t15
  }

  /** crc16_tab */
  function Crc16Tab(i: bv8): bv16 {
    match i >> 4
    case 0x0 => Row(0x0000, 0x1021, 0x2042, 0x3063, 0x4084, 0x50a5, 0x60c6, 0x70e7, 0x8108, 0x9129, 0xa14a, 0xb16b, 0xc18c, 0xd1ad, 0xe1ce, 0xf1ef, i & 0xF)
    case 0x1 => Row(0x1231, 0x0210, 0x3273, 0x2252, 0x52b5, 0x4294, 0x72f7, 0x62d6, 0x9339, 0x8318, 0xb37b, 0xa35a, 0xd3bd, 0xc39c, 0xf3ff, 0xe3de, i & 0xF)
    case 0x2 => Row(0x2462, 0x3443, 0x0420, 0x1401, 0x64e6, 0x74c7, 0x44a4, 0x5485, 0xa56a, 0xb54b, 0x8528, 0x9509, 0xe5ee, 0xf5cf, 0xc5ac, 0xd58d, i & 0xF)
    case 0x3 => Row(0x3653, 0x2672, 0x1611, 0x0630, 0x76d7, 0x66f6, 0x5695, 0x46b4, 0xb75b, 0xa77a, 0x9719, 0x8738, 0xf7df, 0xe7fe, 0xd79d, 0xc7bc, i & 0xF)
    case 0x4 => Row(0x48c4, 0x58e5, 0x6886, 0x78a7, 0x0840, 0x1861, 0x2802, 0x3823, 0xc9cc, 0xd9ed, 0xe98e, 0xf9af, 0x8948, 0x9969, 0xa90a, 0xb92b, i & 0xF)
    case 0x5 => Row(0x5af5, 0x4ad4, 0x7ab7, 0x6a96, 0x1a71, 0x0a50, 0x3a33, 0x2a12, 0xdbfd, 0xcbdc, 0xfbbf, 0xeb9e, 0x9b79, 0x8b58, 0xbb3b, 0xab1a, i & 0xF)
    case 0x6 => Row(0x6ca6, 0x7c87, 0x4ce4, 0x5cc5, 0x2c22, 0x3c03, 0x0c60, 0x1c41, 0xedae, 0xfd8f, 0xcdec, 0xddcd, 0xad2a, 0xbd0b, 0x8d68, 0x9d49, i & 0xF)
    case 0x7 => Row(0x7e97, 0x6eb6, 0x5ed5, 0x4ef4, 0x3e13, 0x2e32, 0x1e51, 0x0e70, 0xff9f, 0xefbe, 0xdfdd, 0xcffc, 0xbf1b, 0xaf3a, 0x9f59, 0x8f78, i & 0xF)
    case 0x8 => Row(0x9188, 0x81a9, 0xb1ca, 0xa1eb, 0xd10c, 0xc12d, 0xf14e, 0xe16f, 0x1080, 0x00a1, 0x30c2, 0x20e3, 0x5004, 0x4025, 0x7046, 0x6067, i & 0xF)
    case 0x9 => Row(0x83b9, 0x9398, 0xa3fb, 0xb3da, 0xc33d, 0xd31c, 0xe37f, 0xf35e, 0x02b1, 0x1290, 0x22f3, 0x32d2, 0x4235, 0x5214, 0x6277, 0x7256, i & 0xF)
    case 0xA => Row(0xb5ea, 0xa5cb, 0x95a8, 0x8589, 0xf56e, 0xe54f, 0xd52c, 0xc50d, 0x34e2, 0x24c3, 0x14a0, 0x0481, 0x7466, 0x6447, 0x5424, 0x4405, i & 0xF)
    case 0xB => Row(0xa7db, 0xb7fa, 0x8799, 0x97b8, 0xe75f, 0xf77e, 0xc71d, 0xd73c, 0x26d3, 0x36f2, 0x0691, 0x16b0, 0x6657, 0x7676, 0x4615, 0x5634, i & 0xF)
    case 0xC => Row(0xd94c, 0xc96d, 0xf90e, 0xe92f, 0x99c8, 0x89e9, 0xb98a, 0xa9ab, 0x5844, 0x4865, 0x7806, 0x6827, 0x18c0, 0x08e1, 0x3882, 0x28a3, i & 0xF)
    case 0xD => Row(0xcb7d, 0xdb5c, 0xeb3f, 0xfb1e, 0x8bf9, 0x9bd8, 0xabbb, 0xbb9a, 0x4a75, 0x5a54, 0x6a37, 0x7a16, 0x0af1, 0x1ad0, 0x2ab3, 0x3a92, i & 0xF)
    case 0xE => Row(0xfd2e, 0xed0f, 0xdd6c, 0xcd4d, 0xbdaa, 0xad8b, 0x9de8, 0x8dc9, 0x7c26, 0x6c07, 0x5c64, 0x4c45, 0x3ca2, 0x2c83, 0x1ce0, 0x0cc1, i & 0xF)
    case _ => Row(0xef1f, 0xff3e, 0xcf5d, 0xdf7c, 0xaf9b, 0xbfba, 0x8fd9, 0x9ff8, 0x6e17, 0x7e36, 0x4e55, 0x5e74, 0x2e93, 0x3eb2, 0x0ed1, 0x1ef0, i & 0xF)
  }

  lemma Crc16Tab0(i: bv8)
    requires i >> 5 == 0
    ensures Crc16Tab(i) == Steps16((i as bv16) << 8)
  {
    if i >> 4 == 0 {
    }
  }

  lemma Crc16Tab1(i: bv8)
    requires i >> 5 == 1
    ensures Crc16Tab(i) == Steps16((i as bv16) << 8)
  {
    if i >> 4 == 2 {
    }
  }

  lemma Crc16Tab2(i: bv8)
    requires i >> 5 == 2
    ensures Crc16Tab(i) == Steps16((i as bv16) << 8)
  {
    if i >> 4 == 4 {
    }
  }

  lemma Crc16Tab3(i: bv8)
    requires i >> 5 == 3
    ensures Crc16Tab(i) == Steps16((i as bv16) << 8)
  {
    if i >> 4 == 6 {
    }
  }

  lemma Crc16Tab4(i: bv8)
    requires i >> 5 == 4
    ensures Crc16Tab(i) == Steps16((i as bv16) << 8)
  {
    if i >> 4 == 8 {
    }
  }

  lemma Crc16Tab5(i: bv8)
    requires i >> 5 == 5
    ensures Crc16Tab(i) == Steps16((i as bv16) << 8)
  {
    if i >> 4 == 10 {
    }
  }

  lemma Crc16Tab6(i: bv8)
    requires i >> 5 == 6
    ensures Crc16Tab(i) == Steps16((i as bv16) << 8)
  {
    if i >> 4 == 12 {
    }
  }

  lemma Crc16Tab7(i: bv8)
    requires i >> 5 == 7
    ensures Crc16Tab(i) == Steps16((i as bv16) << 8)
  {
    if i >> 4 == 14 {
    }
  }

  /** Every table entry is eight steps of bitwise division. */
  lemma Crc16TabIsDivision(i: bv8)
    ensures Crc16Tab(i) == Steps16((i as bv16) << 8)
  {
    if i >> 5 == 0 {
      Crc16Tab0(i);
    } else if i >> 5 == 1 {
      Crc16Tab1(i);
    } else if i >> 5 == 2 {
      Crc16Tab2(i);
    } else if i >> 5 == 3 {
      Crc16Tab3(i);
    } else if i >> 5 == 4 {
      Crc16Tab4(i);
    } else if i >> 5 == 5 {
      Crc16Tab5(i);
    } else if i >> 5 == 6 {
      Crc16Tab6(i);
    } else {
      Crc16Tab7(i);
    }
  }

  lemma XorOfHigh(a: bv16, b: bv16)
    ensures High(Xor16(a, b)) == High(a) ^ High(b)
  {
  }

  lemma XorHigh(a: bv16, b: bv16)
    ensures ByteBits(High(Xor16(a, b))) == Xor(ByteBits(High(a)), ByteBits(High(b)))
  {
    hide High, Xor16, BitAt, ByteBits, Xor;
    XorOfHigh(a, b);
    XorByte(High(a), High(b));
  }

  lemma XorOfLow(a: bv16, b: bv16)
    ensures Low(Xor16(a, b)) == Low(a) ^ Low(b)
  {
  }

  lemma XorLow(a: bv16, b: bv16)
    ensures ByteBits(Low(Xor16(a, b))) == Xor(ByteBits(Low(a)), ByteBits(Low(b)))
  {
    hide Low, Xor16, BitAt, ByteBits, Xor;
    XorOfLow(a, b);
    XorByte(Low(a), Low(b));
  }

  lemma TwiceHigh(c: bv16)
    ensures ByteBits(High(Twice16(c))) == ByteBits(High(c))[1..] + [ByteBits(Low(c))[0]]
  {
    CarryByte(High(c), Low(c) & 0x80 != 0);
    assert High(Twice16(c)) == (High(c) << 1) ^ (if Low(c) & 0x80 != 0 then 1 else 0);
    FirstBit(Low(c));
  }

  lemma TwiceLow(c: bv16)
    ensures ByteBits(Low(Twice16(c))) == ByteBits(Low(c))[1..] + [false]
  {
    CarryByte(Low(c), false);
    assert Low(Twice16(c)) == (Low(c) << 1) ^ (if false then 1 else 0);
  }

  lemma UpHigh(c: bv16)
    ensures ByteBits(High(Up16(c))) == ByteBits(Low(c))
  {
    assert High(Up16(c)) == Low(c);
  }

  lemma UpLow(c: bv16)
    ensures ByteBits(Low(Up16(c))) == Zeros(8)
  {
    assert Low(Up16(c)) == 0;
    ZeroByte();
  }

  lemma XorReg16(a: bv16, b: bv16)
    ensures Reg16(Xor16(a, b)) == Xor(Reg16(a), Reg16(b))
  {
    hide BitAt, ByteBits, Xor, Xor16, Twice16, Up16, High, Low;
    XorHigh(a, b);
    XorLow(a, b);
    XorConcat(ByteBits(High(a)), ByteBits(Low(a)), ByteBits(High(b)), ByteBits(Low(b)));
  }

  lemma UpReg16(c: bv16)
    ensures Reg16(Up16(c)) == Reg16(c)[8..] + Zeros(8)
  {
    hide BitAt, ByteBits, Twice16, Up16, High, Low;
    UpHigh(c);
    UpLow(c);
  }

  lemma TwiceReg16(c: bv16)
    ensures Reg16(Twice16(c)) == Reg16(c)[1..] + [false]
  {
    hide BitAt, ByteBits, Twice16, Up16, High, Low;
    TwiceHigh(c);
    TwiceLow(c);
  }

  lemma CarryReg16(c: bv16)
    ensures Reg16(Carry16(c)) == if Reg16(c)[0] then G16() else Zeros(16)
  {
    FirstBit(High(c));
    assert c & 0x8000 != 0 <==> High(c) & 0x80 != 0;
    ZeroByte();
  }

  lemma StepReg16(c: bv16)
    ensures Reg16(Step16(c)) == Shift(G16(), Reg16(c))
  {
    StepIsXor16(c);
    hide BitAt, ByteBits, Xor, Shift, Reg16, G16, Step16, Xor16, Twice16, Carry16;
    XorReg16(Twice16(c), Carry16(c));
    TwiceReg16(c);
    CarryReg16(c);
    ShiftIsXor(G16(), Reg16(c));
  }

  lemma StepIsXor16(c: bv16)
    ensures Step16(c) == Xor16(Twice16(c), Carry16(c))
  {
  }

  lemma WireReg16(c: bv16)
    ensures BitsOf(Wire16(c)) == Reg16(c)
  {
    hide BitAt, ByteBits, FromBv, High, Low;
    assert Wire16(c) == [FromBv(High(c))] + [FromBv(Low(c))];
    BitsOfByte(FromBv(High(c)));
    FromBvIsBin(High(c));
    BitsOfByte(FromBv(Low(c)));
    FromBvIsBin(Low(c));
    BitsOfConcat([FromBv(High(c))], [FromBv(Low(c))]);
  }

  // ----- the checksum of a byte string

  /** The checksum computed a byte at a time from the table. */
  function Checksum16(m: Bytes): bv16 {
    if m == [] then 0
    else
      var c := Checksum16(m[..|m| - 1]);
      Xor16(Crc16Tab(High(c) ^ ToBv(m[|m| - 1])), Up16(c))
  }

  /** The two checksum bytes sent after a byte string. */
  function Check(data: Bytes): (w: Bytes)
    ensures |w| == 2
  {
    Wire16(Checksum16(data))
  }

  function StepN16(c: bv16, n: nat): bv16
    decreases n
  {
    if n == 0 then c else StepN16(Step16(c), n - 1)
  }

  lemma {:induction false} StepNReg16(c: bv16, n: nat)
    ensures Reg16(StepN16(c, n)) == Divide(G16(), Reg16(c), Zeros(n))
    decreases n
  {
    hide Reg16, Step16, G16;
    if n > 0 {
      StepReg16(c);
      assert Zeros(n)[1..] == Zeros(n - 1);
      assert Reg16(c)[0 := Reg16(c)[0] != false] == Reg16(c);
      StepNReg16(Step16(c), n - 1);
    }
  }

  lemma StepsAreStepN16(c: bv16)
    ensures Steps16(c) == StepN16(c, 8)
  {
    hide Step16;
    var c4 := Step16(Step16(Step16(Step16(c))));
    assert StepN16(c, 8) == StepN16(c4, 4);
  }

  lemma IndexReg16(i: bv8)
    ensures Reg16((i as bv16) << 8) == Pack(16, ByteBits(i))
  {
    assert High((i as bv16) << 8) == i;
    assert Low((i as bv16) << 8) == 0;
    ZeroByte();
    hide BitAt, High, Low;
  }

  /** A table entry is the remainder of its index. */
  lemma TableReg16(i: bv8)
    ensures Reg16(Crc16Tab(i)) == Divide(G16(), Zeros(16), ByteBits(i))
  {
    var x := (i as bv16) << 8;
    Crc16TabIsDivision(i);
    StepsAreStepN16(x);
    IndexReg16(i);
    hide Reg16, Step16, G16, Crc16Tab, Steps16, BitAt;
    StepNReg16(x, 8);
    DividePacked(G16(), Zeros(16), ByteBits(i));
    assert Xor(Zeros(16), Pack(16, ByteBits(i))) == Pack(16, ByteBits(i));
  }

  /** The table-driven loop computes the remainder of bitwise division by the generator. */
  lemma {:induction false} Checksum16IsRemainder(m: Bytes)
    ensures Reg16(Checksum16(m)) == Remainder(G16(), m)
  {
    hide Reg16, G16, Crc16Tab, High, Xor16, Up16, ByteBits, ToBv;
    if m == [] {
      ZeroReg16();
    } else {
      var n, b := |m| - 1, ToBv(m[|m| - 1]);
      var c := Checksum16(m[..n]);
      Checksum16IsRemainder(m[..n]);
      DivideConcat(G16(), Zeros(16), BitsOf(m[..n]), ByteBits(b));
      ToBvIsBin(m[n]);
      TableStep(G16(), Reg16(c), ByteBits(b));
      IndexBits16(c, b);
      TableReg16(High(c) ^ b);
      XorReg16(Crc16Tab(High(c) ^ b), Up16(c));
      UpReg16(c);
    }
  }

  lemma ZeroReg16()
    ensures Reg16(0) == Zeros(16)
  {
    ZeroByte();
  }

  lemma IndexBits16(c: bv16, b: bv8)
    ensures ByteBits(High(c) ^ b) == Xor(Reg16(c)[..8], ByteBits(b))
  {
    hide High, Low, BitAt;
    XorByte(High(c), b);
    assert Reg16(c)[..8] == ByteBits(High(c));
  }

  /** The program's loop over a buffer. */
  method ComputeCrc16(buf: array<Byte>, len: nat) returns (cksum: bv16)
    requires len <= buf.Length
    ensures cksum == Checksum16(buf[..len])
    ensures Reg16(cksum) == Remainder(G16(), buf[..len])
  {
    hide Crc16Tab, Reg16, G16;
    cksum := 0;
    for i := 0 to len
      invariant cksum == Checksum16(buf[..i])
    {
      assert buf[..i + 1][..i] == buf[..i];
      cksum := Xor16(Crc16Tab(High(cksum) ^ ToBv(buf[i])), Up16(cksum));
    }
    Checksum16IsRemainder(buf[..len]);
  }

  lemma WireInjective16(a: bv16, b: bv16)
    ensures Reg16(a) == Reg16(b) <==> a == b
  {
    if Reg16(a) == Reg16(b) {
      assert ByteBits(High(a)) == Reg16(a)[0..8] == ByteBits(High(b));
      ByteBitsInjective(High(a), High(b));
      assert ByteBits(Low(a)) == Reg16(a)[8..16] == ByteBits(Low(b));
      ByteBitsInjective(Low(a), Low(b));
      BytesDecide16(a, b);
    }
  }

  lemma BytesDecide16(a: bv16, b: bv16)
    requires High(a) == High(b)
    requires Low(a) == Low(b)
    ensures a == b
  {
  }

  /** No error burst of at most 16 bits, anywhere in a message and the checksum sent after it, goes undetected. */
  lemma Checksum16Detects(m: Bytes, c: bv16, m': Bytes, c': bv16, i: nat)
    requires c == Checksum16(m) && BurstApart(m + Wire16(c), m' + Wire16(c'), i, 16)
    ensures c' != Checksum16(m')
  {
    Checksum16IsRemainder(m);
    Checksum16IsRemainder(m');
    WireReg16(c);
    WireReg16(c');
    hide Reg16, G16, Checksum16, High, Low;
    BurstRejected(G16(), m, Wire16(c), m', Wire16(c'), i);
    WireInjective16(Checksum16(m'), c');
  }

  /** The checksum of an error pattern is what the error adds to the checksum of any message. */
  lemma Checksum16Linear(a: Bytes, b: Bytes, e: Bytes)
    requires |a| == |b| == |e| && BitsOf(e) == Xor(BitsOf(a), BitsOf(b))
    ensures Checksum16(e) == Xor16(Checksum16(a), Checksum16(b))
  {
    Checksum16IsRemainder(a);
    Checksum16IsRemainder(b);
    Checksum16IsRemainder(e);
    hide Reg16, G16, Checksum16, Xor16, Divide, Shift, BitsOf;
    DivideLinear(G16(), Zeros(16), Zeros(16), BitsOf(a), BitsOf(b));
    assert Xor(Zeros(16), Zeros(16)) == Zeros(16);
    XorReg16(Checksum16(a), Checksum16(b));
    WireInjective16(Checksum16(e), Xor16(Checksum16(a), Checksum16(b)));
  }
}
