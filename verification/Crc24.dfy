/** The 24-bit checksum of the RTCM transport layer. */
module Crc24 {
  import opened Octets
  import opened Division

  /** The generator 0x1864CFB. */
  function G24(): (g: Bits)
    ensures Generator(g) && |g| == 24
  {
    LastBit(Byte0(0x864CFB));
    Reg24(0x864CFB)
  }

  function Byte2(c: bv24): bv8 {
    ((c >> 16) & 0xFF) as bv8
  }

  function Byte1(c: bv24): bv8 {
    ((c >> 8) & 0xFF) as bv8
  }

  function Byte0(c: bv24): bv8 {
    (c & 0xFF) as bv8
  }

  /** The register as bits, most significant first. */
  function Reg24(c: bv24): (r: Bits)
    ensures |r| == 24
  {
    ByteBits(Byte2(c)) + ByteBits(Byte1(c)) + ByteBits(Byte0(c))
  }

  /** The checksum as it is sent, high byte first. */
  function Wire24(c: bv24): Bytes {
    [FromBv(Byte2(c)), FromBv(Byte1(c)), FromBv(Byte0(c))]
  }

  function Xor24(a: bv24, b: bv24): bv24 {
    a ^ b
  }

  function Twice24(c: bv24): bv24 {
    c << 1
  }

  function Up24(c: bv24): bv24 {
    c << 8
  }

  function Carry24(c: bv24): bv24 {
    if c & 0x800000 != 0 then 0x864CFB else 0
  }

  /** One step of bitwise division on the register. */
  function Step24(c: bv24): bv24 {
    Xor24(Twice24(c), Carry24(c))
  }

  function Steps24(c: bv24): bv24 {
    Step24(Step24(Step24(Step24(Step24(Step24(Step24(Step24(c))))))))
  }

  function Row(t0: bv24, t1: bv24, t2: bv24, t3: bv24, t4: bv24, t5: bv24, t6: bv24, t7: bv24,
                t8: bv24, t9: bv24, t10: bv24, t11: bv24, t12: bv24, t13: bv24, t14: bv24, t15: bv24, k: bv8): bv24 {
    match k
    case 0 => t0
    case 1 => t1
    case 2 => t2
    case 3 => t3
    case 4 => t4
    case 5 => t5
    case 6 => t6
    case 7 => t7
    case 8 => t8
    case 9 => t9
    case 10 => t10
    case 11 => t11
    case 12 => t12
    case 13 => t13
    case 14 => t14
    case _ => t15
  }

  /** tbl_CRC24Q */
  function TblCrc24q(i: bv8): bv24 {
    match i >> 4
    case 0x0 => Row(0x000000, 0x864CFB, 0x8AD50D, 0x0C99F6, 0x93E6E1, 0x15AA1A, 0x1933EC, 0x9F7F17, 0xA18139, 0x27CDC2, 0x2B5434, 0xAD18CF, 0x3267D8, 0xB42B23, 0xB8B2D5, 0x3EFE2E, i & 0xF)
    case 0x1 => Row(0xC54E89, 0x430272, 0x4F9B84, 0xC9D77F, 0x56A868, 0xD0E493, 0xDC7D65, 0x5A319E, 0x64CFB0, 0xE2834B, 0xEE1ABD, 0x685646, 0xF72951, 0x7165AA, 0x7DFC5C, 0xFBB0A7, i & 0xF)
    case 0x2 => Row(0x0CD1E9, 0x8A9D12, 0x8604E4, 0x00481F, 0x9F3708, 0x197BF3, 0x15E205, 0x93AEFE, 0xAD50D0, 0x2B1C2B, 0x2785DD, 0xA1C926, 0x3EB631, 0xB8FACA, 0xB4633C, 0x322FC7, i & 0xF)
    case 0x3 => Row(0xC99F60, 0x4FD39B, 0x434A6D, 0xC50696, 0x5A7981, 0xDC357A, 0xD0AC8C, 0x56E077, 0x681E59, 0xEE52A2, 0xE2CB54, 0x6487AF, 0xFBF8B8, 0x7DB443, 0x712DB5, 0xF7614E, i & 0xF)
    case 0x4 => Row(0x19A3D2, 0x9FEF29, 0x9376DF, 0x153A24, 0x8A4533, 0x0C09C8, 0x00903E, 0x86DCC5, 0xB822EB, 0x3E6E10, 0x32F7E6, 0xB4BB1D, 0x2BC40A, 0xAD88F1, 0xA11107, 0x275DFC, i & 0xF)
    case 0x5 => Row(0xDCED5B, 0x5AA1A0, 0x563856, 0xD074AD, 0x4F0BBA, 0xC94741, 0xC5DEB7, 0x43924C, 0x7D6C62, 0xFB2099, 0xF7B96F, 0x71F594, 0xEE8A83, 0x68C678, 0x645F8E, 0xE21375, i & 0xF)
    case 0x6 => Row(0x15723B, 0x933EC0, 0x9FA736, 0x19EBCD, 0x8694DA, 0x00D821, 0x0C41D7, 0x8A0D2C, 0xB4F302, 0x32BFF9, 0x3E260F, 0xB86AF4, 0x2715E3, 0xA15918, 0xADC0EE, 0x2B8C15, i & 0xF)
    case 0x7 => Row(0xD03CB2, 0x567049, 0x5AE9BF, 0xDCA544, 0x43DA53, 0xC596A8, 0xC90F5E, 0x4F43A5, 0x71BD8B, 0xF7F170, 0xFB6886, 0x7D247D, 0xE25B6A, 0x641791, 0x688E67, 0xEEC29C, i & 0xF)
    case 0x8 => Row(0x3347A4, 0xB50B5F, 0xB992A9, 0x3FDE52, 0xA0A145, 0x26EDBE, 0x2A7448, 0xAC38B3, 0x92C69D, 0x148A66, 0x181390, 0x9E5F6B, 0x01207C, 0x876C87, 0x8BF571, 0x0DB98A, i & 0xF)
    case 0x9 => Row(0xF6092D, 0x7045D6, 0x7CDC20, 0xFA90DB, 0x65EFCC, 0xE3A337, 0xEF3AC1, 0x69763A, 0x578814, 0xD1C4EF, 0xDD5D19, 0x5B11E2, 0xC46EF5, 0x42220E, 0x4EBBF8, 0xC8F703, i & 0xF)
    case 0xA => Row(0x3F964D, 0xB9DAB6, 0xB54340, 0x330FBB, 0xAC70AC, 0x2A3C57, 0x26A5A1, 0xA0E95A, 0x9E1774, 0x185B8F, 0x14C279, 0x928E82, 0x0DF195, 0x8BBD6E, 0x872498, 0x016863, i & 0xF)
    case 0xB => Row(0xFAD8C4, 0x7C943F, 0x700DC9, 0xF64132, 0x693E25, 0xEF72DE, 0xE3EB28, 0x65A7D3, 0x5B59FD, 0xDD1506, 0xD18CF0, 0x57C00B, 0xC8BF1C, 0x4EF3E7, 0x426A11, 0xC426EA, i & 0xF)
    case 0xC => Row(0x2AE476, 0xACA88D, 0xA0317B, 0x267D80, 0xB90297, 0x3F4E6C, 0x33D79A, 0xB59B61, 0x8B654F, 0x0D29B4, 0x01B042, 0x87FCB9, 0x1883AE, 0x9ECF55, 0x9256A3, 0x141A58, i & 0xF)
    case 0xD => Row(0xEFAAFF, 0x69E604, 0x657FF2, 0xE33309, 0x7C4C1E, 0xFA00E5, 0xF69913, 0x70D5E8, 0x4E2BC6, 0xC8673D, 0xC4FECB, 0x42B230, 0xDDCD27, 0x5B81DC, 0x57182A, 0xD154D1, i & 0xF)
    case 0xE => Row(0x26359F, 0xA07964, 0xACE092, 0x2AAC69, 0xB5D37E, 0x339F85, 0x3F0673, 0xB94A88, 0x87B4A6, 0x01F85D, 0x0D61AB, 0x8B2D50, 0x145247, 0x921EBC, 0x9E874A, 0x18CBB1, i & 0xF)
    case _ => Row(0xE37B16, 0x6537ED, 0x69AE1B, 0xEFE2E0, 0x709DF7, 0xF6D10C, 0xFA48FA, 0x7C0401, 0x42FA2F, 0xC4B6D4, 0xC82F22, 0x4E63D9, 0xD11CCE, 0x575035, 0x5BC9C3, 0xDD8538, i & 0xF)
  }

  lemma TblCrc24q0(i: bv8)
    requires i >> 5 == 0
    ensures TblCrc24q(i) == Steps24((i as bv24) << 16)
  {
    if i >> 4 == 0 {
    }
  }

  lemma TblCrc24q1(i: bv8)
    requires i >> 5 == 1
    ensures TblCrc24q(i) == Steps24((i as bv24) << 16)
  {
    if i >> 4 == 2 {
    }
  }

  lemma TblCrc24q2(i: bv8)
    requires i >> 5 == 2
    ensures TblCrc24q(i) == Steps24((i as bv24) << 16)
  {
    if i >> 4 == 4 {
    }
  }

  lemma TblCrc24q3(i: bv8)
    requires i >> 5 == 3
    ensures TblCrc24q(i) == Steps24((i as bv24) << 16)
  {
    if i >> 4 == 6 {
    }
  }

  lemma TblCrc24q4(i: bv8)
    requires i >> 5 == 4
    ensures TblCrc24q(i) == Steps24((i as bv24) << 16)
  {
    if i >> 4 == 8 {
    }
  }

  lemma TblCrc24q5(i: bv8)
    requires i >> 5 == 5
    ensures TblCrc24q(i) == Steps24((i as bv24) << 16)
  {
    if i >> 4 == 10 {
    }
  }

  lemma TblCrc24q6(i: bv8)
    requires i >> 5 == 6
    ensures TblCrc24q(i) == Steps24((i as bv24) << 16)
  {
    if i >> 4 == 12 {
    }
  }

  lemma TblCrc24q7(i: bv8)
    requires i >> 5 == 7
    ensures TblCrc24q(i) == Steps24((i as bv24) << 16)
  {
    if i >> 4 == 14 {
    }
  }

  /** Every table entry is eight steps of bitwise division. */
  lemma TblCrc24qIsDivision(i: bv8)
    ensures TblCrc24q(i) == Steps24((i as bv24) << 16)
  {
    if i >> 5 == 0 {
      TblCrc24q0(i);
    } else if i >> 5 == 1 {
      TblCrc24q1(i);
    } else if i >> 5 == 2 {
      TblCrc24q2(i);
    } else if i >> 5 == 3 {
      TblCrc24q3(i);
    } else if i >> 5 == 4 {
      TblCrc24q4(i);
    } else if i >> 5 == 5 {
      TblCrc24q5(i);
    } else if i >> 5 == 6 {
      TblCrc24q6(i);
    } else {
      TblCrc24q7(i);
    }
  }

  lemma XorOfByte2(a: bv24, b: bv24)
    ensures Byte2(Xor24(a, b)) == Byte2(a) ^ Byte2(b)
  {
  }

  lemma XorByte2(a: bv24, b: bv24)
    ensures ByteBits(Byte2(Xor24(a, b))) == Xor(ByteBits(Byte2(a)), ByteBits(Byte2(b)))
  {
    hide Byte2, Xor24, BitAt, ByteBits, Xor;
    XorOfByte2(a, b);
    XorByte(Byte2(a), Byte2(b));
  }

  lemma XorOfByte1(a: bv24, b: bv24)
    ensures Byte1(Xor24(a, b)) == Byte1(a) ^ Byte1(b)
  {
  }

  lemma XorByte1(a: bv24, b: bv24)
    ensures ByteBits(Byte1(Xor24(a, b))) == Xor(ByteBits(Byte1(a)), ByteBits(Byte1(b)))
  {
    hide Byte1, Xor24, BitAt, ByteBits, Xor;
    XorOfByte1(a, b);
    XorByte(Byte1(a), Byte1(b));
  }

  lemma XorOfByte0(a: bv24, b: bv24)
    ensures Byte0(Xor24(a, b)) == Byte0(a) ^ Byte0(b)
  {
  }

  lemma XorByte0(a: bv24, b: bv24)
    ensures ByteBits(Byte0(Xor24(a, b))) == Xor(ByteBits(Byte0(a)), ByteBits(Byte0(b)))
  {
    hide Byte0, Xor24, BitAt, ByteBits, Xor;
    XorOfByte0(a, b);
    XorByte(Byte0(a), Byte0(b));
  }

  lemma TwiceByte2(c: bv24)
    ensures ByteBits(Byte2(Twice24(c))) == ByteBits(Byte2(c))[1..] + [ByteBits(Byte1(c))[0]]
  {
    CarryByte(Byte2(c), Byte1(c) & 0x80 != 0);
    assert Byte2(Twice24(c)) == (Byte2(c) << 1) ^ (if Byte1(c) & 0x80 != 0 then 1 else 0);
    FirstBit(Byte1(c));
  }

  lemma TwiceByte1(c: bv24)
    ensures ByteBits(Byte1(Twice24(c))) == ByteBits(Byte1(c))[1..] + [ByteBits(Byte0(c))[0]]
  {
    CarryByte(Byte1(c), Byte0(c) & 0x80 != 0);
    assert Byte1(Twice24(c)) == (Byte1(c) << 1) ^ (if Byte0(c) & 0x80 != 0 then 1 else 0);
    FirstBit(Byte0(c));
  }

  lemma TwiceByte0(c: bv24)
    ensures ByteBits(Byte0(Twice24(c))) == ByteBits(Byte0(c))[1..] + [false]
  {
    CarryByte(Byte0(c), false);
    assert Byte0(Twice24(c)) == (Byte0(c) << 1) ^ (if false then 1 else 0);
  }

  lemma UpByte2(c: bv24)
    ensures ByteBits(Byte2(Up24(c))) == ByteBits(Byte1(c))
  {
    assert Byte2(Up24(c)) == Byte1(c);
  }

  lemma UpByte1(c: bv24)
    ensures ByteBits(Byte1(Up24(c))) == ByteBits(Byte0(c))
  {
    assert Byte1(Up24(c)) == Byte0(c);
  }

  lemma UpByte0(c: bv24)
    ensures ByteBits(Byte0(Up24(c))) == Zeros(8)
  {
    assert Byte0(Up24(c)) == 0;
    ZeroByte();
  }

  lemma XorReg24(a: bv24, b: bv24)
    ensures Reg24(Xor24(a, b)) == Xor(Reg24(a), Reg24(b))
  {
    hide BitAt, ByteBits, Xor, Xor24, Twice24, Up24, Byte2, Byte1, Byte0;
    XorByte2(a, b);
    XorByte1(a, b);
    XorByte0(a, b);
    XorConcat(ByteBits(Byte2(a)), ByteBits(Byte1(a)), ByteBits(Byte2(b)), ByteBits(Byte1(b)));
    XorConcat(ByteBits(Byte2(a)) + ByteBits(Byte1(a)), ByteBits(Byte0(a)), ByteBits(Byte2(b)) + ByteBits(Byte1(b)), ByteBits(Byte0(b)));
  }

  lemma UpReg24(c: bv24)
    ensures Reg24(Up24(c)) == Reg24(c)[8..] + Zeros(8)
  {
    hide BitAt, ByteBits, Twice24, Up24, Byte2, Byte1, Byte0;
    UpByte2(c);
    UpByte1(c);
    UpByte0(c);
  }

  lemma TwiceReg24(c: bv24)
    ensures Reg24(Twice24(c)) == Reg24(c)[1..] + [false]
  {
    hide BitAt, ByteBits, Twice24, Up24, Byte2, Byte1, Byte0;
    TwiceByte2(c);
    TwiceByte1(c);
    TwiceByte0(c);
  }

  lemma CarryReg24(c: bv24)
    ensures Reg24(Carry24(c)) == if Reg24(c)[0] then G24() else Zeros(24)
  {
    FirstBit(Byte2(c));
    assert c & 0x800000 != 0 <==> Byte2(c) & 0x80 != 0;
    ZeroByte();
  }

  lemma StepReg24(c: bv24)
    ensures Reg24(Step24(c)) == Shift(G24(), Reg24(c))
  {
    StepIsXor24(c);
    hide BitAt, ByteBits, Xor, Shift, Reg24, G24, Step24, Xor24, Twice24, Carry24;
    XorReg24(Twice24(c), Carry24(c));
    TwiceReg24(c);
    CarryReg24(c);
    ShiftIsXor(G24(), Reg24(c));
  }

  lemma StepIsXor24(c: bv24)
    ensures Step24(c) == Xor24(Twice24(c), Carry24(c))
  {
  }

  lemma WireReg24(c: bv24)
    ensures BitsOf(Wire24(c)) == Reg24(c)
  {
    hide BitAt, ByteBits, FromBv, Byte2, Byte1, Byte0;
    assert Wire24(c) == [FromBv(Byte2(c))] + [FromBv(Byte1(c))] + [FromBv(Byte0(c))];
    BitsOfByte(FromBv(Byte2(c)));
    FromBvIsBin(Byte2(c));
    BitsOfByte(FromBv(Byte1(c)));
    FromBvIsBin(Byte1(c));
    BitsOfByte(FromBv(Byte0(c)));
    FromBvIsBin(Byte0(c));
    BitsOfConcat([FromBv(Byte2(c))], [FromBv(Byte1(c))]);
    BitsOfConcat([FromBv(Byte2(c))] + [FromBv(Byte1(c))], [FromBv(Byte0(c))]);
  }

  // ----- the checksum of a byte string

  /** The checksum computed a byte at a time from the table. */
  function Checksum24(m: Bytes): bv24 {
    if m == [] then 0
    else
      var c := Checksum24(m[..|m| - 1]);
      Xor24(TblCrc24q(Byte2(c) ^ ToBv(m[|m| - 1])), Up24(c))
  }

  function StepN24(c: bv24, n: nat): bv24
    decreases n
  {
    if n == 0 then c else StepN24(Step24(c), n - 1)
  }

  lemma {:induction false} StepNReg24(c: bv24, n: nat)
    ensures Reg24(StepN24(c, n)) == Divide(G24(), Reg24(c), Zeros(n))
    decreases n
  {
    hide Reg24, Step24, G24;
    if n > 0 {
      StepReg24(c);
      assert Zeros(n)[1..] == Zeros(n - 1);
      assert Reg24(c)[0 := Reg24(c)[0] != false] == Reg24(c);
      StepNReg24(Step24(c), n - 1);
    }
  }

  lemma StepsAreStepN24(c: bv24)
    ensures Steps24(c) == StepN24(c, 8)
  {
    hide Step24;
    var c4 := Step24(Step24(Step24(Step24(c))));
    assert StepN24(c, 8) == StepN24(c4, 4);
  }

  lemma IndexReg24(i: bv8)
    ensures Reg24((i as bv24) << 16) == Pack(24, ByteBits(i))
  {
    assert Byte2((i as bv24) << 16) == i;
    assert Byte1((i as bv24) << 16) == 0;
    assert Byte0((i as bv24) << 16) == 0;
    ZeroByte();
    hide BitAt, Byte2, Byte1, Byte0;
  }

  /** A table entry is the remainder of its index. */
  lemma TableReg24(i: bv8)
    ensures Reg24(TblCrc24q(i)) == Divide(G24(), Zeros(24), ByteBits(i))
  {
    var x := (i as bv24) << 16;
    TblCrc24qIsDivision(i);
    StepsAreStepN24(x);
    IndexReg24(i);
    hide Reg24, Step24, G24, TblCrc24q, Steps24, BitAt;
    StepNReg24(x, 8);
    DividePacked(G24(), Zeros(24), ByteBits(i));
    assert Xor(Zeros(24), Pack(24, ByteBits(i))) == Pack(24, ByteBits(i));
  }

  /** The table-driven loop computes the remainder of bitwise division by the generator. */
  lemma {:induction false} Checksum24IsRemainder(m: Bytes)
    ensures Reg24(Checksum24(m)) == Remainder(G24(), m)
  {
    hide Reg24, G24, TblCrc24q, Byte2, Xor24, Up24, ByteBits, ToBv;
    if m == [] {
      ZeroReg24();
    } else {
      var n, b := |m| - 1, ToBv(m[|m| - 1]);
      var c := Checksum24(m[..n]);
      Checksum24IsRemainder(m[..n]);
      DivideConcat(G24(), Zeros(24), BitsOf(m[..n]), ByteBits(b));
      ToBvIsBin(m[n]);
      TableStep(G24(), Reg24(c), ByteBits(b));
      IndexBits24(c, b);
      TableReg24(Byte2(c) ^ b);
      XorReg24(TblCrc24q(Byte2(c) ^ b), Up24(c));
      UpReg24(c);
    }
  }

  lemma ZeroReg24()
    ensures Reg24(0) == Zeros(24)
  {
    ZeroByte();
  }

  lemma IndexBits24(c: bv24, b: bv8)
    ensures ByteBits(Byte2(c) ^ b) == Xor(Reg24(c)[..8], ByteBits(b))
  {
    hide Byte2, Byte1, Byte0, BitAt;
    XorByte(Byte2(c), b);
    assert Reg24(c)[..8] == ByteBits(Byte2(c));
  }

  /** The program's loop over a buffer. */
  method Crc24q(buf: array<Byte>, len: nat) returns (cksum: bv24)
    requires len <= buf.Length
    ensures cksum == Checksum24(buf[..len])
    ensures Reg24(cksum) == Remainder(G24(), buf[..len])
  {
    hide TblCrc24q, Reg24, G24;
    cksum := 0;
    for i := 0 to len
      invariant cksum == Checksum24(buf[..i])
    {
      assert buf[..i + 1][..i] == buf[..i];
      cksum := Xor24(TblCrc24q(Byte2(cksum) ^ ToBv(buf[i])), Up24(cksum));
    }
    Checksum24IsRemainder(buf[..len]);
  }

  lemma WireInjective24(a: bv24, b: bv24)
    ensures Reg24(a) == Reg24(b) <==> a == b
  {
    if Reg24(a) == Reg24(b) {
      assert ByteBits(Byte2(a)) == Reg24(a)[0..8] == ByteBits(Byte2(b));
      ByteBitsInjective(Byte2(a), Byte2(b));
      assert ByteBits(Byte1(a)) == Reg24(a)[8..16] == ByteBits(Byte1(b));
      ByteBitsInjective(Byte1(a), Byte1(b));
      assert ByteBits(Byte0(a)) == Reg24(a)[16..24] == ByteBits(Byte0(b));
      ByteBitsInjective(Byte0(a), Byte0(b));
      BytesDecide24(a, b);
    }
  }

  lemma BytesDecide24(a: bv24, b: bv24)
    requires Byte2(a) == Byte2(b)
    requires Byte1(a) == Byte1(b)
    requires Byte0(a) == Byte0(b)
    ensures a == b
  {
  }

  /** No error burst of at most 24 bits, anywhere in a message and the checksum sent after it, goes undetected. */
  lemma Checksum24Detects(m: Bytes, c: bv24, m': Bytes, c': bv24, i: nat)
    requires c == Checksum24(m) && BurstApart(m + Wire24(c), m' + Wire24(c'), i, 24)
    ensures c' != Checksum24(m')
  {
    Checksum24IsRemainder(m);
    Checksum24IsRemainder(m');
    WireReg24(c);
    WireReg24(c');
    hide Reg24, G24, Checksum24, Byte2, Byte1, Byte0;
    BurstRejected(G24(), m, Wire24(c), m', Wire24(c'), i);
    WireInjective24(Checksum24(m'), c');
  }

  /** The checksum of an error pattern is what the error adds to the checksum of any message. */
  lemma Checksum24Linear(a: Bytes, b: Bytes, e: Bytes)
    requires |a| == |b| == |e| && BitsOf(e) == Xor(BitsOf(a), BitsOf(b))
    ensures Checksum24(e) == Xor24(Checksum24(a), Checksum24(b))
  {
    Checksum24IsRemainder(a);
    Checksum24IsRemainder(b);
    Checksum24IsRemainder(e);
    hide Reg24, G24, Checksum24, Xor24, Divide, Shift, BitsOf;
    DivideLinear(G24(), Zeros(24), Zeros(24), BitsOf(a), BitsOf(b));
    assert Xor(Zeros(24), Zeros(24)) == Zeros(24);
    XorReg24(Checksum24(a), Checksum24(b));
    WireInjective24(Checksum24(e), Xor24(Checksum24(a), Checksum24(b)));
  }
}
