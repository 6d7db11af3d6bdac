/** RTCM message 1019: a GPS satellite's ephemeris. */
module Ephemeris {
  import opened Octets
  import opened BitField
  import opened RtcmFrame
  import opened Rounding

  // Scale factors, as the program writes them.
  const P2_5: real := 0.03125
  const P2_19: real := 0.0000019073486328125
  const P2_29: real := 0.000000001862645149230957
  const P2_31: real := 0.0000000004656612873077393
  const P2_33: real := 0.0000000001164153218269348
  const P2_43: real := 0.0000000000001136868377216160
  const P2_55: real := 0.00000000000000002775557561562891
  const SC2RAD: real := 3.1415926535898

  /** They are powers of two, to twelve digits. */
  lemma ScalesArePowers()
    ensures 32.0 * P2_5 == 1.0 && 524288.0 * P2_19 == 1.0
    ensures 1.0 - TWELVE <= 536870912.0 * P2_29 <= 1.0 + TWELVE && 1.0 - TWELVE <= 2147483648.0 * P2_31 <= 1.0 + TWELVE
    ensures 1.0 - TWELVE <= 8589934592.0 * P2_33 <= 1.0 + TWELVE && 1.0 - TWELVE <= 8796093022208.0 * P2_43 <= 1.0 + TWELVE
    ensures 1.0 - TWELVE <= 36028797018963968.0 * P2_55 <= 1.0 + TWELVE
    ensures 3.14159265358975 < SC2RAD < 3.14159265358985
  {
  }

  const TWELVE: real := 0.000000000001

  datatype Eph = Eph(
    prn: int, toe_wn: int, sva: int, code: int, inc_dot: real, iode: int, toc_tow: real, af2: real,
    af1: real, af0: real, iodc: int, c_rs: real, dn: real, m0: real, c_uc: real,
    ecc: real, c_us: real, sqrta: real, toe_tow: real, c_ic: real, omega0: real, c_is: real,
    inc: real, c_rc: real, w: real, omegadot: real, tgd: real, svh: int, flag: int, fit: real)

  /** The integer sent for x in steps of a, and in steps of a * SC2RAD. */
  function Steps(x: real, a: real): int
    requires a > 0.0
  {
    Round(x / a)
  }

  function Angle(x: real, a: real): int
    requires a > 0.0
  {
    Round(x / a / SC2RAD)
  }

  // ----- the fields, in the order they are sent

  function Clock(e: Eph): Message {
    [Item(U(6), e.prn), Item(U(10), e.toe_wn % 1024), Item(U(4), e.sva), Item(U(2), e.code),
     Item(S(14), Angle(e.inc_dot, P2_43)), Item(U(8), e.iode), Item(U(16), Steps(e.toc_tow, 16.0)), Item(S(8), Steps(e.af2, P2_55))]
  }

  function Orbit(e: Eph): Message {
    [Item(S(16), Steps(e.af1, P2_43)), Item(S(22), Steps(e.af0, P2_31)), Item(U(10), e.iodc), Item(S(16), Steps(e.c_rs, P2_5)),
     Item(S(16), Angle(e.dn, P2_43)), Item(S(32), Angle(e.m0, P2_31)), Item(S(16), Steps(e.c_uc, P2_29))]
  }

  function Shape(e: Eph): Message {
    [Item(U(32), Steps(e.ecc, P2_33)), Item(S(16), Steps(e.c_us, P2_29)), Item(U(32), Steps(e.sqrta, P2_19)),
     Item(U(16), Steps(e.toe_tow, 16.0)), Item(S(16), Steps(e.c_ic, P2_29)), Item(S(32), Angle(e.omega0, P2_31)),
     Item(S(16), Steps(e.c_is, P2_29))]
  }

  function Plane(e: Eph): Message {
    [Item(S(32), Angle(e.inc, P2_31)), Item(S(16), Steps(e.c_rc, P2_5)), Item(S(32), Angle(e.w, P2_31)),
     Item(S(24), Angle(e.omegadot, P2_43)), Item(S(8), Steps(e.tgd, P2_31)), Item(U(6), e.svh), Item(U(1), e.flag),
     Item(U(1), if e.fit > 0.0 then 0 else 1)]
  }

  function Fields(e: Eph): Message {
    Clock(e) + Orbit(e) + Shape(e) + Plane(e)
  }

  function Body(e: Eph): Message {
    [Item(U(12), 1019)] + Fields(e)
  }

  /** The rounded values of signed fields fit the program's int. */
  predicate Castable(items: Message) {
    forall k | 0 <= k < |items| :: items[k].kind.S? ==> Fits(items[k].value, 32)
  }

  predicate Representable(e: Eph) {
    Castable(Clock(e)) && Castable(Orbit(e)) && Castable(Shape(e)) && Castable(Plane(e))
  }

  // ----- encoding

  method PutClock(e: Eph, buffer: array<Byte>, i0: nat, ghost items: Message) returns (i: nat)
    requires i0 + 68 <= 8 * buffer.Length && Written(BitsOf(buffer[..]), items, |items|, i0) && Castable(Clock(e))
    modifies buffer
    ensures i == i0 + 68 && Written(BitsOf(buffer[..]), items + Clock(e), |items + Clock(e)|, i)
  {
    hide BitsOf, Pack, Written, Fits, Angle, Steps;
    ghost var f, m, n := Clock(e), items + Clock(e), |items|;
    ClockWidth(e);
    WrittenBefore(BitsOf(buffer[..]), items, f, i0);
    var idot := Angle(e.inc_dot, P2_43);
    var toc := Steps(e.toc_tow, 16.0);
    var af2 := Steps(e.af2, P2_55);
    i := i0;
    i := PutU(buffer, i, 6, e.prn, m, n + 0);
    i := PutU(buffer, i, 10, e.toe_wn % 1024, m, n + 1);
    i := PutU(buffer, i, 4, e.sva, m, n + 2);
    i := PutU(buffer, i, 2, e.code, m, n + 3);
    i := PutS(buffer, i, 14, idot, m, n + 4);
    i := PutU(buffer, i, 8, e.iode, m, n + 5);
    i := PutU(buffer, i, 16, toc, m, n + 6);
    i := PutS(buffer, i, 8, af2, m, n + 7);
  }

  method PutOrbit(e: Eph, buffer: array<Byte>, i0: nat, ghost items: Message) returns (i: nat)
    requires i0 + 128 <= 8 * buffer.Length && Written(BitsOf(buffer[..]), items, |items|, i0) && Castable(Orbit(e))
    modifies buffer
    ensures i == i0 + 128 && Written(BitsOf(buffer[..]), items + Orbit(e), |items + Orbit(e)|, i)
  {
    hide BitsOf, Pack, Written, Fits, Angle, Steps;
    ghost var f, m, n := Orbit(e), items + Orbit(e), |items|;
    OrbitWidth(e);
    WrittenBefore(BitsOf(buffer[..]), items, f, i0);
    var af1 := Steps(e.af1, P2_43);
    var af0 := Steps(e.af0, P2_31);
    var crs := Steps(e.c_rs, P2_5);
    var deln := Angle(e.dn, P2_43);
    var m0 := Angle(e.m0, P2_31);
    var cuc := Steps(e.c_uc, P2_29);
    i := i0;
    i := PutS(buffer, i, 16, af1, m, n + 0);
    i := PutS(buffer, i, 22, af0, m, n + 1);
    i := PutU(buffer, i, 10, e.iodc, m, n + 2);
    i := PutS(buffer, i, 16, crs, m, n + 3);
    i := PutS(buffer, i, 16, deln, m, n + 4);
    i := PutS(buffer, i, 32, m0, m, n + 5);
    i := PutS(buffer, i, 16, cuc, m, n + 6);
  }

  method PutShape(e: Eph, buffer: array<Byte>, i0: nat, ghost items: Message) returns (i: nat)
    requires i0 + 160 <= 8 * buffer.Length && Written(BitsOf(buffer[..]), items, |items|, i0) && Castable(Shape(e))
    modifies buffer
    ensures i == i0 + 160 && Written(BitsOf(buffer[..]), items + Shape(e), |items + Shape(e)|, i)
  {
    hide BitsOf, Pack, Written, Fits, Angle, Steps;
    ghost var f, m, n := Shape(e), items + Shape(e), |items|;
    ShapeWidth(e);
    WrittenBefore(BitsOf(buffer[..]), items, f, i0);
    var ecc := Steps(e.ecc, P2_33);
    var cus := Steps(e.c_us, P2_29);
    var sqrtA := Steps(e.sqrta, P2_19);
    var toe := Steps(e.toe_tow, 16.0);
    var cic := Steps(e.c_ic, P2_29);
    var omg0 := Angle(e.omega0, P2_31);
    var cis := Steps(e.c_is, P2_29);
    i := i0;
    i := PutU(buffer, i, 32, ecc, m, n + 0);
    i := PutS(buffer, i, 16, cus, m, n + 1);
    i := PutU(buffer, i, 32, sqrtA, m, n + 2);
    i := PutU(buffer, i, 16, toe, m, n + 3);
    i := PutS(buffer, i, 16, cic, m, n + 4);
    i := PutS(buffer, i, 32, omg0, m, n + 5);
    i := PutS(buffer, i, 16, cis, m, n + 6);
  }

  method PutPlane(e: Eph, buffer: array<Byte>, i0: nat, ghost items: Message) returns (i: nat)
    requires i0 + 120 <= 8 * buffer.Length && Written(BitsOf(buffer[..]), items, |items|, i0) && Castable(Plane(e))
    modifies buffer
    ensures i == i0 + 120 && Written(BitsOf(buffer[..]), items + Plane(e), |items + Plane(e)|, i)
  {
    hide BitsOf, Pack, Written, Fits, Angle, Steps;
    ghost var f, m, n := Plane(e), items + Plane(e), |items|;
    PlaneWidth(e);
    WrittenBefore(BitsOf(buffer[..]), items, f, i0);
    var inc := Angle(e.inc, P2_31);
    var crc := Steps(e.c_rc, P2_5);
    var omg := Angle(e.w, P2_31);
    var omgd := Angle(e.omegadot, P2_43);
    var tgd := Steps(e.tgd, P2_31);
    i := i0;
    i := PutS(buffer, i, 32, inc, m, n + 0);
    i := PutS(buffer, i, 16, crc, m, n + 1);
    i := PutS(buffer, i, 32, omg, m, n + 2);
    i := PutS(buffer, i, 24, omgd, m, n + 3);
    i := PutS(buffer, i, 8, tgd, m, n + 4);
    i := PutU(buffer, i, 6, e.svh, m, n + 5);
    i := PutU(buffer, i, 1, e.flag, m, n + 6);
    i := PutU(buffer, i, 1, if e.fit > 0.0 then 0 else 1, m, n + 7);
  }

  /** rtcm3_encode_1019. */
  method Encode1019(e: Eph, buffer: array<Byte>) returns (total: nat)
    requires buffer.Length >= 67 && Representable(e)
    modifies buffer
    ensures total == 67 && Encodes(buffer[..total], Body(e))
  {
    hide BitsOf, Pack, Written, Clock, Orbit, Shape, Plane, Castable, Encodes, Head, ItemBits;
    var i := PutHead(buffer);
    ghost var head, kind := Head(0), [Item(U(12), 1019)];
    BodyWidth(e);
    PackOne(kind[0]);
    WrittenBefore(BitsOf(buffer[..]), head, kind, i);
    ghost var m := head + kind;
    i := PutU(buffer, i, 12, 1019, m, |head|);
    i := PutClock(e, buffer, i, m);
    m := m + Clock(e);
    i := PutOrbit(e, buffer, i, m);
    m := m + Orbit(e);
    i := PutShape(e, buffer, i, m);
    m := m + Shape(e);
    i := PutPlane(e, buffer, i, m);
    m := m + Plane(e);
    assert m == head + Body(e);
    total := EncodeEnd(buffer, i, Body(e));
    EncodedLength(buffer[..total], Body(e));
  }

  lemma ClockWidth(e: Eph)
    ensures |Pack(Clock(e))| == 68
  {
    hide Width, Pack, Clock;
    ClockKinds(e);
    PackWidth(Clock(e));
  }

  lemma ClockKinds(e: Eph)
    ensures Kinds(Clock(e)) == [U(6), U(10), U(4), U(2)] + [S(14), U(8), U(16), S(8)] && Width(Kinds(Clock(e))) == 68
  {
    hide Angle, Steps, Width;
    Width4(U(6), U(10), U(4), U(2));
    Width4(S(14), U(8), U(16), S(8));
    WidthConcat([U(6), U(10), U(4), U(2)], [S(14), U(8), U(16), S(8)]);
  }

  lemma OrbitWidth(e: Eph)
    ensures |Pack(Orbit(e))| == 128
  {
    hide Width, Pack, Orbit;
    OrbitKinds(e);
    PackWidth(Orbit(e));
  }

  lemma OrbitKinds(e: Eph)
    ensures Kinds(Orbit(e)) == [S(16), S(22), U(10), S(16)] + [S(16), S(32), S(16)] && Width(Kinds(Orbit(e))) == 128
  {
    hide Angle, Steps, Width;
    Width4(S(16), S(22), U(10), S(16));
    Width4(S(16), S(32), S(16), U(1));
    WidthConcat([S(16), S(22), U(10), S(16)], [S(16), S(32), S(16)]);
  }

  lemma ShapeWidth(e: Eph)
    ensures |Pack(Shape(e))| == 160
  {
    hide Width, Pack, Shape;
    ShapeKinds(e);
    PackWidth(Shape(e));
  }

  lemma ShapeKinds(e: Eph)
    ensures Kinds(Shape(e)) == [U(32), S(16), U(32), U(16)] + [S(16), S(32), S(16)] && Width(Kinds(Shape(e))) == 160
  {
    hide Angle, Steps, Width;
    Width4(U(32), S(16), U(32), U(16));
    Width4(S(16), S(32), S(16), U(1));
    WidthConcat([U(32), S(16), U(32), U(16)], [S(16), S(32), S(16)]);
  }

  lemma PlaneWidth(e: Eph)
    ensures |Pack(Plane(e))| == 120
  {
    hide Width, Pack, Plane;
    PlaneKinds(e);
    PackWidth(Plane(e));
  }

  lemma PlaneKinds(e: Eph)
    ensures Kinds(Plane(e)) == [S(32), S(16), S(32), S(24)] + [S(8), U(6), U(1), U(1)] && Width(Kinds(Plane(e))) == 120
  {
    hide Angle, Steps, Width;
    Width4(S(32), S(16), S(32), S(24));
    Width4(S(8), U(6), U(1), U(1));
    WidthConcat([S(32), S(16), S(32), S(24)], [S(8), U(6), U(1), U(1)]);
  }

  lemma KindsConcat(a: Message, b: Message)
    ensures Kinds(a + b) == Kinds(a) + Kinds(b) && Values(a + b) == Values(a) + Values(b)
  {
  }

  lemma BodyWidth(e: Eph)
    ensures |Pack(Body(e))| == 488 && |Pack(Fields(e))| == Width(Kinds(Fields(e))) == 476
    ensures Pack(Body(e)) == ItemBits(Item(U(12), 1019)) + Pack(Fields(e))
  {
    hide Width, Pack, Clock, Orbit, Shape, Plane, ItemBits;
    ClockKinds(e);
    OrbitKinds(e);
    ShapeKinds(e);
    PlaneKinds(e);
    ClockWidth(e);
    OrbitWidth(e);
    ShapeWidth(e);
    PlaneWidth(e);
    PackConcat(Clock(e), Orbit(e));
    PackConcat(Clock(e) + Orbit(e), Shape(e));
    PackConcat(Clock(e) + Orbit(e) + Shape(e), Plane(e));
    PackWidth(Fields(e));
    PackOne(Item(U(12), 1019));
    PackConcat([Item(U(12), 1019)], Fields(e));
  }

  // ----- decoding

  /** Division as the program's language does it, truncating toward zero. */
  function Quot(a: int, b: int): int
    requires b > 0
  {
    if a >= 0 then a / b else -(-a / b)
  }

  /** The full week number from its ten low bits. */
  function FullWeek(week: int): int {
    week + Quot(1760 - week + 512, 1024) * 1024
  }

  /** A value in steps of a, and in steps of a * SC2RAD. */
  function Scaled(v: int, a: real): real {
    v as real * a
  }

  function Turned(v: int, a: real): real {
    v as real * a * SC2RAD
  }

  function WithClock(e: Eph, v: seq<int>): Eph
    requires |v| == 8
  {
    e.(prn := v[0], toe_wn := FullWeek(v[1]), sva := v[2], code := v[3],
       inc_dot := Turned(v[4], P2_43), iode := v[5], toc_tow := Scaled(v[6], 16.0), af2 := Scaled(v[7], P2_55))
  }

  function WithOrbit(e: Eph, v: seq<int>): Eph
    requires |v| == 7
  {
    e.(af1 := Scaled(v[0], P2_43), af0 := Scaled(v[1], P2_31), iodc := v[2], c_rs := Scaled(v[3], P2_5),
       dn := Turned(v[4], P2_43), m0 := Turned(v[5], P2_31), c_uc := Scaled(v[6], P2_29))
  }

  function WithShape(e: Eph, v: seq<int>): Eph
    requires |v| == 7
  {
    e.(ecc := Scaled(v[0], P2_33), c_us := Scaled(v[1], P2_29), sqrta := Scaled(v[2], P2_19),
       toe_tow := Scaled(v[3], 16.0), c_ic := Scaled(v[4], P2_29), omega0 := Turned(v[5], P2_31),
       c_is := Scaled(v[6], P2_29))
  }

  function WithPlane(e: Eph, v: seq<int>): Eph
    requires |v| == 8
  {
    e.(inc := Turned(v[0], P2_31), c_rc := Scaled(v[1], P2_5), w := Turned(v[2], P2_31),
       omegadot := Turned(v[3], P2_43), tgd := Scaled(v[4], P2_31), svh := v[5], flag := v[6],
       fit := if v[7] != 0 then 0.0 else 4.0)
  }

  /** An ephemeris with every field replaced by what the decoder makes of the values read. */
  function Decoded(e: Eph, v: seq<int>): Eph
    requires |v| == 30
  {
    WithPlane(WithShape(WithOrbit(WithClock(e, v[..8]), v[8..15]), v[15..22]), v[22..])
  }

  /** The layout of the fields after the message number. */
  function Layout1019(): (l: Layout)
    ensures |l| == 30
  {
    ([U(6), U(10), U(4), U(2)] + [S(14), U(8), U(16), S(8)]) + ([S(16), S(22), U(10), S(16)] + [S(16), S(32), S(16)])
    + ([U(32), S(16), U(32), U(16)] + [S(16), S(32), S(16)]) + ([S(32), S(16), S(32), S(24)] + [S(8), U(6), U(1), U(1)])
  }

  lemma FieldKinds(e: Eph)
    ensures Kinds(Fields(e)) == Layout1019() && Width(Layout1019()) == 476
  {
    hide Width, Clock, Orbit, Shape, Plane;
    ClockKinds(e);
    OrbitKinds(e);
    ShapeKinds(e);
    PlaneKinds(e);
    KindsConcat(Clock(e), Orbit(e));
    KindsConcat(Clock(e) + Orbit(e), Shape(e));
    KindsConcat(Clock(e) + Orbit(e) + Shape(e), Plane(e));
    BodyWidth(e);
  }

  method GetClock(e0: Eph, buffer: array<Byte>, i0: nat) returns (e: Eph, i: nat)
    requires buffer.Length >= 64 && i0 == 36 + Width(Layout1019()[..0]) && Width(Layout1019()) == 476
    ensures i == 36 + Width(Layout1019()[..8])
    ensures var v := Laid(BitsOf(buffer[..]), 36, Layout1019()); |v| == 30 && e == WithClock(e0, v[0..8])
  {
    hide BitsOf, Laid, Width, FullWeek, Scaled, Turned, Pow2;
    ghost var l := Layout1019();
    var n, x;
    i, e := i0, e0;
    n, i := GetU(buffer, i, 6, 36, l, 0);
    e := e.(prn := n);
    n, i := GetU(buffer, i, 10, 36, l, 1);
    e := e.(toe_wn := FullWeek(n));
    n, i := GetU(buffer, i, 4, 36, l, 2);
    e := e.(sva := n);
    n, i := GetU(buffer, i, 2, 36, l, 3);
    e := e.(code := n);
    x, i := GetS(buffer, i, 14, 36, l, 4);
    e := e.(inc_dot := Turned(x, P2_43));
    n, i := GetU(buffer, i, 8, 36, l, 5);
    e := e.(iode := n);
    n, i := GetU(buffer, i, 16, 36, l, 6);
    e := e.(toc_tow := Scaled(n, 16.0));
    x, i := GetS(buffer, i, 8, 36, l, 7);
    e := e.(af2 := Scaled(x, P2_55));
  }

  method GetOrbit(e0: Eph, buffer: array<Byte>, i0: nat) returns (e: Eph, i: nat)
    requires buffer.Length >= 64 && i0 == 36 + Width(Layout1019()[..8]) && Width(Layout1019()) == 476
    ensures i == 36 + Width(Layout1019()[..15])
    ensures var v := Laid(BitsOf(buffer[..]), 36, Layout1019()); |v| == 30 && e == WithOrbit(e0, v[8..15])
  {
    hide BitsOf, Laid, Width, FullWeek, Scaled, Turned, Pow2;
    ghost var l := Layout1019();
    var n, x;
    i, e := i0, e0;
    x, i := GetS(buffer, i, 16, 36, l, 8);
    e := e.(af1 := Scaled(x, P2_43));
    x, i := GetS(buffer, i, 22, 36, l, 9);
    e := e.(af0 := Scaled(x, P2_31));
    n, i := GetU(buffer, i, 10, 36, l, 10);
    e := e.(iodc := n);
    x, i := GetS(buffer, i, 16, 36, l, 11);
    e := e.(c_rs := Scaled(x, P2_5));
    x, i := GetS(buffer, i, 16, 36, l, 12);
    e := e.(dn := Turned(x, P2_43));
    x, i := GetS(buffer, i, 32, 36, l, 13);
    e := e.(m0 := Turned(x, P2_31));
    x, i := GetS(buffer, i, 16, 36, l, 14);
    e := e.(c_uc := Scaled(x, P2_29));
  }

  method GetShape(e0: Eph, buffer: array<Byte>, i0: nat) returns (e: Eph, i: nat)
    requires buffer.Length >= 64 && i0 == 36 + Width(Layout1019()[..15]) && Width(Layout1019()) == 476
    ensures i == 36 + Width(Layout1019()[..22])
    ensures var v := Laid(BitsOf(buffer[..]), 36, Layout1019()); |v| == 30 && e == WithShape(e0, v[15..22])
  {
    hide BitsOf, Laid, Width, FullWeek, Scaled, Turned, Pow2;
    ghost var l := Layout1019();
    var n, x;
    i, e := i0, e0;
    n, i := GetU(buffer, i, 32, 36, l, 15);
    e := e.(ecc := Scaled(n, P2_33));
    x, i := GetS(buffer, i, 16, 36, l, 16);
    e := e.(c_us := Scaled(x, P2_29));
    n, i := GetU(buffer, i, 32, 36, l, 17);
    e := e.(sqrta := Scaled(n, P2_19));
    n, i := GetU(buffer, i, 16, 36, l, 18);
    e := e.(toe_tow := Scaled(n, 16.0));
    x, i := GetS(buffer, i, 16, 36, l, 19);
    e := e.(c_ic := Scaled(x, P2_29));
    x, i := GetS(buffer, i, 32, 36, l, 20);
    e := e.(omega0 := Turned(x, P2_31));
    x, i := GetS(buffer, i, 16, 36, l, 21);
    e := e.(c_is := Scaled(x, P2_29));
  }

  method GetPlane(e0: Eph, buffer: array<Byte>, i0: nat) returns (e: Eph, i: nat)
    requires buffer.Length >= 64 && i0 == 36 + Width(Layout1019()[..22]) && Width(Layout1019()) == 476
    ensures i == 36 + Width(Layout1019()[..30])
    ensures var v := Laid(BitsOf(buffer[..]), 36, Layout1019()); |v| == 30 && e == WithPlane(e0, v[22..30])
  {
    hide BitsOf, Laid, Width, FullWeek, Scaled, Turned, Pow2;
    ghost var l := Layout1019();
    var n, x;
    i, e := i0, e0;
    x, i := GetS(buffer, i, 32, 36, l, 22);
    e := e.(inc := Turned(x, P2_31));
    x, i := GetS(buffer, i, 16, 36, l, 23);
    e := e.(c_rc := Scaled(x, P2_5));
    x, i := GetS(buffer, i, 32, 36, l, 24);
    e := e.(w := Turned(x, P2_31));
    x, i := GetS(buffer, i, 24, 36, l, 25);
    e := e.(omegadot := Turned(x, P2_43));
    x, i := GetS(buffer, i, 8, 36, l, 26);
    e := e.(tgd := Scaled(x, P2_31));
    n, i := GetU(buffer, i, 6, 36, l, 27);
    e := e.(svh := n);
    n, i := GetU(buffer, i, 1, 36, l, 28);
    e := e.(flag := n);
    n, i := GetU(buffer, i, 1, 36, l, 29);
    e := e.(fit := if n != 0 then 0.0 else 4.0);
  }

  /** decode_1019 on a received frame whose message has len bytes with its header: nothing happens when it is too short. */
  method Decode1019(e0: Eph, buffer: array<Byte>, len: nat) returns (e: Eph, ok: bool)
    requires len <= buffer.Length
    ensures ok == (len >= 64)
    ensures if ok then e == DecodedFrom(e0, buffer[..len]) else e == e0
  {
    hide BitsOf, Laid, Parse, Width, WithClock, WithOrbit, WithShape, WithPlane, Layout1019;
    FieldKinds(e0);
    if 36 + 476 > 8 * len {
      return e0, false;
    }
    var i;
    assert Layout1019()[..0] == [];
    EmptyWidth();
    e, i := GetClock(e0, buffer, 36);
    e, i := GetOrbit(e, buffer, i);
    e, i := GetShape(e, buffer, i);
    e, i := GetPlane(e, buffer, i);
    ok := true;
    BitsOfPrefix(buffer[..], len);
    assert buffer[..][..len] == buffer[..len];
    ghost var all, some := BitsOf(buffer[..]), BitsOf(buffer[..len]);
    assert some[36..512] == all[36..512];
    SameLaid(all, some, 36, Layout1019());
    ghost var v := Laid(all, 36, Layout1019());
    assert v[0..8] == v[..8] && v[22..30] == v[22..];
  }

  function DecodedFrom(e0: Eph, m: Bytes): Eph
    requires |m| >= 64
  {
    FieldKinds(e0);
    Decoded(e0, Laid(BitsOf(m), 36, Layout1019()))
  }

  lemma EmptyWidth()
    ensures Width([]) == 0
  {
  }

  // ----- the round trip

  /** What the receiver gets for e: every real rounded to its step, and the week rebuilt from its low bits. */
  function Restored(e: Eph): Eph {
    Eph(e.prn, FullWeek(e.toe_wn % 1024), e.sva, e.code, Turned(Angle(e.inc_dot, P2_43), P2_43), e.iode,
        Scaled(Steps(e.toc_tow, 16.0), 16.0), Scaled(Steps(e.af2, P2_55), P2_55),
        Scaled(Steps(e.af1, P2_43), P2_43), Scaled(Steps(e.af0, P2_31), P2_31), e.iodc, Scaled(Steps(e.c_rs, P2_5), P2_5),
        Turned(Angle(e.dn, P2_43), P2_43), Turned(Angle(e.m0, P2_31), P2_31), Scaled(Steps(e.c_uc, P2_29), P2_29),
        Scaled(Steps(e.ecc, P2_33), P2_33), Scaled(Steps(e.c_us, P2_29), P2_29), Scaled(Steps(e.sqrta, P2_19), P2_19),
        Scaled(Steps(e.toe_tow, 16.0), 16.0), Scaled(Steps(e.c_ic, P2_29), P2_29),
        Turned(Angle(e.omega0, P2_31), P2_31), Scaled(Steps(e.c_is, P2_29), P2_29),
        Turned(Angle(e.inc, P2_31), P2_31), Scaled(Steps(e.c_rc, P2_5), P2_5), Turned(Angle(e.w, P2_31), P2_31),
        Turned(Angle(e.omegadot, P2_43), P2_43), Scaled(Steps(e.tgd, P2_31), P2_31), e.svh, e.flag,
        if e.fit > 0.0 then 4.0 else 0.0)
  }

  lemma ValuesParts(e: Eph)
    ensures var v := Values(Fields(e));
            v[..8] == Values(Clock(e)) && v[8..15] == Values(Orbit(e)) && v[15..22] == Values(Shape(e)) && v[22..] == Values(Plane(e))
  {
    assert |Clock(e)| == 8 && |Orbit(e)| == 7 && |Shape(e)| == 7 && |Plane(e)| == 8;
    hide Clock, Orbit, Shape, Plane;
    KindsConcat(Clock(e), Orbit(e));
    KindsConcat(Clock(e) + Orbit(e), Shape(e));
    KindsConcat(Clock(e) + Orbit(e) + Shape(e), Plane(e));
    hide Values;
    var a, b, c, d := Values(Clock(e)), Values(Orbit(e)), Values(Shape(e)), Values(Plane(e));
    assert ((a + b) + c) + d == Values(Fields(e));
  }

  lemma DecodedValues(e0: Eph, e: Eph)
    ensures Decoded(e0, Values(Fields(e))) == Restored(e)
  {
    hide Scaled, Turned, FullWeek, Steps, Angle;
    ValuesParts(e);
  }

  /** The frame of an ephemeris whose values are in the ranges of their fields, fed to the receiver byte by
      byte, is handed over once as message 1019, and decodes to the ephemeris with every value restored. */
  lemma RoundTrip1019(e0: Eph, e: Eph, f: Bytes)
    requires Encodes(f, Body(e))
    ensures |f| == 67 && Feed([], f) == ([], [Received(f, 1019)])
    ensures (forall x | x in Fields(e) :: InRange(x)) ==> DecodedFrom(e0, f[..64]) == Restored(e)
  {
    hide IsFrame, Pack, Parse, Fields, BitsOf, Decoded, Width, InRange, Restored, Kinds, Values, Padded, Feed, Type, Layout1019;
    EncodedLength(f, Body(e));
    BodyWidth(e);
    FrameBits(e, f);
    FeedFrame(f);
    FieldKinds(e);
    FieldKinds(e0);
    ParsePack(Fields(e));
    DecodedValues(e0, e);
  }

  /** Field k of the two, in the order they are sent, is the same. */
  predicate SameField(a: Eph, b: Eph, k: nat)
    requires k < 30
  {
    match k
    case 0 => a.prn == b.prn
    case 1 => a.toe_wn == b.toe_wn
    case 2 => a.sva == b.sva
    case 3 => a.code == b.code
    case 4 => a.inc_dot == b.inc_dot
    case 5 => a.iode == b.iode
    case 6 => a.toc_tow == b.toc_tow
    case 7 => a.af2 == b.af2
    case 8 => a.af1 == b.af1
    case 9 => a.af0 == b.af0
    case 10 => a.iodc == b.iodc
    case 11 => a.c_rs == b.c_rs
    case 12 => a.dn == b.dn
    case 13 => a.m0 == b.m0
    case 14 => a.c_uc == b.c_uc
    case 15 => a.ecc == b.ecc
    case 16 => a.c_us == b.c_us
    case 17 => a.sqrta == b.sqrta
    case 18 => a.toe_tow == b.toe_tow
    case 19 => a.c_ic == b.c_ic
    case 20 => a.omega0 == b.omega0
    case 21 => a.c_is == b.c_is
    case 22 => a.inc == b.inc
    case 23 => a.c_rc == b.c_rc
    case 24 => a.w == b.w
    case 25 => a.omegadot == b.omegadot
    case 26 => a.tgd == b.tgd
    case 27 => a.svh == b.svh
    case 28 => a.flag == b.flag
    case _ => a.fit == b.fit
  }

  /** The values x and y of field k decode to the same: of the week only the full number counts, of the fit interval only
      whether it is zero. */
  predicate SameValue(k: nat, x: int, y: int) {
    if k == 1 then FullWeek(x) == FullWeek(y) else if k == 29 then x == 0 <==> y == 0 else x == y
  }

  lemma ScaledDiffer(x: int, y: int, a: real)
    requires a > 0.0
    ensures Scaled(x, a) == Scaled(y, a) <==> x == y
    ensures Turned(x, a) == Turned(y, a) <==> x == y
  {
    StepsExact(x, a);
    StepsExact(y, a);
    AngleExact(x, a);
    AngleExact(y, a);
    hide Steps, Angle;
  }

  lemma AllDiffer()
    ensures forall x, y, a | a > 0.0 :: Scaled(x, a) == Scaled(y, a) <==> x == y
    ensures forall x, y, a | a > 0.0 :: Turned(x, a) == Turned(y, a) <==> x == y
  {
    forall x, y, a | a > 0.0
      ensures (Scaled(x, a) == Scaled(y, a) <==> x == y) && (Turned(x, a) == Turned(y, a) <==> x == y)
    {
      ScaledDiffer(x, y, a);
    }
  }

  lemma ClockSame(e: Eph, e': Eph, v: seq<int>, w: seq<int>, k: nat)
    requires |v| == |w| == 8 && k < 8
    ensures SameField(WithClock(e, v), WithClock(e', w), k) <==> SameValue(k, v[k], w[k])
  {
    AllDiffer();
    hide Scaled, Turned, FullWeek;
  }

  lemma OrbitSame(e: Eph, e': Eph, v: seq<int>, w: seq<int>, k: nat)
    requires |v| == |w| == 7 && k < 7
    ensures SameField(WithOrbit(e, v), WithOrbit(e', w), 8 + k) <==> v[k] == w[k]
    ensures forall j: nat | j < 8 :: SameField(WithOrbit(e, v), WithOrbit(e', w), j) <==> SameField(e, e', j)
  {
    AllDiffer();
    hide Scaled, Turned;
  }

  lemma ShapeSame(e: Eph, e': Eph, v: seq<int>, w: seq<int>, k: nat)
    requires |v| == |w| == 7 && k < 7
    ensures SameField(WithShape(e, v), WithShape(e', w), 15 + k) <==> v[k] == w[k]
    ensures forall j: nat | j < 15 :: SameField(WithShape(e, v), WithShape(e', w), j) <==> SameField(e, e', j)
  {
    AllDiffer();
    hide Scaled, Turned;
  }

  lemma PlaneSame(e: Eph, e': Eph, v: seq<int>, w: seq<int>, k: nat)
    requires |v| == |w| == 8 && k < 8
    ensures SameField(WithPlane(e, v), WithPlane(e', w), 22 + k) <==> SameValue(22 + k, v[k], w[k])
    ensures forall j: nat | j < 22 :: SameField(WithPlane(e, v), WithPlane(e', w), j) <==> SameField(e, e', j)
  {
    AllDiffer();
    hide Scaled, Turned;
  }

  lemma DecodedSame(e: Eph, v: seq<int>, w: seq<int>, k: nat)
    requires |v| == |w| == 30 && k < 30
    ensures SameField(Decoded(e, v), Decoded(e, w), k) <==> SameValue(k, v[k], w[k])
  {
    hide SameField, SameValue, WithClock, WithOrbit, WithShape, WithPlane;
    var c, c' := WithClock(e, v[..8]), WithClock(e, w[..8]);
    var o, o' := WithOrbit(c, v[8..15]), WithOrbit(c', w[8..15]);
    var s, s' := WithShape(o, v[15..22]), WithShape(o', w[15..22]);
    ClockSame(e, e, v[..8], w[..8], if k < 8 then k else 0);
    OrbitSame(c, c', v[8..15], w[8..15], if 8 <= k < 15 then k - 8 else 0);
    ShapeSame(o, o', v[15..22], w[15..22], if 15 <= k < 22 then k - 15 else 0);
    PlaneSame(s, s', v[22..], w[22..], if k >= 22 then k - 22 else 0);
    PlainValue(k, v[k], w[k]);
  }

  lemma PlainValue(k: nat, x: int, y: int)
    ensures k != 1 && k != 29 ==> (SameValue(k, x, y) <==> x == y)
    ensures x == y ==> SameValue(k, x, y)
  {
  }

  /** Each field of the frame is restored if and only if its own value is in range, whatever the others are. */
  lemma FieldRestored(e0: Eph, e: Eph, f: Bytes, k: nat)
    requires Encodes(f, Body(e)) && k < 30
    ensures |f| == 67 && |Fields(e)| == 30
    ensures SameField(DecodedFrom(e0, f[..64]), Restored(e), k) <==> InRange(Fields(e)[k])
  {
    hide IsFrame, Pack, Parse, Fields, BitsOf, Decoded, Width, InRange, Restored, Kinds, Padded, Layout1019, SameField, SameValue,
      Value, ItemBits;
    EncodedLength(f, Body(e));
    BodyWidth(e);
    FrameBits(e, f);
    FieldKinds(e);
    FieldKinds(e0);
    FieldRead(Fields(e), k);
    ItemRoundTrip(Fields(e)[k]);
    DecodedValues(e0, e);
    DecodedSame(e0, Laid(BitsOf(f[..64]), 36, Layout1019()), Values(Fields(e)), k);
    PlainValue(k, Value(Fields(e)[k].kind, ItemBits(Fields(e)[k])), Fields(e)[k].value);
    AlwaysInRange(e);
  }

  /** The low bits of the week and the flag of the fit interval always fit. */
  lemma AlwaysInRange(e: Eph)
    ensures |Fields(e)| == 30 && InRange(Fields(e)[1]) && InRange(Fields(e)[29])
  {
    assert |Clock(e)| == 8 && |Orbit(e)| == 7 && |Shape(e)| == 7 && |Plane(e)| == 8;
    assert Clock(e)[1] == Item(U(10), e.toe_wn % 1024) && Plane(e)[7] == Item(U(1), if e.fit > 0.0 then 0 else 1);
    hide Clock, Orbit, Shape, Plane;
    assert Pow2(8) == 256 && Pow2(10) == 1024 && Pow2(1) == 2;
  }

  lemma FrameBits(e: Eph, f: Bytes)
    requires Encodes(f, Body(e)) && |f| == 67
    ensures Type(f) == 1019
    ensures BitsOf(f[..64])[36..512] == Pack(Fields(e))
  {
    hide IsFrame, Pack, Fields, BitsOf, Num, Bin;
    BodyWidth(e);
    var bits, body := BitsOf(f[..64]), Pack(Body(e));
    assert Padded(body) == body;
    assert bits[36..512] == bits[24..][12..] == Pack(Fields(e));
    FieldOfPrefix(f, 64, 24, 12);
    assert bits[24..36] == bits[24..][..12] == Bin(1019, 12);
    assert Pow2(12) == 4096;
    NumBin(1019, 12);
  }

  // ----- how exact the round trip is

  /** The full week survives exactly in the 1024 weeks from 1249 on. */
  lemma WeekRestored(e: Eph)
    requires e.toe_wn >= 0
    ensures Restored(e).toe_wn == e.toe_wn <==> 1249 <= e.toe_wn <= 2272
  {
    hide Steps, Angle, Scaled, Turned;
  }

  /** A real is restored to within half a step, exactly when it is a whole number of steps. */
  lemma StepsNear(x: real, a: real)
    requires a > 0.0
    ensures -a / 2.0 <= Scaled(Steps(x, a), a) - x <= a / 2.0
  {
    var q := x / a;
    RoundNear(q);
    hide Round;
    Between(q, Round(q) as real, a);
    assert q * a == x;
  }

  lemma AngleNear(x: real, a: real)
    requires a > 0.0
    ensures -(a * SC2RAD) / 2.0 <= Turned(Angle(x, a), a) - x <= a * SC2RAD / 2.0
  {
    var u := a * SC2RAD;
    assert u > 0.0;
    QuotientOfQuotient(x, a, SC2RAD);
    StepsNear(x, u);
    assert Turned(Angle(x, a), a) == Scaled(Steps(x, u), u);
  }

  lemma StepsExact(n: int, a: real)
    requires a > 0.0
    ensures Steps(Scaled(n, a), a) == n
  {
    assert Scaled(n, a) / a == n as real;
  }

  lemma AngleExact(n: int, a: real)
    requires a > 0.0
    ensures Angle(Turned(n, a), a) == n
  {
    var u := a * SC2RAD;
    QuotientOfQuotient(Turned(n, a), a, SC2RAD);
    assert Turned(n, a) == Scaled(n, u);
    StepsExact(n, u);
  }

  lemma WeekStable(w: int)
    requires w >= 0
    ensures FullWeek(w % 1024) % 1024 == w % 1024
  {
  }

  /** What was received is sent again as the same fields. */
  lemma RestoredStable(e: Eph)
    requires e.toe_wn >= 0
    ensures Fields(Restored(e)) == Fields(e)
  {
    WeekStable(e.toe_wn);
    forall n, a | a > 0.0 ensures Steps(Scaled(n, a), a) == n {
      StepsExact(n, a);
    }
    forall n, a | a > 0.0 ensures Angle(Turned(n, a), a) == n {
      AngleExact(n, a);
    }
    hide Steps, Angle, Scaled, Turned, FullWeek;
  }

  predicate Near(x: real, y: real, step: real) {
    -step / 2.0 <= x - y <= step / 2.0
  }

  /** Every real of an ephemeris is restored to within half a step of its field. */
  lemma RestoredNear(e: Eph)
    ensures var r := Restored(e);
            && Near(r.inc_dot, e.inc_dot, P2_43 * SC2RAD) && Near(r.toc_tow, e.toc_tow, 16.0) && Near(r.af2, e.af2, P2_55)
            && Near(r.af1, e.af1, P2_43) && Near(r.af0, e.af0, P2_31) && Near(r.c_rs, e.c_rs, P2_5)
            && Near(r.dn, e.dn, P2_43 * SC2RAD) && Near(r.m0, e.m0, P2_31 * SC2RAD) && Near(r.c_uc, e.c_uc, P2_29)
            && Near(r.ecc, e.ecc, P2_33) && Near(r.c_us, e.c_us, P2_29) && Near(r.sqrta, e.sqrta, P2_19)
            && Near(r.toe_tow, e.toe_tow, 16.0) && Near(r.c_ic, e.c_ic, P2_29) && Near(r.omega0, e.omega0, P2_31 * SC2RAD)
            && Near(r.c_is, e.c_is, P2_29) && Near(r.inc, e.inc, P2_31 * SC2RAD) && Near(r.c_rc, e.c_rc, P2_5)
            && Near(r.w, e.w, P2_31 * SC2RAD) && Near(r.omegadot, e.omegadot, P2_43 * SC2RAD) && Near(r.tgd, e.tgd, P2_31)
  {
    forall x, a | a > 0.0 ensures Near(Scaled(Steps(x, a), a), x, a) {
      StepsNear(x, a);
    }
    forall x, a | a > 0.0 ensures Near(Turned(Angle(x, a), a), x, a * SC2RAD) {
      AngleNear(x, a);
    }
    hide Near, Steps, Angle, Scaled, Turned, FullWeek;
  }
}
