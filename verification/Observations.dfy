/** RTCM messages 1002 and 1010: GPS and GLONASS L1 observations. */
module Observations {
  import opened Octets
  import opened BitField
  import opened RtcmFrame
  import opened Rounding

  const CLIGHT: real := 299792458.0
  const FREQ1: real := 1575420000.0
  const FREQ1_GLO: real := 1602000000.0
  const DFRQ1_GLO: real := 562500.0
  const PRUNIT_GPS: real := 299792.458
  const PRUNIT_GLO: real := 599584.916
  const CODE_L1C := 1
  const CODE_L1P := 2
  const INVALID_PPR := -0x80000  // the marker 0xFFF80000 as a signed number

  datatype System = Gps | Glo

  /** One satellite's L1 observation: pseudorange, carrier phase in cycles, lock time, signal strength. */
  datatype Obs = Obs(prn: Byte, freq: Byte, p: real, l: real, lock: Byte, cn0: Byte, code: Byte)

  /** The time is the time of week (GPS) or of day (GLONASS). */
  datatype Header = Header(staid: int, time: real, sync: bool)

  function Kind(sys: System): int {
    if sys == Gps then 1002 else 1010
  }

  function PrUnit(sys: System): real {
    if sys == Gps then PRUNIT_GPS else PRUNIT_GLO
  }

  /** The carrier frequency and the wave length. */
  function Carrier(sys: System, freq: Byte): (f: real)
    ensures f > 0.0
  {
    if sys == Gps then FREQ1 else FREQ1_GLO + DFRQ1_GLO * (freq as real - 7.0)
  }

  function Lam(sys: System, freq: Byte): (lam: real)
    ensures lam > 0.0
  {
    CLIGHT / Carrier(sys, freq)
  }

  // ----- what is sent

  function Trunc(x: real): int {
    if x >= 0.0 then x.Floor else -(-x).Floor
  }

  function Fmod(x: real, m: real): real
    requires m > 0.0
  {
    x - m * Trunc(x / m) as real
  }

  function CpPr(cp: real, pr: real): real {
    Fmod(cp - pr + 1500.0, 3000.0) - 1500.0
  }

  function Epoch(h: Header): int {
    Round(h.time / 0.001)
  }

  /** What rounding the time to milliseconds leaves over. */
  function Tadj(h: Header): real {
    (h.time / 0.001 - Epoch(h) as real) * 0.001
  }

  function P0(h: Header, o: Obs): real {
    if o.p == 0.0 then 0.0 else o.p - Tadj(h) * CLIGHT
  }

  function L0(sys: System, h: Header, o: Obs): real {
    if o.l == 0.0 then 0.0 else o.l - Tadj(h) * Carrier(sys, o.freq)
  }

  function Amb(sys: System, h: Header, o: Obs): int {
    (P0(h, o) / PrUnit(sys)).Floor
  }

  function Pr(sys: System, h: Header, o: Obs): int {
    Round((P0(h, o) - Amb(sys, h, o) as real * PrUnit(sys)) / 0.02)
  }

  /** The pseudorange the receiver will rebuild. */
  function Range(sys: System, pr: int, amb: int): real {
    pr as real * 0.02 + amb as real * PrUnit(sys)
  }

  /** The carrier phase the receiver will rebuild. */
  function Phase(range: real, lam: real, ppr: int): real
    requires lam > 0.0
  {
    range / lam + ppr as real * 0.0005 / lam
  }

  function Ppr(sys: System, h: Header, o: Obs): int {
    PhaseSteps(L0(sys, h, o), Range(sys, Pr(sys, h, o), Amb(sys, h, o)), Lam(sys, o.freq))
  }

  /** The phase less the range, in steps of half a millimetre. */
  function PhaseSteps(l0: real, range: real, lam: real): int
    requires lam > 0.0
  {
    HalfMillimetres(CpPr(l0, range / lam), lam)
  }

  /** A number of cycles in steps of half a millimetre. */
  function HalfMillimetres(cycles: real, lam: real): int {
    Round(cycles * lam / 0.0005)
  }

  function CodeBit(o: Obs): int {
    if o.code == CODE_L1C then 0 else 1
  }

  /** The fields of one satellite. */
  function ObsFields(sys: System, h: Header, o: Obs): (m: Message)
    ensures |m| == |ObsLayout(sys)|
  {
    if sys == Gps then
      [Item(U(6), o.prn), Item(U(1), CodeBit(o)), Item(U(24), Pr(sys, h, o)), Item(S(20), Ppr(sys, h, o)),
       Item(U(7), o.lock), Item(U(8), Amb(sys, h, o)), Item(U(8), 4 * o.cn0)]
    else
      [Item(U(6), o.prn), Item(U(1), CodeBit(o)), Item(U(5), o.freq), Item(U(25), Pr(sys, h, o)), Item(S(20), Ppr(sys, h, o)),
       Item(U(7), o.lock), Item(U(7), Amb(sys, h, o)), Item(U(8), 4 * o.cn0)]
  }

  function ObsLayout(sys: System): Layout {
    if sys == Gps then [U(6), U(1), U(24), S(20)] + [U(7), U(8), U(8)]
    else [U(6), U(1), U(5), U(25)] + [S(20), U(7), U(7), U(8)]
  }

  function ObsWidth(sys: System): nat {
    if sys == Gps then 74 else 79
  }

  function HeaderFields(sys: System, h: Header, nsat: int): Message {
    [Item(U(12), Kind(sys)), Item(U(12), h.staid), Item(U(if sys == Gps then 30 else 27), Epoch(h)), Item(U(1), if h.sync then 1 else 0),
     Item(U(5), nsat), Item(U(1), 0), Item(U(3), 0)]
  }

  function HeaderLayout(sys: System): Layout {
    [U(12), U(12), U(if sys == Gps then 30 else 27), U(1)] + [U(5), U(1), U(3)]
  }

  function HeaderWidth(sys: System): nat {
    if sys == Gps then 64 else 61
  }

  function AllFields(sys: System, h: Header, obs: seq<Obs>): Message {
    if obs == [] then [] else AllFields(sys, h, obs[..|obs| - 1]) + ObsFields(sys, h, obs[|obs| - 1])
  }

  function Body(sys: System, h: Header, obs: seq<Obs>): Message {
    HeaderFields(sys, h, |obs|) + AllFields(sys, h, obs)
  }

  lemma GpsWidth()
    ensures Width(ObsLayout(Gps)) == ObsWidth(Gps)
  {
    hide Width;
    Width4(U(6), U(1), U(24), S(20));
    Width4(U(7), U(8), U(8), U(1));
    WidthConcat([U(6), U(1), U(24), S(20)], [U(7), U(8), U(8)]);
  }

  lemma GloWidth()
    ensures Width(ObsLayout(Glo)) == ObsWidth(Glo)
  {
    hide Width;
    Width4(U(6), U(1), U(5), U(25));
    Width4(S(20), U(7), U(7), U(8));
    WidthConcat([U(6), U(1), U(5), U(25)], [S(20), U(7), U(7), U(8)]);
  }

  lemma ObsLaidOut(sys: System, h: Header, o: Obs)
    ensures Kinds(ObsFields(sys, h, o)) == ObsLayout(sys)
  {
    hide Pr, Ppr, Amb, CodeBit;
  }

  lemma ObsKinds(sys: System, h: Header, o: Obs)
    ensures Kinds(ObsFields(sys, h, o)) == ObsLayout(sys) && Width(ObsLayout(sys)) == ObsWidth(sys)
    ensures |Pack(ObsFields(sys, h, o))| == ObsWidth(sys)
  {
    hide Width, ObsFields, ObsLayout, ObsWidth, Pack, Kinds;
    GpsWidth();
    GloWidth();
    ObsLaidOut(sys, h, o);
    PackWidth(ObsFields(sys, h, o));
  }

  lemma HeaderLaidWidth(sys: System)
    ensures Width(HeaderLayout(sys)) == HeaderWidth(sys)
  {
    hide Width;
    var n := if sys == Gps then 30 else 27;
    Width4(U(12), U(12), U(n), U(1));
    Width4(U(5), U(1), U(3), U(1));
    WidthConcat([U(12), U(12), U(n), U(1)], [U(5), U(1), U(3)]);
  }

  lemma HeaderLaidOut(sys: System, h: Header, nsat: int)
    ensures Kinds(HeaderFields(sys, h, nsat)) == HeaderLayout(sys)
  {
    hide Epoch;
  }

  lemma HeaderKinds(sys: System, h: Header, nsat: int)
    ensures Kinds(HeaderFields(sys, h, nsat)) == HeaderLayout(sys) && Width(HeaderLayout(sys)) == HeaderWidth(sys)
    ensures |Pack(HeaderFields(sys, h, nsat))| == HeaderWidth(sys)
  {
    hide Width, HeaderFields, HeaderLayout, HeaderWidth, Pack, Kinds;
    HeaderLaidWidth(sys);
    HeaderLaidOut(sys, h, nsat);
    PackWidth(HeaderFields(sys, h, nsat));
  }

  lemma {:induction false} AllWidth(sys: System, h: Header, obs: seq<Obs>)
    ensures |Pack(AllFields(sys, h, obs))| == |obs| * ObsWidth(sys)
    decreases |obs|
  {
    hide Pack, ObsFields;
    if obs == [] {
      NothingPacked();
    } else {
      var n := |obs| - 1;
      AllWidth(sys, h, obs[..n]);
      ObsKinds(sys, h, obs[n]);
      PackConcat(AllFields(sys, h, obs[..n]), ObsFields(sys, h, obs[n]));
    }
  }

  lemma NothingPacked()
    ensures Pack([]) == []
  {
  }

  // ----- encoding

  lemma TruncNear(q: real)
    ensures if q >= 0.0 then 0.0 <= q - Trunc(q) as real < 1.0 else -1.0 < q - Trunc(q) as real <= 0.0
  {
  }

  /** A number between -1 and 1 times m. */
  lemma Scaled(x: real, m: real, y: real)
    requires -1.0 < x < 1.0 && m > 0.0 && y == x * m
    ensures -m < y < m
  {
    var a, b := (1.0 - x) * m, (1.0 + x) * m;
    ProductPositive(1.0 - x, m);
    ProductPositive(1.0 + x, m);
    assert a == m - y && b == m + y;
  }

  lemma FmodRange(x: real, m: real)
    requires m > 0.0
    ensures -m < Fmod(x, m) < m
  {
    var q := x / m;
    TruncNear(q);
    QuotientTimes(x, m);
    var n := Trunc(q) as real;
    assert (q - n) * m == q * m - n * m;
    Scaled(q - n, m, Fmod(x, m));
  }

  lemma LamRange(sys: System, freq: Byte)
    ensures Lam(sys, freq) < 0.2
  {
    QuotientBelow(CLIGHT, Carrier(sys, freq), 0.2);
  }

  lemma QuotientBelow(x: real, u: real, b: real)
    requires u > 0.0 && x < b * u
    ensures x / u < b
  {
  }

  /** The phase is a whole number of 32 bits for every observation. */
  lemma PprFits(sys: System, h: Header, o: Obs)
    ensures Fits(Ppr(sys, h, o), 32)
  {
    hide Lam, L0, Range, Pr, Amb, PhaseSteps;
    LamRange(sys, o.freq);
    PhaseStepsFew(L0(sys, h, o), Range(sys, Pr(sys, h, o), Amb(sys, h, o)), Lam(sys, o.freq));
    WordRange();
  }

  lemma PhaseStepsFew(l0: real, range: real, lam: real)
    requires 0.0 < lam < 0.2
    ensures -2000000 < PhaseSteps(l0, range, lam) < 2000000
  {
    hide CpPr, HalfMillimetres;
    CpPrRange(l0, range / lam);
    PhaseStepsRange(CpPr(l0, range / lam), lam);
  }

  lemma CpPrRange(cp: real, pr: real)
    ensures -4500.0 < CpPr(cp, pr) < 1500.0
  {
    hide Fmod;
    FmodRange(cp - pr + 1500.0, 3000.0);
  }

  lemma PhaseStepsRange(c: real, lam: real)
    requires -4500.0 < c < 1500.0 && 0.0 < lam < 0.2
    ensures -2000000 < HalfMillimetres(c, lam) < 2000000
  {
    var u := c / 4500.0;
    var y := u * lam;
    Scaled(u, lam, y);
    assert c * lam == 4500.0 * y;
    RoundNear(c * lam / 0.0005);
  }

  method EncodeHead(sys: System, h: Header, nsat: nat, buffer: array<Byte>) returns (i: nat)
    requires buffer.Length >= 11
    modifies buffer
    ensures i == 24 + HeaderWidth(sys)
    ensures var m := Head(0) + HeaderFields(sys, h, nsat); Written(BitsOf(buffer[..]), m, |m|, i)
  {
    hide BitsOf, Pack, Written, Epoch;
    i := PutHead(buffer);
    ghost var f, m, n := HeaderFields(sys, h, nsat), Head(0) + HeaderFields(sys, h, nsat), |Head(0)|;
    HeaderKinds(sys, h, nsat);
    WrittenBefore(BitsOf(buffer[..]), Head(0), f, i);
    var epoch := Epoch(h);
    i := PutU(buffer, i, 12, Kind(sys), m, n);
    i := PutU(buffer, i, 12, h.staid, m, n + 1);
    if sys == Glo {
      i := PutU(buffer, i, 27, epoch, m, n + 2);
    } else {
      i := PutU(buffer, i, 30, epoch, m, n + 2);
    }
    i := PutU(buffer, i, 1, if h.sync then 1 else 0, m, n + 3);
    i := PutU(buffer, i, 5, nsat, m, n + 4);
    i := PutU(buffer, i, 1, 0, m, n + 5);
    i := PutU(buffer, i, 3, 0, m, n + 6);
  }

  method PutGps(h: Header, o: Obs, buffer: array<Byte>, i0: nat, ghost items: Message) returns (i: nat)
    requires i0 + 74 <= 8 * buffer.Length && Written(BitsOf(buffer[..]), items, |items|, i0)
    modifies buffer
    ensures i == i0 + 74
    ensures var m := items + ObsFields(Gps, h, o); Written(BitsOf(buffer[..]), m, |m|, i)
  {
    hide BitsOf, Pack, Written, Fits, Pr, Ppr, Amb;
    ghost var f, m, n := ObsFields(Gps, h, o), items + ObsFields(Gps, h, o), |items|;
    ObsKinds(Gps, h, o);
    PprFits(Gps, h, o);
    WrittenBefore(BitsOf(buffer[..]), items, f, i0);
    var amb, pr, ppr := Amb(Gps, h, o), Pr(Gps, h, o), Ppr(Gps, h, o);
    i := PutU(buffer, i0, 6, o.prn, m, n);
    i := PutU(buffer, i, 1, if o.code == CODE_L1C then 0 else 1, m, n + 1);
    i := PutU(buffer, i, 24, pr, m, n + 2);
    i := PutS(buffer, i, 20, ppr, m, n + 3);
    i := PutU(buffer, i, 7, o.lock, m, n + 4);
    i := PutU(buffer, i, 8, amb, m, n + 5);
    i := PutU(buffer, i, 8, 4 * o.cn0, m, n + 6);
  }

  method PutGlo(h: Header, o: Obs, buffer: array<Byte>, i0: nat, ghost items: Message) returns (i: nat)
    requires i0 + 79 <= 8 * buffer.Length && Written(BitsOf(buffer[..]), items, |items|, i0)
    modifies buffer
    ensures i == i0 + 79
    ensures var m := items + ObsFields(Glo, h, o); Written(BitsOf(buffer[..]), m, |m|, i)
  {
    hide BitsOf, Pack, Written, Fits, Pr, Ppr, Amb;
    ghost var f, m, n := ObsFields(Glo, h, o), items + ObsFields(Glo, h, o), |items|;
    ObsKinds(Glo, h, o);
    PprFits(Glo, h, o);
    WrittenBefore(BitsOf(buffer[..]), items, f, i0);
    var amb, pr, ppr := Amb(Glo, h, o), Pr(Glo, h, o), Ppr(Glo, h, o);
    i := PutU(buffer, i0, 6, o.prn, m, n);
    i := PutU(buffer, i, 1, if o.code == CODE_L1C then 0 else 1, m, n + 1);
    i := PutU(buffer, i, 5, o.freq, m, n + 2);
    i := PutU(buffer, i, 25, pr, m, n + 3);
    i := PutS(buffer, i, 20, ppr, m, n + 4);
    i := PutU(buffer, i, 7, o.lock, m, n + 5);
    i := PutU(buffer, i, 7, amb, m, n + 6);
    i := PutU(buffer, i, 8, 4 * o.cn0, m, n + 7);
  }

  lemma BodyWidth(sys: System, h: Header, obs: seq<Obs>)
    ensures |Pack(Body(sys, h, obs))| == HeaderWidth(sys) + |obs| * ObsWidth(sys)
  {
    hide Pack, HeaderFields, AllFields;
    HeaderKinds(sys, h, |obs|);
    AllWidth(sys, h, obs);
    PackConcat(HeaderFields(sys, h, |obs|), AllFields(sys, h, obs));
  }

  /** rtcm3_encode_1002 and rtcm3_encode_1010. */
  method Encode(sys: System, h: Header, obs: array<Obs>, num: nat, buffer: array<Byte>) returns (total: nat)
    requires num <= obs.Length && (24 + HeaderWidth(sys) + num * ObsWidth(sys) + 7) / 8 + 3 <= buffer.Length
    modifies buffer
    ensures total == 0 <==> HeaderWidth(sys) + num * ObsWidth(sys) > 8 * 1023
    ensures total > 0 ==> total <= buffer.Length && Encodes(buffer[..total], Body(sys, h, obs[..num]))
  {
    hide BitsOf, Pack, Written, Fits, Ppr, HeaderFields, ObsFields, Encodes, Head, HeaderWidth, ObsWidth, AllFields, Body;
    Widths(sys);
    var i := EncodeHead(sys, h, num, buffer);
    ghost var m := Head(0) + HeaderFields(sys, h, num);
    NoObs(sys, h, m);
    assert obs[..0] == [];
    for j := 0 to num
      invariant i == 24 + HeaderWidth(sys) + j * ObsWidth(sys)
      invariant Written(BitsOf(buffer[..]), m + AllFields(sys, h, obs[..j]), |m + AllFields(sys, h, obs[..j])|, i)
    {
      RoomLeft(j, num, ObsWidth(sys), 24 + HeaderWidth(sys), buffer.Length);
      ghost var before := m + AllFields(sys, h, obs[..j]);
      OneMoreObs(sys, h, obs[..j + 1], m);
      assert obs[..j + 1][..j] == obs[..j];
      if sys == Gps {
        i := PutGps(h, obs[j], buffer, i, before);
      } else {
        i := PutGlo(h, obs[j], buffer, i, before);
      }
    }
    ghost var body := Body(sys, h, obs[..num]);
    HeadedBody(sys, h, obs[..num]);
    BodyWidth(sys, h, obs[..num]);
    total := EncodeEnd(buffer, i, body);
  }

  lemma OneMoreObs(sys: System, h: Header, obs: seq<Obs>, m: Message)
    requires obs != []
    ensures var n := |obs| - 1; m + AllFields(sys, h, obs[..n]) + ObsFields(sys, h, obs[n]) == m + AllFields(sys, h, obs)
  {
    hide ObsFields;
  }

  lemma NoObs(sys: System, h: Header, m: Message)
    ensures m + AllFields(sys, h, []) == m
  {
  }

  lemma HeadedBody(sys: System, h: Header, obs: seq<Obs>)
    ensures Head(0) + HeaderFields(sys, h, |obs|) + AllFields(sys, h, obs) == Head(0) + Body(sys, h, obs)
  {
    hide Head, HeaderFields, AllFields;
  }

  lemma Widths(sys: System)
    ensures HeaderWidth(sys) > 0 && ObsWidth(sys) == (if sys == Gps then 74 else 79)
    ensures HeaderWidth(sys) == if sys == Gps then 64 else 61
  {
  }

  lemma RoomLeft(j: nat, num: nat, w: nat, start: nat, size: nat)
    requires j < num && (start + num * w + 7) / 8 + 3 <= size
    ensures start + j * w + w <= 8 * size && (j + 1) * w == j * w + w
  {
    assert (j + 1) * w <= num * w;
  }

  // ----- decoding

  /** Conversion to the program's uint8. */
  function AsByte(v: int): Byte {
    v % 256
  }

  function CarrierOf(sys: System, v: seq<int>): Byte
    requires |v| == |ObsLayout(sys)|
  {
    if sys == Gps then 0 else AsByte(v[2])
  }

  /** An observation after the values of one satellite have been read; an invalid phase leaves range and phase alone. */
  function Decoded(sys: System, o: Obs, v: seq<int>): Obs
    requires |v| == |ObsLayout(sys)|
  {
    var k := if sys == Gps then 2 else 3;
    var range, lam := Range(sys, v[k], v[k + 3]), Lam(sys, CarrierOf(sys, v));
    var o1 := if v[k + 1] == INVALID_PPR then o else o.(p := range, l := Phase(range, lam, v[k + 1]));
    o1.(prn := AsByte(v[0]), code := if v[1] != 0 then CODE_L1P else CODE_L1C, freq := if sys == Gps then o.freq else AsByte(v[2]),
        lock := AsByte(v[k + 2]), cn0 := AsByte(v[k + 4] / 4))
  }

  method GetGps(o0: Obs, buffer: array<Byte>, i0: nat) returns (o: Obs)
    requires i0 + 74 <= 8 * buffer.Length && Width(ObsLayout(Gps)) == 74
    ensures |Laid(BitsOf(buffer[..]), i0, ObsLayout(Gps))| == 7
    ensures o == Decoded(Gps, o0, Laid(BitsOf(buffer[..]), i0, ObsLayout(Gps)))
  {
    hide BitsOf, Laid, Width, Range, Lam, Pow2, Phase;
    ghost var l := ObsLayout(Gps);
    NoWidth(l);
    var i, prn, code, pr, ppr, lock, amb, cnr;
    prn, i := GetU(buffer, i0, 6, i0, l, 0);
    code, i := GetU(buffer, i, 1, i0, l, 1);
    pr, i := GetU(buffer, i, 24, i0, l, 2);
    ppr, i := GetS(buffer, i, 20, i0, l, 3);
    lock, i := GetU(buffer, i, 7, i0, l, 4);
    amb, i := GetU(buffer, i, 8, i0, l, 5);
    cnr, i := GetU(buffer, i, 8, i0, l, 6);
    o := o0;
    if ppr != INVALID_PPR {
      var lam := Lam(Gps, 0);
      var range := Range(Gps, pr, amb);
      o := o.(p := range, l := Phase(range, lam, ppr));
    }
    o := o.(prn := AsByte(prn), lock := AsByte(lock), cn0 := AsByte(cnr / 4), code := if code != 0 then CODE_L1P else CODE_L1C);
  }

  method GetGlo(o0: Obs, buffer: array<Byte>, i0: nat) returns (o: Obs)
    requires i0 + 79 <= 8 * buffer.Length && Width(ObsLayout(Glo)) == 79
    ensures |Laid(BitsOf(buffer[..]), i0, ObsLayout(Glo))| == 8
    ensures o == Decoded(Glo, o0, Laid(BitsOf(buffer[..]), i0, ObsLayout(Glo)))
  {
    hide BitsOf, Laid, Width, Range, Lam, Pow2, Phase;
    ghost var l := ObsLayout(Glo);
    NoWidth(l);
    var i, prn, code, freq, pr, ppr, lock, amb, cnr;
    prn, i := GetU(buffer, i0, 6, i0, l, 0);
    code, i := GetU(buffer, i, 1, i0, l, 1);
    freq, i := GetU(buffer, i, 5, i0, l, 2);
    pr, i := GetU(buffer, i, 25, i0, l, 3);
    ppr, i := GetS(buffer, i, 20, i0, l, 4);
    lock, i := GetU(buffer, i, 7, i0, l, 5);
    amb, i := GetU(buffer, i, 7, i0, l, 6);
    cnr, i := GetU(buffer, i, 8, i0, l, 7);
    o := o0;
    if ppr != INVALID_PPR {
      var lam := Lam(Glo, AsByte(freq));
      var range := Range(Glo, pr, amb);
      o := o.(p := range, l := Phase(range, lam, ppr));
    }
    o := o.(prn := AsByte(prn), lock := AsByte(lock), cn0 := AsByte(cnr / 4), code := if code != 0 then CODE_L1P else CODE_L1C,
            freq := AsByte(freq));
  }

  lemma NoWidth(l: Layout)
    ensures Width(l[..0]) == 0
  {
    assert l[..0] == [];
  }

  /** Where the fields of satellite j start. */
  function Start(sys: System, j: nat): nat {
    24 + HeaderWidth(sys) + j * ObsWidth(sys)
  }

  /** Satellite j is announced and wholly inside a message of len bytes. */
  predicate Present(sys: System, nsat: int, len: nat, j: nat) {
    j < nsat && Start(sys, j) + ObsWidth(sys) <= 8 * len
  }

  function LaidObs(sys: System, m: Bytes, j: nat): (v: seq<int>)
    requires Start(sys, j) + ObsWidth(sys) <= 8 * |m|
    ensures |v| == |ObsLayout(sys)|
  {
    ObsKinds(sys, Header(0, 0.0, false), Obs(0, 0, 0.0, 0.0, 0, 0, 0));
    Laid(BitsOf(m), Start(sys, j), ObsLayout(sys))
  }

  function LaidHeader(sys: System, m: Bytes): (v: seq<int>)
    requires 24 + HeaderWidth(sys) <= 8 * |m|
    ensures |v| == 7
  {
    HeaderKinds(sys, Header(0, 0.0, false), 0);
    Laid(BitsOf(m), 24, HeaderLayout(sys))
  }

  /** decode_head1001 and decode_head1009, as far as they concern the observations. */
  method DecodeHead(sys: System, buffer: array<Byte>) returns (h: Header, nsat: nat)
    requires buffer.Length == BUFFER_SIZE
    ensures var v := LaidHeader(sys, buffer[..]); h == Header(v[1], v[2] as real * 0.001, v[3] != 0) && nsat == v[4]
    ensures nsat < 32
  {
    hide BitsOf, Laid, Width, Num, Pow2;
    ghost var l := HeaderLayout(sys);
    HeaderKinds(sys, Header(0, 0.0, false), 0);
    NoWidth(l);
    var i, kind, staid, epoch, sync;
    kind, i := GetU(buffer, 24, 12, 24, l, 0);
    staid, i := GetU(buffer, i, 12, 24, l, 1);
    if sys == Gps {
      epoch, i := GetU(buffer, i, 30, 24, l, 2);
    } else {
      epoch, i := GetU(buffer, i, 27, 24, l, 2);
    }
    sync, i := GetU(buffer, i, 1, 24, l, 3);
    nsat, i := GetU(buffer, i, 5, 24, l, 4);
    h := Header(staid, epoch as real * 0.001, sync != 0);
    FewSatellites();
  }

  lemma FewSatellites()
    ensures Pow2(5) == 32
  {
  }

  /** decode_1002 and decode_1010 on a received frame whose message has len bytes with its header. */
  method Decode(sys: System, buffer: array<Byte>, len: nat, obs: array<Obs>) returns (h: Header, nsat: nat)
    requires buffer.Length == BUFFER_SIZE && len <= buffer.Length && obs.Length == 32
    modifies obs
    ensures nsat < 32 && Obtained(sys, buffer[..], len, old(obs[..]), h, nsat, obs[..])
  {
    hide BitsOf, Laid, LaidHeader, LaidObs, Decoded, HeaderWidth, ObsWidth;
    h, nsat := DecodeHead(sys, buffer);
    var j, i := 0, Start(sys, 0);
    while j < nsat && i + ObsWidth(sys) <= 8 * len
      invariant j <= nsat && i == Start(sys, j)
      invariant forall k | 0 <= k < j :: Present(sys, nsat, len, k) && obs[k] == Decoded(sys, old(obs[k]), LaidObs(sys, buffer[..], k))
      invariant forall k | j <= k < 32 :: obs[k] == old(obs[k])
    {
      obs[j] := GetObs(sys, obs[j], buffer, j);
      NextStart(sys, j);
      j, i := j + 1, i + ObsWidth(sys);
    }
    forall k | j <= k < 32 ensures !Present(sys, nsat, len, k) {
      StartMono(sys, j, k);
    }
  }

  /** What decoding a message of len bytes in the receive buffer m makes of the table of observations: header and
      count are the buffer's, the satellites that are announced and wholly inside are replaced, the others stay. */
  ghost predicate Obtained(sys: System, m: Bytes, len: nat, was: seq<Obs>, h: Header, nsat: nat, now: seq<Obs>)
    requires |m| == BUFFER_SIZE && len <= |m|
  {
    && |was| == |now| == 32
    && (var v := LaidHeader(sys, m); h == Header(v[1], v[2] as real * 0.001, v[3] != 0) && nsat == v[4])
    && forall j | 0 <= j < 32 :: now[j] == if Present(sys, nsat, len, j) then Decoded(sys, was[j], LaidObs(sys, m, j)) else was[j]
  }

  method GetObs(sys: System, o0: Obs, buffer: array<Byte>, j: nat) returns (o: Obs)
    requires Start(sys, j) + ObsWidth(sys) <= 8 * buffer.Length
    ensures o == Decoded(sys, o0, LaidObs(sys, buffer[..], j))
  {
    hide BitsOf, Laid, Decoded, Start;
    ObsKinds(sys, Header(0, 0.0, false), o0);
    if sys == Gps {
      o := GetGps(o0, buffer, Start(sys, j));
    } else {
      o := GetGlo(o0, buffer, Start(sys, j));
    }
  }

  lemma NextStart(sys: System, j: nat)
    ensures Start(sys, j + 1) == Start(sys, j) + ObsWidth(sys)
  {
    hide ObsWidth;
    var w := ObsWidth(sys);
    assert (j + 1) * w == j * w + w;
  }

  lemma {:induction false} StartMono(sys: System, j: nat, k: nat)
    requires j <= k
    ensures Start(sys, j) <= Start(sys, k)
    decreases k
  {
    hide Start;
    if j < k {
      StartMono(sys, j, k - 1);
      NextStart(sys, k - 1);
    }
  }

  // ----- the round trip

  /** Chunk j of width w. */
  predicate Chunk(all: Bits, w: nat, j: nat, part: Bits) {
    j * w + w <= |all| && all[j * w..j * w + w] == part
  }

  lemma {:induction false} FieldsOf(sys: System, h: Header, obs: seq<Obs>, j: nat)
    requires j < |obs|
    ensures Chunk(Pack(AllFields(sys, h, obs)), ObsWidth(sys), j, Pack(ObsFields(sys, h, obs[j])))
    decreases |obs|
  {
    hide Pack, ObsFields, ObsWidth, Chunk, AllFields;
    var n, w := |obs| - 1, ObsWidth(sys);
    LastFields(sys, h, obs);
    var front, last := AllFields(sys, h, obs[..n]), ObsFields(sys, h, obs[n]);
    PackConcat(front, last);
    AllWidth(sys, h, obs[..n]);
    ObsKinds(sys, h, obs[n]);
    ChunkSnoc(Pack(front), Pack(last), w, n);
    if j < n {
      FieldsOf(sys, h, obs[..n], j);
      assert obs[..n][j] == obs[j];
      ChunkKept(Pack(front), Pack(last), w, j, Pack(ObsFields(sys, h, obs[j])));
    }
  }

  lemma LastFields(sys: System, h: Header, obs: seq<Obs>)
    requires obs != []
    ensures var n := |obs| - 1; AllFields(sys, h, obs) == AllFields(sys, h, obs[..n]) + ObsFields(sys, h, obs[n])
  {
  }

  lemma ChunkSnoc(front: Bits, last: Bits, w: nat, n: nat)
    requires |front| == n * w && |last| == w
    ensures Chunk(front + last, w, n, last)
  {
    assert (front + last)[n * w..n * w + w] == last;
  }

  lemma ChunkKept(front: Bits, last: Bits, w: nat, j: nat, part: Bits)
    requires Chunk(front, w, j, part)
    ensures Chunk(front + last, w, j, part)
  {
    assert (front + last)[j * w..j * w + w] == front[j * w..j * w + w];
  }

  lemma FrameBits(sys: System, h: Header, obs: seq<Obs>, f: Bytes)
    requires Encodes(f, Body(sys, h, obs))
    ensures var m, n := f[..|f| - 3], 24 + HeaderWidth(sys) + |obs| * ObsWidth(sys);
            && 8 * |m| >= n && BitsOf(m)[24..24 + HeaderWidth(sys)] == Pack(HeaderFields(sys, h, |obs|))
            && BitsOf(m)[24 + HeaderWidth(sys)..n] == Pack(AllFields(sys, h, obs))
  {
    hide Checked, Field, Pack, BitsOf, HeaderFields, AllFields, HeaderWidth, ObsWidth;
    var m, body, hw := f[..|f| - 3], Pack(Body(sys, h, obs)), HeaderWidth(sys);
    BodyWidth(sys, h, obs);
    HeaderKinds(sys, h, |obs|);
    AllWidth(sys, h, obs);
    PackConcat(HeaderFields(sys, h, |obs|), AllFields(sys, h, obs));
    var bits := BitsOf(m);
    assert |bits| >= 24 && bits[24..][..|body|] == body;
    hide Padded;
    assert bits[24..24 + |body|] == body;
    assert bits[24..24 + hw] == body[..hw] && bits[24 + hw..24 + |body|] == body[hw..];
  }

  lemma ObsBits(sys: System, h: Header, obs: seq<Obs>, f: Bytes, j: nat)
    requires Encodes(f, Body(sys, h, obs)) && j < |obs|
    ensures Present(sys, |obs|, |f| - 3, j)
    ensures BitsOf(f[..|f| - 3])[Start(sys, j)..Start(sys, j) + ObsWidth(sys)] == Pack(ObsFields(sys, h, obs[j]))
  {
    hide IsFrame, Pack, BitsOf, ObsFields, HeaderFields, HeaderWidth, ObsWidth, Encodes, AllFields, Body, Chunk;
    EncodedIsFrame(f, Body(sys, h, obs));
    FrameBits(sys, h, obs, f);
    AllWidth(sys, h, obs);
    FieldsOf(sys, h, obs, j);
    ChunkOf(BitsOf(f[..|f| - 3]), 24 + HeaderWidth(sys), Pack(AllFields(sys, h, obs)), ObsWidth(sys), j, Pack(ObsFields(sys, h, obs[j])));
  }

  lemma ChunkOf(bits: Bits, a: nat, all: Bits, w: nat, j: nat, part: Bits)
    requires a + |all| <= |bits| && bits[a..a + |all|] == all && Chunk(all, w, j, part)
    ensures a + j * w + w <= a + |all| && bits[a + j * w..a + j * w + w] == part
  {
    SliceSlice(bits, a, a + |all|, j * w, j * w + w);
  }

  /** The values of satellite j in the frame are those that were sent. */
  lemma ObsRead(sys: System, h: Header, obs: seq<Obs>, f: Bytes, j: nat)
    requires Encodes(f, Body(sys, h, obs)) && j < |obs|
    ensures Present(sys, |obs|, |f| - 3, j)
    ensures (forall x | x in ObsFields(sys, h, obs[j]) :: InRange(x)) ==>
              LaidObs(sys, f[..|f| - 3], j) == Values(ObsFields(sys, h, obs[j]))
  {
    hide IsFrame, Pack, BitsOf, ObsFields, ObsLayout, HeaderWidth, ObsWidth, Encodes, InRange, Kinds, Values, Body, Parse;
    ObsBits(sys, h, obs, f, j);
    ObsKinds(sys, h, obs[j]);
    ParsePack(ObsFields(sys, h, obs[j]));
  }

  /** The receiver hands the frame over once, with its number. */
  lemma FrameFed(sys: System, h: Header, obs: seq<Obs>, f: Bytes)
    requires Encodes(f, Body(sys, h, obs))
    ensures Feed([], f) == ([], [Received(f, if sys == Gps then 1002 else 1010)])
  {
    hide IsFrame, Encodes, Body, Feed, Type;
    EncodedIsFrame(f, Body(sys, h, obs));
    FeedFrame(f);
    NumberRead(sys, h, obs, f);
  }

  /** The header's values are those that were sent. */
  lemma HeaderRead(sys: System, h: Header, obs: seq<Obs>, f: Bytes)
    requires Encodes(f, Body(sys, h, obs))
    ensures |f| >= 6 && 24 + HeaderWidth(sys) <= 8 * (|f| - 3)
    ensures (forall x | x in HeaderFields(sys, h, |obs|) :: InRange(x)) ==>
              LaidHeader(sys, f[..|f| - 3]) == Values(HeaderFields(sys, h, |obs|))
  {
    hide IsFrame, Pack, BitsOf, HeaderFields, HeaderLayout, HeaderWidth, Encodes, InRange, Kinds, Values, Body, Parse;
    EncodedIsFrame(f, Body(sys, h, obs));
    FrameBits(sys, h, obs, f);
    HeaderKinds(sys, h, |obs|);
    ParsePack(HeaderFields(sys, h, |obs|));
  }

  lemma NumberRead(sys: System, h: Header, obs: seq<Obs>, f: Bytes)
    requires Encodes(f, Body(sys, h, obs))
    ensures Type(f) == Kind(sys)
  {
    hide Checked, BitsOf, Num, Bin, Pack, Body, HeaderLayout, AllFields, Padded, Field;
    var items, m := HeaderFields(sys, h, |obs|), f[..|f| - 3];
    FrameBits(sys, h, obs, f);
    PackPrefix(items, 1);
    assert items[..1] == [items[0]];
    PackOne(items[0]);
    FieldOfPrefix(f, |f| - 3, 24, 12);
    var bits, kind := BitsOf(m), Kind(sys);
    assert bits[24..36] == bits[24..24 + HeaderWidth(sys)][..12] == ItemBits(items[0]) == Bin(kind, 12);
    FieldIs(m, 24, 12);
    assert Pow2(12) == 4096;
    NumBin(kind, 12);
  }

  lemma FieldIs(m: Bytes, pos: nat, len: nat)
    requires pos + len <= 8 * |m|
    ensures Field(m, pos, len) == Num(BitsOf(m)[pos..pos + len])
  {
  }

  // ----- how exact the round trip is

  function AmbBits(sys: System): nat {
    if sys == Gps then 8 else 7
  }

  /** Everything but the phase fits its field; for the range this is a condition on the ambiguity alone. */
  predicate Sendable(sys: System, h: Header, o: Obs) {
    && o.prn < 64 && (sys == Glo ==> o.freq < 32) && o.lock < 128 && o.cn0 < 64
    && 0 <= Amb(sys, h, o) < Pow2(AmbBits(sys))
  }

  lemma Powers()
    ensures Pow2(1) == 2 && Pow2(5) == 32 && Pow2(6) == 64 && Pow2(7) == 128 && Pow2(8) == 256
    ensures Pow2(24) == 16777216 && Pow2(25) == 33554432
  {
    assert Pow2(8) == 256;
    assert Pow2(16) == 65536;
    assert Pow2(24) == 16777216;
  }

  /** The remainder after the ambiguity has been taken out. */
  lemma Remainder(x: real, u: real)
    requires u > 0.0
    ensures 0.0 <= x - (x / u).Floor as real * u < u
  {
    var q := x / u;
    QuotientTimes(x, u);
    FloorNear(q);
    Spread(q, q.Floor as real, u, x);
  }

  lemma QuotientTimes(x: real, u: real)
    requires u > 0.0
    ensures x / u * u == x
  {
  }

  lemma FloorNear(q: real)
    ensures 0.0 <= q - q.Floor as real < 1.0
  {
  }

  lemma Spread(q: real, n: real, u: real, x: real)
    requires u > 0.0 && 0.0 <= q - n < 1.0 && q * u == x
    ensures 0.0 <= x - n * u && x - n * u < u
  {
    Product(q - n, u);
    assert (q - n) * u == q * u - n * u;
    var c := 1.0 - q + n;
    ProductPositive(c, u);
    var m := c * u;
    assert m > 0.0;
    assert m == u - q * u + n * u;
  }

  /** The corrections are those for the time that rounding the epoch leaves over, at the speed of light for the range and at
      the carrier's frequency for the phase. */
  lemma Corrected(sys: System, h: Header, o: Obs, shift: real)
    requires shift == h.time - Epoch(h) as real * 0.001
    ensures P0(h, o) == if o.p == 0.0 then 0.0 else o.p - shift * 299792458.0
    ensures L0(sys, h, o) == if o.l == 0.0 then 0.0 else o.l - shift * Carrier(sys, o.freq)
    ensures Carrier(sys, o.freq) == if sys == Gps then 1575420000.0 else 1602000000.0 + 562500.0 * (o.freq as real - 7.0)
    ensures Lam(sys, o.freq) == 299792458.0 / Carrier(sys, o.freq)
  {
    assert Tadj(h) == shift;
    hide Tadj, Epoch;
  }

  lemma PrInRange(sys: System, h: Header, o: Obs)
    ensures 0 <= Pr(sys, h, o) < if sys == Gps then 16777216 else 33554432
    ensures var shift := h.time - Epoch(h) as real * 0.001;
            var p := if o.p == 0.0 then 0.0 else o.p - shift * 299792458.0;
            -0.01 <= Range(sys, Pr(sys, h, o), Amb(sys, h, o)) - p <= 0.01
    ensures -0.01 <= Range(sys, Pr(sys, h, o), Amb(sys, h, o)) - P0(h, o) <= 0.01
  {
    Corrected(sys, h, o, h.time - Epoch(h) as real * 0.001);
    var x, u := P0(h, o), PrUnit(sys);
    Remainder(x, u);
    hide P0;
    var y := x - Amb(sys, h, o) as real * u;
    RoundNear(y / 0.02);
  }

  lemma FieldsInRange(sys: System, h: Header, o: Obs)
    ensures (forall x | x in ObsFields(sys, h, o) :: InRange(x)) <==> Sendable(sys, h, o) && Fits(Ppr(sys, h, o), 20)
  {
    PrInRange(sys, h, o);
    Powers();
    hide Pow2, Fits, Ppr, Pr, Amb;
    var f := ObsFields(sys, h, o);
    if forall x | x in f :: InRange(x) {
      assert InRange(f[0]) && InRange(f[2]) && InRange(f[3]) && InRange(f[4]) && InRange(f[5]) && InRange(f[6]);
      assert sys == Glo ==> InRange(f[7]);
    }
  }

  /** What the receiver must have for o: range and phase relate to those corrected for the time tag, the phase
      up to whole multiples of 3000 cycles. */
  ghost predicate Carried(sys: System, h: Header, o: Obs, r: Obs) {
    && r.prn == o.prn && r.lock == o.lock && r.cn0 == o.cn0 && (sys == Glo ==> r.freq == o.freq)
    && r.code == (if o.code == CODE_L1C then CODE_L1C else CODE_L1P)
    && -0.01 <= r.p - P0(h, o) <= 0.01
    && SamePhase(r.l, L0(sys, h, o), Lam(sys, o.freq), 0.00025)
  }

  lemma TimeNear(h: Header)
    ensures -0.0005 <= Epoch(h) as real * 0.001 - h.time <= 0.0005
  {
    RoundNear(h.time / 0.001);
  }

  /** What the receiver must have for o, told in terms of o and of the seconds by which the time sent is early. */
  ghost predicate Agrees(sys: System, shift: real, o: Obs, r: Obs) {
    && r.prn == o.prn && r.lock == o.lock && r.cn0 == o.cn0 && (sys == Glo ==> r.freq == o.freq)
    && r.code == (if o.code == 1 then 1 else 2)
    && (var p := if o.p == 0.0 then 0.0 else o.p - shift * 299792458.0; -0.01 <= r.p - p <= 0.01)
    && var f := if sys == Gps then 1575420000.0 else 1602000000.0 + 562500.0 * (o.freq as real - 7.0);
       SamePhase(r.l, if o.l == 0.0 then 0.0 else o.l - shift * f, 299792458.0 / f, 0.00025)
  }

  lemma CarriedAgrees(sys: System, h: Header, o: Obs, r: Obs, shift: real)
    requires Carried(sys, h, o, r) && shift == h.time - Epoch(h) as real * 0.001
    ensures Agrees(sys, shift, o, r)
  {
    Corrected(sys, h, o, shift);
    hide P0, L0, Lam, Epoch, Carrier, SamePhase;
  }

  /** Phases no further apart than the given distance, up to whole multiples of 3000 cycles. */
  ghost predicate SamePhase(l: real, l0: real, lam: real, near: real) {
    exists k: int :: -near <= (l + PhaseWrap(k) - l0) * lam <= near
  }

  function PhaseWrap(k: int): real {
    3000.0 * k as real
  }

  lemma PhaseNear(l0: real, range: real, lam: real, ppr: int)
    requires lam > 0.0 && ppr == PhaseSteps(l0, range, lam)
    ensures SamePhase(Phase(range, lam, ppr), l0, lam, 0.00025)
  {
    var c := CpPr(l0, range / lam);
    var k := Trunc((l0 - range / lam + 1500.0) / 3000.0);
    assert c == l0 - range / lam - PhaseWrap(k);
    RoundNear(c * lam / 0.0005);
    var e := ppr as real * 0.0005 / lam;
    assert e * lam == ppr as real * 0.0005;
    hide CpPr, PhaseWrap, Round;
    var d := range / lam + e + PhaseWrap(k) - l0;
    assert d == e - c;
    assert d * lam == e * lam - c * lam;
    assert -0.00025 <= d * lam <= 0.00025;
  }

  lemma SameLam(sys: System, v: seq<int>, freq: Byte)
    requires |v| == |ObsLayout(sys)| && (sys == Glo ==> v[2] == freq)
    ensures Lam(sys, CarrierOf(sys, v)) == Lam(sys, freq)
  {
  }

  lemma DecodedIs(sys: System, h: Header, o0: Obs, o: Obs)
    requires Sendable(sys, h, o) && Ppr(sys, h, o) != INVALID_PPR
    ensures var range, lam := Range(sys, Pr(sys, h, o), Amb(sys, h, o)), Lam(sys, o.freq);
            Decoded(sys, o0, Values(ObsFields(sys, h, o))) ==
            Obs(o.prn, if sys == Gps then o0.freq else o.freq, range, Phase(range, lam, Ppr(sys, h, o)),
                o.lock, o.cn0, if o.code == CODE_L1C then CODE_L1C else CODE_L1P)
  {
    hide Amb, Pr, Ppr, Range, Pow2, Phase, Lam;
    var v := Values(ObsFields(sys, h, o));
    SameLam(sys, v, o.freq);
  }

  /** A satellite whose fields fit, and whose phase is not the invalid marker, is carried over. */
  lemma ObsRestored(sys: System, h: Header, o0: Obs, o: Obs)
    requires Sendable(sys, h, o) && Ppr(sys, h, o) != INVALID_PPR
    ensures Carried(sys, h, o, Decoded(sys, o0, Values(ObsFields(sys, h, o))))
  {
    hide Decoded, Amb, Pr, L0, P0, Range, PhaseWrap, Lam, ObsFields, Values, Sendable, Phase, SamePhase, PhaseSteps;
    var range, lam := Range(sys, Pr(sys, h, o), Amb(sys, h, o)), Lam(sys, o.freq);
    PhaseNear(L0(sys, h, o), range, lam, Ppr(sys, h, o));
    PrInRange(sys, h, o);
    DecodedIs(sys, h, o0, o);
  }

  /** Every field fits, and the phase is not the marker of an invalid one. */
  predicate Transmittable(sys: System, h: Header, o: Obs) {
    Sendable(sys, h, o) && Fits(Ppr(sys, h, o), 20) && Ppr(sys, h, o) != -524288
  }

  /** Phases are compared modulo 3000 cycles, the way C divides: what is left over has the sign of the phase. */
  lemma CpPrIs(cp: real, pr: real)
    ensures var d := cp - pr;
            && (-1500.0 <= d < 1500.0 ==> CpPr(cp, pr) == d)
            && (if d >= -1500.0 then -1500.0 <= CpPr(cp, pr) < 1500.0 else -4500.0 < CpPr(cp, pr) <= -1500.0)
            && exists k: int :: CpPr(cp, pr) == d - PhaseWrap(k)
  {
    var x := cp - pr + 1500.0;
    TruncNear(x / 3000.0);
    assert CpPr(cp, pr) == cp - pr - PhaseWrap(Trunc(x / 3000.0));
  }

  /** A phase within 262 m of its range can always be sent, and is rebuilt as it was, without a turn too many. */
  lemma PhaseExact(sys: System, h: Header, o: Obs)
    requires Sendable(sys, h, o) && (o.freq < 32 || sys == Gps)
    requires -262.0 <= L0(sys, h, o) * Lam(sys, o.freq) - P0(h, o) <= 262.0
    ensures Transmittable(sys, h, o)
    ensures var range := Range(sys, Pr(sys, h, o), Amb(sys, h, o));
            -0.00025 <= (Phase(range, Lam(sys, o.freq), Ppr(sys, h, o)) - L0(sys, h, o)) * Lam(sys, o.freq) <= 0.00025
  {
    hide L0, P0, Range, Pr, Amb, Sendable, Lam, Pow2, Phase;
    PrInRange(sys, h, o);
    LamRange(sys, o.freq);
    LamLeast(sys, o.freq);
    ExactSteps(L0(sys, h, o), Range(sys, Pr(sys, h, o), Amb(sys, h, o)), Lam(sys, o.freq));
    FewSteps();
  }

  lemma FewSteps()
    ensures forall v: int | -524287 <= v < 524288 :: Fits(v, 20)
  {
    assert Pow2(8) == 256;
    assert Pow2(16) == 65536;
    assert Pow2(19) == 524288;
  }

  lemma LamLeast(sys: System, freq: Byte)
    requires freq < 32 || sys == Gps
    ensures Lam(sys, freq) > 0.18
  {
  }

  lemma ExactSteps(l0: real, range: real, lam: real)
    requires lam > 0.18 && -262.01 <= l0 * lam - range <= 262.01
    ensures -524287 <= PhaseSteps(l0, range, lam) < 524288
    ensures -0.00025 <= (Phase(range, lam, PhaseSteps(l0, range, lam)) - l0) * lam <= 0.00025
  {
    var d := l0 - range / lam;
    assert d * lam == l0 * lam - range;
    Quotient(d, lam, d * lam);
    CpPrIs(l0, range / lam);
    hide CpPr;
    var n := PhaseSteps(l0, range, lam);
    RoundNear(d * lam / 0.0005);
    var e := n as real * 0.0005 / lam;
    assert e * lam == n as real * 0.0005;
    hide Round, PhaseSteps;
    assert Phase(range, lam, n) - l0 == e - d;
    assert (e - d) * lam == e * lam - d * lam;
  }

  lemma Quotient(d: real, lam: real, m: real)
    requires lam > 0.18 && m == d * lam && -270.0 < m < 270.0
    ensures -1500.0 < d < 1500.0
  {
    if d >= 1500.0 {
      ProductPositive(lam - 0.18, d);
    } else if d <= -1500.0 {
      ProductPositive(lam - 0.18, -d);
    }
  }

  /** A satellite in the frame stands there as the encoder was given it. */
  lemma ObservationCarried(sys: System, h: Header, obs: seq<Obs>, f: Bytes, j: nat, o0: Obs)
    requires Encodes(f, Body(sys, h, obs)) && j < |obs|
    requires Transmittable(sys, h, obs[j])
    ensures Present(sys, |obs|, |f| - 3, j) && Carried(sys, h, obs[j], Decoded(sys, o0, LaidObs(sys, f[..|f| - 3], j)))
    ensures Agrees(sys, h.time - Epoch(h) as real * 0.001, obs[j], Decoded(sys, o0, LaidObs(sys, f[..|f| - 3], j)))
  {
    hide Encodes, Body, ObsFields, InRange, Sendable, Carried, Agrees, Decoded, LaidObs, Values, Ppr, Fits, ObsWidth, HeaderWidth;
    FieldsInRange(sys, h, obs[j]);
    ObsRead(sys, h, obs, f, j);
    ObsRestored(sys, h, o0, obs[j]);
    CarriedAgrees(sys, h, obs[j], Decoded(sys, o0, LaidObs(sys, f[..|f| - 3], j)), h.time - Epoch(h) as real * 0.001);
  }

  // ----- from the encoder's table to the decoder's

  lemma HeaderFieldRead(sys: System, h: Header, obs: seq<Obs>, f: Bytes, k: nat)
    requires Encodes(f, Body(sys, h, obs)) && k < 7
    ensures |f| >= 6 && 24 + HeaderWidth(sys) <= 8 * (|f| - 3)
    ensures var x := HeaderFields(sys, h, |obs|)[k];
            LaidHeader(sys, f[..|f| - 3])[k] == Value(x.kind, ItemBits(x))
  {
    hide IsFrame, Pack, BitsOf, HeaderLayout, HeaderWidth, Encodes, InRange, Kinds, Body, Parse, Value, ItemBits, Epoch;
    EncodedIsFrame(f, Body(sys, h, obs));
    FrameBits(sys, h, obs, f);
    HeaderKinds(sys, h, |obs|);
    FieldRead(HeaderFields(sys, h, |obs|), k);
  }

  /** The number of satellites read is the number sent modulo 32, whatever else the header holds; so it survives
      if and only if there are fewer than 32. */
  lemma CountRead(sys: System, h: Header, obs: seq<Obs>, f: Bytes)
    requires Encodes(f, Body(sys, h, obs))
    ensures |f| >= 6 && 24 + HeaderWidth(sys) <= 8 * (|f| - 3)
    ensures LaidHeader(sys, f[..|f| - 3])[4] == |obs| % 32
    ensures LaidHeader(sys, f[..|f| - 3])[4] == |obs| <==> |obs| < 32
  {
    hide Encodes, Body, LaidHeader, Value, ItemBits, Epoch, HeaderWidth;
    HeaderFieldRead(sys, h, obs, f, 4);
    UnsignedRead(5, |obs|);
    FewSatellites();
  }

  /** Station and time fit their fields: then, and only then, they are read as they were sent. */
  predicate HeaderSendable(sys: System, h: Header) {
    0 <= h.staid < 4096 && 0 <= Epoch(h) < if sys == Gps then 0x40000000 else 0x8000000
  }

  lemma HeaderPowers()
    ensures Pow2(1) == 2 && Pow2(12) == 4096 && Pow2(27) == 0x8000000 && Pow2(30) == 0x40000000
  {
    assert Pow2(8) == 256;
    assert Pow2(16) == 65536;
    assert Pow2(24) == 16777216;
  }

  /** The station, the time to the millisecond and the flag are those sent, whatever the number of satellites. */
  lemma HeaderCarried(sys: System, h: Header, obs: seq<Obs>, f: Bytes)
    requires Encodes(f, Body(sys, h, obs))
    ensures |f| >= 6 && 24 + HeaderWidth(sys) <= 8 * (|f| - 3)
    ensures var v := LaidHeader(sys, f[..|f| - 3]);
            (v[1] == h.staid && v[2] == Epoch(h) <==> HeaderSendable(sys, h)) && (v[3] != 0 <==> h.sync)
  {
    hide Encodes, Body, LaidHeader, Value, ItemBits, Epoch, HeaderWidth, Pow2;
    HeaderPowers();
    HeaderFieldRead(sys, h, obs, f, 1);
    HeaderFieldRead(sys, h, obs, f, 2);
    HeaderFieldRead(sys, h, obs, f, 3);
    ItemRoundTrip(Item(U(12), h.staid));
    ItemRoundTrip(Item(U(if sys == Gps then 30 else 27), Epoch(h)));
    UnsignedRead(1, if h.sync then 1 else 0);
  }

  /** What lies in the first bytes of the buffer is read there. */
  lemma SameInBuffer(sys: System, m: Bytes, buffer: Bytes)
    requires m <= buffer && 24 + HeaderWidth(sys) <= 8 * |m|
    ensures LaidHeader(sys, buffer) == LaidHeader(sys, m)
    ensures forall j: nat | Start(sys, j) + ObsWidth(sys) <= 8 * |m| :: LaidObs(sys, buffer, j) == LaidObs(sys, m, j)
  {
    hide BitsOf, Laid, HeaderLayout, ObsLayout, HeaderWidth, ObsWidth, Start;
    HeaderKinds(sys, Header(0, 0.0, false), 0);
    BitsOfPrefix(buffer, |m|);
    assert buffer[..|m|] == m;
    SamePrefix(BitsOf(m), BitsOf(buffer), 24, HeaderLayout(sys));
    forall j: nat | Start(sys, j) + ObsWidth(sys) <= 8 * |m| ensures LaidObs(sys, buffer, j) == LaidObs(sys, m, j) {
      ObsKinds(sys, Header(0, 0.0, false), Obs(0, 0, 0.0, 0.0, 0, 0, 0));
      SamePrefix(BitsOf(m), BitsOf(buffer), Start(sys, j), ObsLayout(sys));
    }
  }

  lemma SamePrefix(a: Bits, b: Bits, start: nat, l: Layout)
    requires a <= b && start + Width(l) <= |a|
    ensures Laid(a, start, l) == Laid(b, start, l)
  {
    hide Laid, Width;
    assert a[start..start + Width(l)] == b[start..start + Width(l)];
    SameLaid(a, b, start, l);
  }

  /** From the observations given to the encoder to the table the decoder leaves behind, with the frame at the
      start of its buffer: the number of satellites modulo 32, and of those all that can be sent; with up to 31
      of them, all. */
  lemma MessageCarried(sys: System, h: Header, obs: seq<Obs>, f: Bytes, buffer: Bytes,
                       was: seq<Obs>, h1: Header, nsat: nat, now: seq<Obs>)
    requires Encodes(f, Body(sys, h, obs)) && |buffer| == BUFFER_SIZE && 6 <= |f| <= |buffer| && buffer[..|f|] == f
    requires Obtained(sys, buffer, |f| - 3, was, h1, nsat, now)
    ensures nsat == |obs| % 32 <= |obs| && (nsat == |obs| <==> |obs| < 32)
    ensures HeaderSendable(sys, h) ==> h1 == Header(h.staid, Epoch(h) as real * 0.001, h.sync)
    ensures forall j | 0 <= j < nsat && j < |obs| && Transmittable(sys, h, obs[j]) ::
              && Carried(sys, h, obs[j], now[j]) && Agrees(sys, h.time - Epoch(h) as real * 0.001, obs[j], now[j])
              && (HeaderSendable(sys, h) ==> Agrees(sys, h.time - h1.time, obs[j], now[j]))
    ensures HeaderSendable(sys, h) ==> -0.0005 <= h1.time - h.time <= 0.0005
    ensures forall j | nsat <= j < 32 :: now[j] == was[j]
  {
    hide Encodes, Body, LaidHeader, LaidObs, Transmittable, Carried, Agrees, Decoded, ObsWidth, HeaderWidth, HeaderSendable, Start, Epoch;
    var m := f[..|f| - 3];
    assert m <= buffer;
    CountRead(sys, h, obs, f);
    SameInBuffer(sys, m, buffer);
    if HeaderSendable(sys, h) {
      HeaderCarried(sys, h, obs, f);
      TimeNear(h);
    }
    forall j | 0 <= j < nsat && j < |obs| && Transmittable(sys, h, obs[j])
      ensures Carried(sys, h, obs[j], now[j]) && Agrees(sys, h.time - Epoch(h) as real * 0.001, obs[j], now[j])
    {
      ObservationCarried(sys, h, obs, f, j, was[j]);
    }
  }
}
