/** The configuration as it travels in packets: big-endian fields, and trailing groups that may be missing. */
module ConfigWire {
  import opened Octets
  import opened Arithmetic

  // ----- integers

  function Bytes16(v: int): (b: Bytes)
    ensures |b| == 2
  {
    [v / 256 % 256, v % 256]
  }

  function Bytes32(v: int): (b: Bytes)
    ensures |b| == 4
  {
    Bytes16(v / 65536) + Bytes16(v)
  }

  function Get16(data: Bytes, i: nat): Half
    requires i + 2 <= |data|
  {
    Number(data[i], data[i + 1])
  }

  function Get32(data: Bytes, i: nat): (n: nat)
    requires i + 4 <= |data|
    ensures n < 0x1_0000_0000
  {
    65536 * Get16(data, i) + Get16(data, i + 2)
  }

  /** Reading an unsigned word as two's complement. */
  function Signed(n: nat, bits: nat): int {
    if n < Pow2(bits) / 2 then n else n - Pow2(bits)
  }

  lemma Read16(v: int, data: Bytes, i: nat)
    requires i + 2 <= |data| && data[i..i + 2] == Bytes16(v)
    ensures Get16(data, i) == v % 65536
  {
    assert data[i] == data[i..i + 2][0] && data[i + 1] == data[i..i + 2][1];
  }

  lemma Read32(v: int, data: Bytes, i: nat)
    requires i + 4 <= |data| && data[i..i + 4] == Bytes32(v)
    ensures Get32(data, i) == v % 0x1_0000_0000
  {
    assert data[i..i + 2] == Bytes32(v)[..2] == Bytes16(v / 65536) && data[i + 2..i + 4] == Bytes32(v)[2..] == Bytes16(v);
    Read16(v / 65536, data, i);
    Read16(v, data, i + 2);
    hide Bytes16, Bytes32, Get16;
    Join16(v);
  }

  lemma Join16(v: int)
    ensures 65536 * (v / 65536 % 65536) + v % 65536 == v % 0x1_0000_0000
  {
    var q := v / 65536;
    QuotientIs(v, 0x1_0000_0000, q / 65536, 65536 * (q % 65536) + v % 65536);
  }

  lemma SignedInverse(v: int, bits: nat)
    requires bits > 0
    ensures Signed(v % Pow2(bits), bits) == v <==> -(Pow2(bits) / 2) <= v < Pow2(bits) / 2
  {
    var p := Pow2(bits);
    var h := Pow2(bits - 1);
    assert p == 2 * h && p / 2 == h;
    if -h <= v < 0 {
      QuotientIs(v, p, -1, v + p);
    } else if 0 <= v < h {
      QuotientIs(v, p, 0, v);
    }
  }

  // ----- floats

  const FRACTION: nat := 8388608  // 2 to the 23rd

  type Exponent = e: nat | 1 <= e <= 254 witness 1
  type Fraction = f: nat | f < FRACTION

  /** A binary32 number; anything but zero and the normal numbers is kept as the word it was read from. */
  datatype Float = Zero | Normal(neg: bool, exp: Exponent, frac: Fraction) | Irregular(word: nat)

  /** Two to a power that may be negative. */
  function Power(e: int): (p: real)
    ensures p > 0.0
    decreases if e < 0 then -e else e
  {
    if e == 0 then 1.0 else if e > 0 then 2.0 * Power(e - 1) else Power(e + 1) / 2.0
  }

  /** Section 3.4 of IEEE 754-2008. */
  function Value(x: Float): real
    requires !x.Irregular?
  {
    match x
    case Zero => 0.0
    case Normal(neg, exp, frac) =>
      var m := (1.0 + frac as real / FRACTION as real) * Power(exp - 127);
      if neg then -m else m
  }

  /** The interchange format of the same section. */
  function Pattern(x: Float): nat
    requires !x.Irregular?
  {
    match x
    case Zero => 0
    case Normal(neg, exp, frac) => (if neg then 0x8000_0000 else 0) + exp * FRACTION + frac
  }

  /** frexpf: the significand in [0.5, 1), signed, and the exponent. */
  function Frexp(x: Float): (real, int)
    requires !x.Irregular?
  {
    match x
    case Zero => (0.0, 0)
    case Normal(neg, exp, frac) =>
      var s := 0.5 + frac as real / (2.0 * FRACTION as real);
      (if neg then -s else s, exp - 126)
  }

  function Ldexp(s: real, e: int): real {
    s * Power(e)
  }

  lemma FrexpIsExact(x: Float)
    requires !x.Irregular?
    ensures var (s, e) := Frexp(x); Ldexp(s, e) == Value(x) && (x.Normal? ==> 0.5 <= s < 1.0 || -1.0 < s <= -0.5)
  {
    if x.Normal? {
      var s := 0.5 + x.frac as real / (2.0 * FRACTION as real);
      PowerNext(x.exp - 127);
      HalfTwice(s, Power(x.exp - 127));
    }
  }

  lemma PowerNext(e: int)
    ensures Power(e + 1) == 2.0 * Power(e)
  {
  }

  lemma HalfTwice(s: real, p: real)
    ensures s * (2.0 * p) == (2.0 * s) * p && -s * (2.0 * p) == -((2.0 * s) * p)
  {
  }

  /** buffer_append_float32_auto: the word appended. */
  function WordOf(x: Float): nat
    requires !x.Irregular?
  {
    var (sig, e) := Frexp(x);
    var a := if sig < 0.0 then -sig else sig;
    var sigI := if a >= 0.5 then ((a - 0.5) * 2.0 * 8388608.0).Floor else 0;
    var e' := if a >= 0.5 then e + 126 else e;
    (if sig < 0.0 then 0x8000_0000 else 0) + e' % 256 * 8388608 + sigI % 8388608
  }

  /** What is sent for a zero or normal number is its interchange format. */
  lemma WordIsPattern(x: Float)
    requires !x.Irregular?
    ensures WordOf(x) == Pattern(x)
  {
    if x.Normal? {
      var f := x.frac as real;
      var a := 0.5 + f / (2.0 * FRACTION as real);
      assert (a - 0.5) * 2.0 * 8388608.0 == f;
    }
  }

  /** buffer_get_float32_auto: the number a word stands for. */
  function RealOf(word: nat): real {
    var e := word / FRACTION % 256;
    var sigI := word % FRACTION;
    var some := e != 0 || sigI != 0;
    var sig := if some then sigI as real / (8388608.0 * 2.0) + 0.5 else 0.0;
    Ldexp(if word / 0x8000_0000 % 2 == 1 then -sig else sig, if some then e - 126 else e)
  }

  /** The same word as a binary32 number. */
  function FloatOf(word: nat): Float {
    var e := word / FRACTION % 256;
    if word == 0 then Zero
    else if 1 <= e <= 254 && word < 0x1_0000_0000 then Normal(word / 0x8000_0000 == 1, e, word % FRACTION)
    else Irregular(word)
  }

  lemma PatternParts(x: Float)
    requires x.Normal?
    ensures var w := Pattern(x);
            && w % FRACTION == x.frac && w / FRACTION % 256 == x.exp && (w / 0x8000_0000 == 1 <==> x.neg) && w < 0x1_0000_0000
            && (w / 0x8000_0000 % 2 == 1 <==> x.neg) && w != 0
  {
  }

  /** Zero and every normal number survive the wire exactly. */
  lemma FloatRoundTrip(x: Float)
    requires !x.Irregular?
    ensures FloatOf(WordOf(x)) == x && RealOf(WordOf(x)) == Value(x)
  {
    WordIsPattern(x);
    FrexpIsExact(x);
    if x.Normal? {
      PatternParts(x);
      hide Pattern, WordOf, Ldexp, Value;
    }
  }

  // ----- the leading fields

  /** A field of one byte, of one byte read as a flag, of two and four bytes, a float, a name. */
  datatype Kind = Octet | Flag | Int16 | Word16 | Int32 | Auto | Text

  datatype Item = Int(v: int) | Real(x: Float) | Str(name: Bytes)

  const LOG_NAME_MAX_LEN: nat := 20

  predicate Fits(k: Kind, f: Item) {
    match k
    case Octet => f.Int? && 0 <= f.v < 256
    case Flag => f.Int? && 0 <= f.v < 2
    case Int16 => f.Int? && -0x8000 <= f.v < 0x8000
    case Word16 => f.Int? && 0 <= f.v < 0x10000
    case Int32 => f.Int? && -0x8000_0000 <= f.v < 0x8000_0000
    case Auto => f.Real? && !f.x.Irregular?
    case Text => f.Str? && |f.name| <= LOG_NAME_MAX_LEN && 0 !in f.name
  }

  function Enc(k: Kind, f: Item): (b: Bytes)
    requires Fits(k, f)
    ensures b != []
  {
    match k
    case Octet => [f.v]
    case Flag => [f.v]
    case Int16 => Bytes16(f.v)
    case Word16 => Bytes16(f.v)
    case Int32 => Bytes32(f.v)
    case Auto => Bytes32(WordOf(f.x))
    case Text => f.name + [0]
  }

  /** The bytes up to the first zero. */
  function Name(data: Bytes, i: nat): (n: Bytes)
    requires i <= |data|
    ensures i + |n| <= |data|
    decreases |data| - i
  {
    if i == |data| || data[i] == 0 then [] else [data[i]] + Name(data, i + 1)
  }

  /** The field read at i, and where the next one starts; none when the data ends too early. */
  function Dec(k: Kind, data: Bytes, i: nat): (Item, nat)
    requires i <= |data|
  {
    match k
    case Octet => if i + 1 <= |data| then (Int(data[i]), i + 1) else (Int(0), |data|)
    case Flag => if i + 1 <= |data| then (Int(if data[i] != 0 then 1 else 0), i + 1) else (Int(0), |data|)
    case Int16 => if i + 2 <= |data| then (Int(Signed(Get16(data, i), 16)), i + 2) else (Int(0), |data|)
    case Word16 => if i + 2 <= |data| then (Int(Get16(data, i)), i + 2) else (Int(0), |data|)
    case Int32 => if i + 4 <= |data| then (Int(Signed(Get32(data, i), 32)), i + 4) else (Int(0), |data|)
    case Auto => if i + 4 <= |data| then (Real(FloatOf(Get32(data, i))), i + 4) else (Real(Zero), |data|)
    case Text => (Str(Name(data, i)), if i + |Name(data, i)| + 1 <= |data| then i + |Name(data, i)| + 1 else |data|)
  }

  lemma {:induction false} NameRead(data: Bytes, i: nat, name: Bytes)
    requires i + |name| + 1 <= |data| && data[i..i + |name| + 1] == name + [0] && 0 !in name
    ensures Name(data, i) == name
    decreases |name|
  {
    var t := name + [0];
    assert data[i] == data[i..i + |name| + 1][0] == t[0];
    if name != [] {
      assert data[i + 1..i + 1 + |name[1..]| + 1] == data[i..i + |name| + 1][1..] == name[1..] + [0];
      NameRead(data, i + 1, name[1..]);
    }
  }

  lemma Powers()
    ensures Pow2(16) == 65536 && Pow2(32) == 0x1_0000_0000
  {
    assert Pow2(8) == 256;
    assert Pow2(16) == 65536;
    assert Pow2(24) == 16777216;
  }

  lemma FieldRead(k: Kind, f: Item, data: Bytes, i: nat)
    requires Fits(k, f) && i + |Enc(k, f)| <= |data| && data[i..i + |Enc(k, f)|] == Enc(k, f)
    ensures Dec(k, data, i) == (f, i + |Enc(k, f)|)
  {
    hide Pow2, Bytes16, Bytes32, Get16, Get32, WordOf, FloatOf, Signed;
    Powers();
    match k
    case Octet => ByteRead(data, i);
    case Flag => ByteRead(data, i);
    case Int16 =>
      Read16(f.v, data, i);
      SignedInverse(f.v, 16);
    case Word16 =>
      Read16(f.v, data, i);
    case Int32 =>
      Read32(f.v, data, i);
      SignedInverse(f.v, 32);
    case Auto =>
      Read32(WordOf(f.x), data, i);
      WordSmall(f.x);
      FloatRoundTrip(f.x);
    case Text =>
      NameRead(data, i, f.name);
  }

  /** A field that lies inside the data is read as one that can be sent again, unless it is a number that is not normal or a
      name of more than 20 bytes. */
  lemma ReadFits(k: Kind, data: Bytes, i: nat)
    requires i + Size(k) <= |data|
    ensures Fits(k, Dec(k, data, i).0) <==>
              && (k == Auto ==> !FloatOf(Get32(data, i)).Irregular?)
              && (k == Text ==> |Name(data, i)| <= 20)
  {
    hide FloatOf, Get16, Get32, Signed, Name;
    match k
    case Int16 => SignedRange(Get16(data, i), 16);
    case Int32 => SignedRange(Get32(data, i), 32);
    case Text => NameNonzero(data, i);
    case _ =>
  }

  lemma SignedRange(n: nat, bits: nat)
    requires (bits == 16 && n < 0x10000) || (bits == 32 && n < 0x1_0000_0000)
    ensures if bits == 16 then -0x8000 <= Signed(n, bits) < 0x8000 else -0x8000_0000 <= Signed(n, bits) < 0x8000_0000
  {
    hide Pow2;
    Powers();
  }

  lemma {:induction false} NameNonzero(data: Bytes, i: nat)
    requires i <= |data|
    ensures 0 !in Name(data, i)
    decreases |data| - i
  {
    if i < |data| && data[i] != 0 {
      NameNonzero(data, i + 1);
    }
  }

  lemma ByteRead(data: Bytes, i: nat)
    requires i < |data|
    ensures data[i..i + 1] == [data[i]]
  {
  }

  lemma WordSmall(x: Float)
    requires !x.Irregular?
    ensures WordOf(x) % 0x1_0000_0000 == WordOf(x)
  {
    WordIsPattern(x);
    if x.Normal? {
      PatternParts(x);
    }
  }

  predicate AllFit(ks: seq<Kind>, fs: seq<Item>) {
    |ks| == |fs| && forall i | 0 <= i < |ks| :: Fits(ks[i], fs[i])
  }

  function EncAll(ks: seq<Kind>, fs: seq<Item>): Bytes
    requires AllFit(ks, fs)
  {
    if ks == [] then [] else Enc(ks[0], fs[0]) + EncAll(ks[1..], fs[1..])
  }

  function DecAll(ks: seq<Kind>, data: Bytes, i: nat): (seq<Item>, nat)
    requires i <= |data|
    decreases |ks|
  {
    if ks == [] then ([], i)
    else
      var (f, j) := Dec(ks[0], data, i);
      DecInside(ks[0], data, i);
      var (fs, n) := DecAll(ks[1..], data, j);
      ([f] + fs, n)
  }

  lemma DecInside(k: Kind, data: Bytes, i: nat)
    requires i <= |data|
    ensures Dec(k, data, i).1 <= |data|
  {
  }

  /** Reading the fields one after another gives back what was written one after another. */
  lemma {:induction false} FieldsRead(ks: seq<Kind>, fs: seq<Item>, data: Bytes, i: nat)
    requires AllFit(ks, fs) && i + |EncAll(ks, fs)| <= |data| && data[i..i + |EncAll(ks, fs)|] == EncAll(ks, fs)
    ensures DecAll(ks, data, i) == (fs, i + |EncAll(ks, fs)|)
    decreases |ks|
  {
    hide Enc, Dec, Fits;
    if ks != [] {
      var a, b := Enc(ks[0], fs[0]), EncAll(ks[1..], fs[1..]);
      var m := data[i..i + |a| + |b|];
      assert data[i..i + |a|] == m[..|a|] == a && data[i + |a|..i + |a| + |b|] == m[|a|..] == b;
      FieldRead(ks[0], fs[0], data, i);
      FieldsRead(ks[1..], fs[1..], data, i + |a|);
      assert [fs[0]] + fs[1..] == fs;
    }
  }

  /** The fields every packet carries, in the order both sides use: the name is the only one without a fixed size. */
  function BaseLayout(): seq<Kind> {
    BaseFront() + ([Text] + BaseBack())
  }

  function BaseFront(): seq<Kind> {
    Compass() + Positioning() + Following() + Logging()
  }

  /** Use, compensate, gain, calibration. */
  function Compass(): seq<Kind> {
    [Flag, Flag, Auto] + Autos(12)
  }

  /** Satellites and radio. */
  function Positioning(): seq<Kind> {
    [Auto, Auto, Flag, Flag, Flag, Auto] + [Auto, Auto, Flag, Flag, Auto, Auto]
  }

  function Following(): seq<Kind> {
    [Flag, Auto, Auto, Octet, Auto, Int32]
  }

  /** Rate, enabled. */
  function Logging(): seq<Kind> {
    [Int16, Flag]
  }

  function BaseBack(): seq<Kind> {
    LoggingTo() + Vehicle() + Autos(15)
  }

  /** Mode, baud rate. */
  function LoggingTo(): seq<Kind> {
    [Octet, Int32]
  }

  /** The vehicle's flags, before drive train, steering, gains and sensor geometry. */
  function Vehicle(): seq<Kind> {
    [Flag, Auto, Flag, Flag, Flag, Flag]
  }

  function Autos(n: nat): seq<Kind> {
    if n == 0 then [] else Autos(n - 1) + [Auto]
  }

  // ----- the groups that may be missing

  /** The four groups at the end of a packet: heartbeat time, actuators, sensors, control loops; the last three
      begin with a count and hold four entries. */
  function HeartbeatLayout(): seq<Kind> {
    [Auto]
  }

  function QuadsLayout(): seq<Kind> {
    [Word16] + Entry() + Entry() + Entry() + Entry()
  }

  function Entry(): seq<Kind> {
    [Word16, Word16, Word16, Word16]
  }

  function ControlsLayout(): seq<Kind> {
    [Word16] + ControlEntry() + ControlEntry() + ControlEntry() + ControlEntry()
  }

  /** Activities and type, target, three gains, two limits, enabled. */
  function ControlEntry(): seq<Kind> {
    [Word16, Word16, Word16, Auto, Auto, Auto, Auto, Auto, Auto, Flag]
  }

  datatype Config = Config(base: seq<Item>, heartbeat: seq<Item>, actuators: seq<Item>, sensors: seq<Item>, controls: seq<Item>)

  predicate Sendable(c: Config) {
    && AllFit(BaseLayout(), c.base) && AllFit(HeartbeatLayout(), c.heartbeat) && AllFit(QuadsLayout(), c.actuators)
    && AllFit(QuadsLayout(), c.sensors) && AllFit(ControlsLayout(), c.controls)
  }

  function EncTail(c: Config): Bytes
    requires Sendable(c)
  {
    EncAll(HeartbeatLayout(), c.heartbeat) + EncAll(QuadsLayout(), c.actuators) + EncAll(QuadsLayout(), c.sensors)
    + EncAll(ControlsLayout(), c.controls)
  }

  /** The packet CMD_GET_MAIN_CONFIG sends, after its two leading bytes. */
  function Payload(c: Config): Bytes
    requires Sendable(c)
  {
    EncAll(BaseLayout(), c.base) + EncTail(c)
  }

  /** A group with its count set to zero. */
  function Uncounted(g: seq<Item>): seq<Item> {
    if g == [] then [] else g[0 := Int(0)]
  }

  /** The part of CMD_SET_MAIN_CONFIG after the fields every packet carries: each group is read when the running
      index leaves room for it before the end of the packet. */
  function ReadTail(c: Config, data: Bytes, i: nat, len: nat): Config
    requires i <= |data| && len <= |data|
  {
    var (c1, i1) := if i + 4 <= len then (c.(heartbeat := DecAll(HeartbeatLayout(), data, i).0), i + 4) else (c, i);
    var (c2, i2) := if i1 + 34 <= len then (c1.(actuators := DecAll(QuadsLayout(), data, i1).0), i1 + 34) else (c1, i1);
    var (c3, i3) := if i2 + 34 <= len then (c2.(sensors := DecAll(QuadsLayout(), data, i2).0), i2 + 34)
                    else (c2.(sensors := Uncounted(c2.sensors)), i2);
    if i3 + 126 <= len then c3.(controls := DecAll(ControlsLayout(), data, i3).0) else c3.(controls := Uncounted(c3.controls))
  }

  /** The configuration after a packet of len bytes in the receive buffer, before it is sanitised. */
  function Read(c: Config, data: Bytes, len: nat): Config
    requires len <= |data|
  {
    var (base, i) := DecAll(BaseLayout(), data, 0);
    DecAllInside(BaseLayout(), data, 0);
    ReadTail(c.(base := base), data, i, len)
  }

  lemma {:induction false} DecAllInside(ks: seq<Kind>, data: Bytes, i: nat)
    requires i <= |data|
    ensures DecAll(ks, data, i).1 <= |data|
    decreases |ks|
  {
    hide Dec;
    if ks != [] {
      DecInside(ks[0], data, i);
      DecAllInside(ks[1..], data, Dec(ks[0], data, i).1);
    }
  }

  /** A group is read if and only if it and every group before it lie wholly within the packet; it is then read from
      its fixed place, and the counts of sensors and control loops are zero otherwise. */
  lemma GroupsRead(c: Config, data: Bytes, i: nat, len: nat)
    requires i <= |data| && len <= |data|
    ensures var r := ReadTail(c, data, i, len);
            && r.base == c.base
            && r.heartbeat == (if i + 4 <= len then DecAll(HeartbeatLayout(), data, i).0 else c.heartbeat)
            && r.actuators == (if i + 38 <= len then DecAll(QuadsLayout(), data, i + 4).0 else c.actuators)
            && (if i + 72 <= len then r.sensors == DecAll(QuadsLayout(), data, i + 38).0 else OnlyCountLost(c.sensors, r.sensors))
            && (if i + 198 <= len then r.controls == DecAll(ControlsLayout(), data, i + 72).0
                else OnlyCountLost(c.controls, r.controls))
  {
    CountLost(c.sensors);
    CountLost(c.controls);
    hide DecAll, QuadsLayout, ControlsLayout, HeartbeatLayout, Uncounted;
  }

  /** The count, which is the first item, has become zero; the entries stay. */
  predicate OnlyCountLost(g: seq<Item>, r: seq<Item>) {
    |r| == |g| && (g != [] ==> r[0] == Int(0) && r[1..] == g[1..])
  }

  lemma CountLost(g: seq<Item>)
    ensures OnlyCountLost(g, Uncounted(g))
  {
  }

  function Size(k: Kind): nat {
    match k
    case Octet => 1
    case Flag => 1
    case Int16 => 2
    case Word16 => 2
    case Int32 => 4
    case Auto => 4
    case Text => 0
  }

  function Total(ks: seq<Kind>): nat {
    if ks == [] then 0 else Size(ks[0]) + Total(ks[1..])
  }

  lemma {:induction false} TotalConcat(a: seq<Kind>, b: seq<Kind>)
    ensures Total(a + b) == Total(a) + Total(b)
    decreases |a|
  {
    if a == [] {
      assert a + b == b;
    } else {
      assert (a + b)[1..] == a[1..] + b;
      TotalConcat(a[1..], b);
    }
  }

  lemma FirstTotal(k: Kind, ks: seq<Kind>)
    ensures Total([k] + ks) == Size(k) + Total(ks)
  {
    assert ([k] + ks)[1..] == ks;
  }

  /** The sizes the program writes out for the groups are those of their fields. */
  lemma GroupSizes()
    ensures Total(HeartbeatLayout()) == 4 && Total(QuadsLayout()) == 34 && Total(ControlsLayout()) == 126
  {
    hide Total;
    assert Total([]) == 0 by { NoTotal(); }
    FirstTotal(Auto, []);
    assert [Auto] + [] == HeartbeatLayout();
    EntrySizes();
    hide Entry, ControlEntry;
    FirstTotal(Word16, []);
    assert [Word16] + [] == [Word16];
    TotalConcat([Word16], Entry());
    TotalConcat([Word16] + Entry(), Entry());
    TotalConcat([Word16] + Entry() + Entry(), Entry());
    TotalConcat([Word16] + Entry() + Entry() + Entry(), Entry());
    TotalConcat([Word16], ControlEntry());
    TotalConcat([Word16] + ControlEntry(), ControlEntry());
    TotalConcat([Word16] + ControlEntry() + ControlEntry(), ControlEntry());
    TotalConcat([Word16] + ControlEntry() + ControlEntry() + ControlEntry(), ControlEntry());
  }

  lemma NoTotal()
    ensures Total([]) == 0
  {
  }

  lemma EntrySizes()
    ensures Total(Entry()) == 8 && Total(ControlEntry()) == 31
  {
    hide Total;
    NoTotal();
    var a, f := Word16, Auto;
    FirstTotal(a, []);
    FirstTotal(a, [a]);
    FirstTotal(a, [a, a]);
    FirstTotal(a, [a, a, a]);
    assert [a] + [] == [a] && [a] + [a] == [a, a] && [a] + [a, a] == [a, a, a] && [a] + [a, a, a] == Entry();
    FirstTotal(Flag, []);
    FirstTotal(f, [Flag]);
    FirstTotal(f, [f, Flag]);
    FirstTotal(f, [f, f, Flag]);
    assert [Flag] + [] == [Flag] && [f] + [Flag] == [f, Flag] && [f] + [f, Flag] == [f, f, Flag] && [f] + [f, f, Flag] == [f, f, f, Flag];
    TotalConcat([f, f, f, Flag], []);
    FirstTotal(f, [f, f, f, Flag]);
    FirstTotal(f, [f, f, f, f, Flag]);
    FirstTotal(f, [f, f, f, f, f, Flag]);
    assert [f] + [f, f, f, Flag] == [f, f, f, f, Flag] && [f] + [f, f, f, f, Flag] == [f, f, f, f, f, Flag];
    assert [a, a, a] + ([f] + [f, f, f, f, f, Flag]) == ControlEntry();
    TotalConcat([a, a, a], [f] + [f, f, f, f, f, Flag]);
  }

  predicate Fixed(ks: seq<Kind>) {
    Text !in ks
  }

  /** Fields of fixed size take their total, and depend on no byte beyond it. */
  lemma {:induction false} FixedRead(ks: seq<Kind>, d1: Bytes, d2: Bytes, i: nat, len: nat)
    requires Fixed(ks) && len <= |d1| && len <= |d2| && d1[..len] == d2[..len] && i + Total(ks) <= len
    ensures DecAll(ks, d1, i) == DecAll(ks, d2, i) && DecAll(ks, d1, i).1 == i + Total(ks)
    decreases |ks|
  {
    hide Dec;
    if ks != [] {
      OneFixed(ks[0], d1, d2, i, len);
      FixedRead(ks[1..], d1, d2, i + Size(ks[0]), len);
    }
  }

  lemma OneFixed(k: Kind, d1: Bytes, d2: Bytes, i: nat, len: nat)
    requires k != Text && len <= |d1| && len <= |d2| && d1[..len] == d2[..len] && i + Size(k) <= len
    ensures Dec(k, d1, i) == Dec(k, d2, i) && Dec(k, d1, i).1 == i + Size(k)
  {
    hide Signed, FloatOf;
    assert forall j | i <= j < i + Size(k) :: d1[j] == d1[..len][j] && d2[j] == d2[..len][j];
  }

  /** Nothing behind the end of the packet reaches the groups. */
  lemma NoStaleBytes(c: Config, d1: Bytes, d2: Bytes, i: nat, len: nat)
    requires i <= |d1| && i <= |d2| && len <= |d1| && len <= |d2| && d1[..len] == d2[..len]
    ensures ReadTail(c, d1, i, len) == ReadTail(c, d2, i, len)
  {
    hide DecAll, Total, QuadsLayout, ControlsLayout, HeartbeatLayout, Uncounted, ReadTail, Fixed;
    GroupsRead(c, d1, i, len);
    GroupsRead(c, d2, i, len);
    GroupSizes();
    GroupsFixed();
    if i + 4 <= len {
      FixedRead(HeartbeatLayout(), d1, d2, i, len);
    }
    if i + 38 <= len {
      FixedRead(QuadsLayout(), d1, d2, i + 4, len);
    }
    if i + 72 <= len {
      FixedRead(QuadsLayout(), d1, d2, i + 38, len);
    }
    if i + 198 <= len {
      FixedRead(ControlsLayout(), d1, d2, i + 72, len);
    }
  }

  lemma GroupsFixed()
    ensures Fixed(HeartbeatLayout()) && Fixed(QuadsLayout()) && Fixed(ControlsLayout())
  {
  }

  lemma {:induction false} FixedSize(ks: seq<Kind>, fs: seq<Item>)
    requires Fixed(ks) && AllFit(ks, fs)
    ensures |EncAll(ks, fs)| == Total(ks)
    decreases |ks|
  {
    hide WordOf, Bytes16, Bytes32;
    if ks != [] {
      FixedSize(ks[1..], fs[1..]);
    }
  }

  lemma TailRead(c: Config, c0: Config, data: Bytes, i: nat)
    requires Sendable(c) && i + |EncTail(c)| == |data| && data[i..] == EncTail(c)
    ensures ReadTail(c0, data, i, |data|) == c.(base := c0.base)
  {
    hide DecAll, EncAll, Total, QuadsLayout, ControlsLayout, HeartbeatLayout, Uncounted, ReadTail, Fixed, AllFit, BaseLayout;
    GroupSizes();
    GroupsFixed();
    FixedSize(HeartbeatLayout(), c.heartbeat);
    FixedSize(QuadsLayout(), c.actuators);
    FixedSize(QuadsLayout(), c.sensors);
    FixedSize(ControlsLayout(), c.controls);
    var t := EncTail(c);
    assert |t| == 198;
    assert data[i..i + 4] == t[..4] == EncAll(HeartbeatLayout(), c.heartbeat);
    assert data[i + 4..i + 38] == t[4..38] == EncAll(QuadsLayout(), c.actuators);
    assert data[i + 38..i + 72] == t[38..72] == EncAll(QuadsLayout(), c.sensors);
    assert data[i + 72..i + 198] == t[72..] == EncAll(ControlsLayout(), c.controls);
    FieldsRead(HeartbeatLayout(), c.heartbeat, data, i);
    FieldsRead(QuadsLayout(), c.actuators, data, i + 4);
    FieldsRead(QuadsLayout(), c.sensors, data, i + 38);
    FieldsRead(ControlsLayout(), c.controls, data, i + 72);
    GroupsRead(c0, data, i, |data|);
  }

  /** What one side sends the other side reads back, every field of it, whatever it held before. */
  lemma WireRoundTrip(c: Config, c0: Config)
    requires Sendable(c)
    ensures Read(c0, Payload(c), |Payload(c)|) == c
  {
    hide DecAll, EncAll, AllFit, BaseLayout, ReadTail, EncTail;
    var data, b := Payload(c), EncAll(BaseLayout(), c.base);
    assert data[0..|b|] == b && data[|b|..] == EncTail(c);
    FieldsRead(BaseLayout(), c.base, data, 0);
    TailRead(c, c0.(base := c.base), data, |b|);
  }

  // ----- the program's buffers

  method AppendByte(buffer: array<Byte>, number: int, index: nat) returns (next: nat)
    requires index < buffer.Length
    modifies buffer
    ensures next == index + 1 && Wrote(old(buffer[..]), buffer[..], index, [number % 256])
  {
    buffer[index] := number % 256;
    next := index + 1;
  }

  /** buffer_append_int16 and buffer_append_uint16. */
  method Append16(buffer: array<Byte>, number: int, index: nat) returns (next: nat)
    requires index + 2 <= buffer.Length
    modifies buffer
    ensures next == index + 2 && Wrote(old(buffer[..]), buffer[..], index, Bytes16(number))
  {
    buffer[index], buffer[index + 1] := number / 256 % 256, number % 256;
    next := index + 2;
  }

  /** buffer_append_int32 and buffer_append_uint32. */
  method Append32(buffer: array<Byte>, number: int, index: nat) returns (next: nat)
    requires index + 4 <= buffer.Length
    modifies buffer
    ensures next == index + 4 && Wrote(old(buffer[..]), buffer[..], index, Bytes32(number))
  {
    buffer[index], buffer[index + 1] := number / 16777216 % 256, number / 65536 % 256;
    buffer[index + 2], buffer[index + 3] := number / 256 % 256, number % 256;
    assert number / 65536 / 256 == number / 16777216;
    next := index + 4;
  }

  /** after is before with part put at i. */
  predicate Wrote(before: Bytes, after: Bytes, i: nat, part: Bytes) {
    |after| == |before| && i + |part| <= |before| && after[..i] == before[..i] && after[i..i + |part|] == part && after[i + |part|..] == before[i + |part|..]
  }

  /** buffer_append_float32_auto. */
  method AppendFloat32Auto(buffer: array<Byte>, number: Float, index: nat) returns (next: nat)
    requires index + 4 <= buffer.Length && !number.Irregular?
    modifies buffer
    ensures next == index + 4 && Wrote(old(buffer[..]), buffer[..], index, Bytes32(Pattern(number)))
  {
    hide Wrote, Bytes32, Pattern;
    WordIsPattern(number);
    var (sig, e) := Frexp(number);
    var sigAbs := if sig < 0.0 then -sig else sig;
    var sigI := 0;
    if sigAbs >= 0.5 {
      sigI := ((sigAbs - 0.5) * 2.0 * 8388608.0).Floor;
      e := e + 126;
    }
    var res := e % 256 * 8388608 + sigI % 8388608;
    if sig < 0.0 {
      res := res + 0x8000_0000;
    }
    next := Append32(buffer, res, index);
  }

  lemma WroteMore(s0: Bytes, s1: Bytes, s2: Bytes, i: nat, a: Bytes, b: Bytes)
    requires Wrote(s0, s1, i, a) && Wrote(s1, s2, i + |a|, b)
    ensures Wrote(s0, s2, i, a + b)
  {
    var n := i + |a| + |b|;
    assert s2[i..n] == s2[..i + |a|][i..] + s2[i + |a|..n];
    assert s1[..i + |a|][i..] == s1[i..i + |a|];
    assert s2[..i] == s2[..i + |a|][..i] && s1[..i + |a|][..i] == s1[..i];
    assert s1[n..] == s1[i + |a|..][|b|..] && s0[n..] == s0[i + |a|..][|b|..];
  }

  method AppendField(k: Kind, f: Item, buffer: array<Byte>, index: nat) returns (next: nat)
    requires Fits(k, f) && index + |Enc(k, f)| <= buffer.Length
    modifies buffer
    ensures next == index + |Enc(k, f)| && Wrote(old(buffer[..]), buffer[..], index, Enc(k, f))
  {
    hide Wrote, WordOf, Pattern;
    match k
    case Octet => next := AppendByte(buffer, f.v, index);
    case Flag => next := AppendByte(buffer, f.v, index);
    case Int16 => next := Append16(buffer, f.v, index);
    case Word16 => next := Append16(buffer, f.v, index);
    case Int32 => next := Append32(buffer, f.v, index);
    case Auto =>
      WordIsPattern(f.x);
      next := AppendFloat32Auto(buffer, f.x, index);
    case Text => next := AppendName(buffer, f.name, index);
  }

  method AppendName(buffer: array<Byte>, name: Bytes, index: nat) returns (next: nat)
    requires index + |name| + 1 <= buffer.Length
    modifies buffer
    ensures next == index + |name| + 1 && Wrote(old(buffer[..]), buffer[..], index, name + [0])
  {
    ghost var s0 := buffer[..];
    forall i | 0 <= i < |name| {
      buffer[index + i] := name[i];
    }
    ghost var s1 := buffer[..];
    assert s1[index..index + |name|] == name && s1[..index] == s0[..index] && s1[index + |name|..] == s0[index + |name|..];
    assert Wrote(s0, s1, index, name);
    hide Wrote;
    next := AppendByte(buffer, 0, index + |name|);
    WroteMore(s0, s1, buffer[..], index, name, [0]);
  }

  method AppendFields(ks: seq<Kind>, fs: seq<Item>, buffer: array<Byte>, index: nat) returns (next: nat)
    requires AllFit(ks, fs) && index + |EncAll(ks, fs)| <= buffer.Length
    modifies buffer
    ensures next == index + |EncAll(ks, fs)| && Wrote(old(buffer[..]), buffer[..], index, EncAll(ks, fs))
    decreases |ks|
  {
    hide Wrote, Enc, Fits;
    next := index;
    WroteNothing(buffer[..], index);
    assert ks[0..] == ks && fs[0..] == fs;
    for j := 0 to |ks|
      invariant index <= next && next + |EncAll(ks[j..], fs[j..])| == index + |EncAll(ks, fs)|
      invariant |EncAll(ks, fs)| >= next - index
      invariant Wrote(old(buffer[..]), buffer[..], index, EncAll(ks, fs)[..next - index])
      invariant EncAll(ks, fs)[next - index..] == EncAll(ks[j..], fs[j..])
    {
      ghost var s1 := buffer[..];
      ghost var part := Enc(ks[j], fs[j]);
      assert ks[j..][1..] == ks[j + 1..] && fs[j..][1..] == fs[j + 1..];
      assert EncAll(ks[j..], fs[j..]) == part + EncAll(ks[j + 1..], fs[j + 1..]);
      ghost var all, n := EncAll(ks, fs), next - index;
      assert all[..n] + part == all[..n + |part|];
      next := AppendField(ks[j], fs[j], buffer, next);
      WroteMore(old(buffer[..]), s1, buffer[..], index, all[..n], part);
    }
    assert EncAll(ks, fs)[..next - index] == EncAll(ks, fs);
  }

  lemma WroteNothing(s: Bytes, i: nat)
    requires i <= |s|
    ensures Wrote(s, s, i, [])
  {
  }

  /** A name longer than the place it is copied to. */
  predicate Overlong(k: Kind, data: Bytes, i: nat)
    requires i <= |data|
  {
    k == Text && |Name(data, i)| > LOG_NAME_MAX_LEN
  }

  /** The fields lie within the data, up to a name that is too long. */
  predicate Enough(ks: seq<Kind>, data: Bytes, i: nat)
    requires i <= |data|
    decreases |ks|
  {
    ks == [] || (Whole(ks[0], data, i) && (Overlong(ks[0], data, i) || Enough(ks[1..], data, Dec(ks[0], data, i).1)))
  }

  predicate Whole(k: Kind, data: Bytes, i: nat)
    requires i <= |data|
  {
    if k == Text then |Name(data, i)| > LOG_NAME_MAX_LEN || i + |Name(data, i)| < |data| else i + Size(k) <= |data|
  }

  /** Some name among the fields is too long. */
  predicate Outside(ks: seq<Kind>, data: Bytes, i: nat)
    requires i <= |data|
    decreases |ks|
  {
    ks != [] && (Overlong(ks[0], data, i) || Outside(ks[1..], data, Dec(ks[0], data, i).1))
  }

  lemma {:induction false} NameLength(data: Bytes, i: nat, n: nat)
    requires i + n <= |data|
    ensures |Name(data, i)| >= n <==> forall j | i <= j < i + n :: data[j] != 0
    decreases n
  {
    if n > 0 && data[i] != 0 {
      NameLength(data, i + 1, n - 1);
    }
  }

  /** Fields of fixed size in front of others. */
  lemma {:induction false} FixedFront(a: seq<Kind>, b: seq<Kind>, data: Bytes, i: nat)
    requires Fixed(a) && i + Total(a) <= |data|
    ensures Enough(a + b, data, i) <==> Enough(b, data, i + Total(a))
    ensures Outside(a + b, data, i) <==> Outside(b, data, i + Total(a))
    decreases |a|
  {
    hide Dec, Whole, Overlong;
    if a == [] {
      assert a + b == b;
    } else {
      assert (a + b)[0] == a[0] && (a + b)[1..] == a[1..] + b;
      OneWhole(a[0], data, i);
      FixedFront(a[1..], b, data, i + Size(a[0]));
    }
  }

  lemma OneWhole(k: Kind, data: Bytes, i: nat)
    requires k != Text && i + Size(k) <= |data|
    ensures Whole(k, data, i) && !Overlong(k, data, i) && Dec(k, data, i).1 == i + Size(k)
  {
    OneFixed(k, data, data, i, |data|);
  }

  lemma {:induction false} AutosSize(n: nat)
    ensures Fixed(Autos(n)) && Total(Autos(n)) == 4 * n
    decreases n
  {
    if n > 0 {
      AutosSize(n - 1);
      TotalConcat(Autos(n - 1), [Auto]);
    }
  }

  lemma Total3(a: Kind, b: Kind, c: Kind)
    ensures Total([a, b, c]) == Size(a) + Size(b) + Size(c) && Total([a, b]) == Size(a) + Size(b) && Total([a]) == Size(a)
  {
    hide Total, Size;
    NoTotal();
    FirstTotal(a, [b, c]);
    FirstTotal(a, [b]);
    FirstTotal(a, []);
    FirstTotal(b, [c]);
    FirstTotal(b, []);
    FirstTotal(c, []);
    assert [a] + [b, c] == [a, b, c] && [a] + [b] == [a, b] && [b] + [c] == [b, c] && [a] + [] == [a];
    assert [b] + [] == [b] && [c] + [] == [c];
  }

  lemma Total6(a: Kind, b: Kind, c: Kind, d: Kind, e: Kind, f: Kind)
    ensures Total([a, b, c, d, e, f]) == Size(a) + Size(b) + Size(c) + Size(d) + Size(e) + Size(f)
  {
    hide Total, Size;
    Total3(a, b, c);
    Total3(d, e, f);
    TotalConcat([a, b, c], [d, e, f]);
    assert [a, b, c] + [d, e, f] == [a, b, c, d, e, f];
  }

  lemma PartSizes()
    ensures Total(Compass()) == 54 && Total(Positioning()) == 33 && Total(Following()) == 18 && Total(Logging()) == 3
    ensures Total(LoggingTo()) == 5 && Total(Vehicle()) == 9
  {
    hide Total, Autos;
    Total3(Flag, Flag, Auto);
    AutosSize(12);
    TotalConcat([Flag, Flag, Auto], Autos(12));
    Total6(Auto, Auto, Flag, Flag, Flag, Auto);
    Total6(Auto, Auto, Flag, Flag, Auto, Auto);
    TotalConcat([Auto, Auto, Flag, Flag, Flag, Auto], [Auto, Auto, Flag, Flag, Auto, Auto]);
    Total6(Flag, Auto, Auto, Octet, Auto, Int32);
    Total3(Int16, Flag, Flag);
    Total3(Octet, Int32, Flag);
    Total6(Flag, Auto, Flag, Flag, Flag, Flag);
  }

  /** Where the name starts, what follows it, and how long a buffer holds both. */
  const NAME_AT: nat := 108
  const BACK_SIZE: nat := 74
  const BASE_MAX: nat := NAME_AT + LOG_NAME_MAX_LEN + 1 + BACK_SIZE

  lemma FixedConcat(a: seq<Kind>, b: seq<Kind>)
    ensures Fixed(a + b) <==> Fixed(a) && Fixed(b)
  {
    if !Fixed(a) {
      assert Text in a + b;
    }
  }

  lemma PartsFixed()
    ensures Fixed(Compass()) && Fixed(Positioning()) && Fixed(Following()) && Fixed(Logging())
    ensures Fixed(LoggingTo()) && Fixed(Vehicle())
  {
    AutosSize(12);
    hide Autos;
  }

  lemma BaseSizes()
    ensures Fixed(BaseFront()) && Total(BaseFront()) == NAME_AT
    ensures Fixed(BaseBack()) && Total(BaseBack()) == BACK_SIZE
  {
    hide Total, Fixed, Compass, Positioning, Following, Logging, LoggingTo, Vehicle, Autos;
    PartSizes();
    PartsFixed();
    AutosSize(15);
    TotalConcat(Compass(), Positioning());
    TotalConcat(Compass() + Positioning(), Following());
    TotalConcat(Compass() + Positioning() + Following(), Logging());
    TotalConcat(LoggingTo(), Vehicle());
    TotalConcat(LoggingTo() + Vehicle(), Autos(15));
    FixedConcat(Compass(), Positioning());
    FixedConcat(Compass() + Positioning(), Following());
    FixedConcat(Compass() + Positioning() + Following(), Logging());
    FixedConcat(LoggingTo(), Vehicle());
    FixedConcat(LoggingTo() + Vehicle(), Autos(15));
  }

  lemma NameThenBack(data: Bytes)
    requires |data| >= BASE_MAX
    ensures Enough([Text] + BaseBack(), data, NAME_AT)
    ensures Outside([Text] + BaseBack(), data, NAME_AT) <==> |Name(data, NAME_AT)| > LOG_NAME_MAX_LEN
    ensures |Name(data, NAME_AT)| <= LOG_NAME_MAX_LEN ==>
              DecAll([Text] + BaseBack(), data, NAME_AT).1 == NAME_AT + |Name(data, NAME_AT)| + 1 + BACK_SIZE
  {
    hide BaseFront, BaseBack, Name, DecAll, Total, Fixed;
    BaseSizes();
    var ks := [Text] + BaseBack();
    assert ks[0] == Text && ks[1..] == BaseBack();
    var n := |Name(data, NAME_AT)|;
    if n <= LOG_NAME_MAX_LEN {
      var j := NAME_AT + n + 1;
      assert Dec(Text, data, NAME_AT).1 == j;
      FixedEnough(BaseBack(), data, j);
      FixedInside(BaseBack(), data, j);
      FirstDec(ks, data, NAME_AT);
    }
  }

  lemma FirstDec(ks: seq<Kind>, data: Bytes, i: nat)
    requires ks != [] && i <= |data|
    ensures Dec(ks[0], data, i).1 <= |data| && DecAll(ks, data, i).1 == DecAll(ks[1..], data, Dec(ks[0], data, i).1).1
  {
    hide Dec;
    DecInside(ks[0], data, i);
  }

  lemma {:induction false} FixedInside(ks: seq<Kind>, data: Bytes, i: nat)
    requires Fixed(ks) && i <= |data|
    ensures !Outside(ks, data, i)
    decreases |ks|
  {
    hide Dec, Overlong;
    if ks != [] {
      NoName(ks[0], data, i);
      DecInside(ks[0], data, i);
      FixedInside(ks[1..], data, Dec(ks[0], data, i).1);
    }
  }

  lemma NoName(k: Kind, data: Bytes, i: nat)
    requires k != Text && i <= |data|
    ensures !Overlong(k, data, i)
  {
  }

  /** The name of a packet is stored inside its field if and only if one of its first 21 bytes is zero; the other leading
      fields are always inside the receive buffer. */
  lemma NameInside(data: Bytes)
    requires |data| >= BASE_MAX
    ensures Enough(BaseLayout(), data, 0)
    ensures Outside(BaseLayout(), data, 0) <==> forall j | 108 <= j <= 128 :: data[j] != 0
  {
    hide BaseFront, BaseBack, Name, DecAll, Enough, Outside, Total, Fixed;
    BaseSizes();
    FixedFront(BaseFront(), [Text] + BaseBack(), data, 0);
    NameThenBack(data);
    NameLength(data, NAME_AT, LOG_NAME_MAX_LEN + 1);
  }

  /** Reads one field. A name too long for its place, which the program stores all the same, is reported as outside. */
  method GetField(k: Kind, data: array<Byte>, index: nat) returns (f: Item, next: nat, outside: bool)
    requires index <= data.Length && Whole(k, data[..], index)
    ensures outside == Overlong(k, data[..], index) && next <= data.Length
    ensures !outside ==> f == Dec(k, data[..], index).0 && next == Dec(k, data[..], index).1
  {
    hide Pow2, FloatOf;
    Powers();
    outside := false;
    match k
    case Octet => f, next := Int(data[index]), index + 1;
    case Flag => f, next := Int(if data[index] != 0 then 1 else 0), index + 1;
    case Int16 =>
      var n: int := Number(data[index], data[index + 1]);
      f, next := Int(if n < 0x8000 then n else n - 0x10000), index + 2;
    case Word16 => f, next := Int(Number(data[index], data[index + 1])), index + 2;
    case Int32 =>
      var n: int := 65536 * Number(data[index], data[index + 1]) + Number(data[index + 2], data[index + 3]);
      f, next := Int(if n < 0x8000_0000 then n else n - 0x1_0000_0000), index + 4;
    case Auto =>
      var n := 65536 * Number(data[index], data[index + 1]) + Number(data[index + 2], data[index + 3]);
      f, next := Real(FloatOf(n)), index + 4;
    case Text =>
      var name := [];
      next := index;
      while next - index <= LOG_NAME_MAX_LEN && data[next] != 0
        invariant index <= next <= data.Length && next + |Name(data[..], next)| == index + |Name(data[..], index)|
        invariant next - index <= LOG_NAME_MAX_LEN + 1
        invariant name + Name(data[..], next) == Name(data[..], index)
        decreases data.Length - next
      {
        name := name + [data[next]];
        next := next + 1;
      }
      outside := next - index > LOG_NAME_MAX_LEN;
      f, next := Str(name), if outside then next else next + 1;
  }

  method GetFields(ks: seq<Kind>, data: array<Byte>, index: nat) returns (fs: seq<Item>, next: nat, outside: bool)
    requires index <= data.Length && Enough(ks, data[..], index)
    ensures outside == Outside(ks, data[..], index) && next <= data.Length
    ensures !outside ==> fs == DecAll(ks, data[..], index).0 && next == DecAll(ks, data[..], index).1
  {
    hide Dec, Whole, Overlong;
    fs, next, outside := [], index, false;
    ghost var all := DecAll(ks, data[..], index);
    assert ks[0..] == ks && [] + all.0 == all.0;
    for j := 0 to |ks|
      invariant next <= data.Length && Enough(ks[j..], data[..], next)
      invariant Outside(ks[j..], data[..], next) == Outside(ks, data[..], index)
      invariant fs + DecAll(ks[j..], data[..], next).0 == all.0 && DecAll(ks[j..], data[..], next).1 == all.1
    {
      assert ks[j..][1..] == ks[j + 1..];
      var f;
      ghost var rest := DecAll(ks[j..], data[..], next).0;
      f, next, outside := GetField(ks[j], data, next);
      if outside {
        return;
      }
      assert rest == [f] + DecAll(ks[j + 1..], data[..], next).0;
      fs := fs + [f];
    }
    assert ks[|ks|..] == [];
  }

  // ----- sanitising

  const CT_TEMPERATURE: int := 4

  /** Item n of a group as a number. */
  function At(g: seq<Item>, n: nat): int {
    if n < |g| && g[n].Int? then g[n].v else 0
  }

  /** Where entry i of the control loops has its type, and whether it is enabled. */
  function TypeAt(i: nat): nat {
    1 + 10 * i + 2
  }

  function EnabledAt(i: nat): nat {
    1 + 10 * i + 9
  }

  function Blank(k: Kind): Item {
    if k == Auto then Real(Zero) else Int(0)
  }

  function Blanks(ks: seq<Kind>): (fs: seq<Item>)
    ensures |fs| == |ks|
  {
    seq(|ks|, i requires 0 <= i < |ks| => Blank(ks[i]))
  }

  /** A loop of unknown type, or with an enabled byte that is no flag, is switched off. */
  function SwitchOff(g: seq<Item>, i: nat): (r: seq<Item>)
    ensures |r| == |g|
  {
    if EnabledAt(i) < |g| && (At(g, EnabledAt(i)) > 1 || At(g, TypeAt(i)) > CT_TEMPERATURE) then g[EnabledAt(i) := Int(0)] else g
  }

  /** conf_general_sanitize_main_config. */
  function Sanitised(c: Config): Config {
    var a := if At(c.actuators, 0) > 4 && c.actuators != [] then c.actuators[0 := Int(0)] else c.actuators;
    var s := if At(c.sensors, 0) > 4 then Blanks(QuadsLayout()) else c.sensors;
    var k := if At(c.controls, 0) > 4 then Blanks(ControlsLayout()) else c.controls;
    c.(actuators := a, sensors := s, controls := AllOff(k))
  }

  function AllOff(g: seq<Item>): (r: seq<Item>)
    ensures |r| == |g|
  {
    SwitchOff(SwitchOff(SwitchOff(SwitchOff(g, 0), 1), 2), 3)
  }

  /** At most four of each, and only loops of known type enabled: what the control code may index by. */
  predicate Safe(c: Config) {
    && At(c.actuators, 0) <= 4 && At(c.sensors, 0) <= 4 && At(c.controls, 0) <= 4
    && forall i | 0 <= i < 4 :: LoopSafe(c.controls, i)
  }

  predicate LoopSafe(g: seq<Item>, i: nat) {
    At(g, EnabledAt(i)) == 0 || (At(g, EnabledAt(i)) <= 1 && At(g, TypeAt(i)) <= CT_TEMPERATURE)
  }

  lemma SwitchOffs(g: seq<Item>, i: nat)
    requires |g| == 41 && i < 4
    ensures var r := SwitchOff(g, i);
            && LoopSafe(r, i) && At(r, 0) == At(g, 0) && (forall j | 0 <= j < 4 && LoopSafe(g, j) :: LoopSafe(r, j))
            && (g[EnabledAt(i)].Int? && LoopSafe(g, i) ==> r == g) && |r| == 41
  {
  }

  /** All zero, as memset leaves it. */
  predicate Zeroed(g: seq<Item>) {
    forall i | 0 <= i < |g| :: g[i] == Int(0) || g[i] == Real(Zero)
  }

  /** Items 10, 20, 30 and 40 of the control loops say whether they are enabled; each loop's type stands seven before. */
  lemma EnabledItems(i: nat)
    requires i < 4
    ensures EnabledAt(i) == 10 * (i + 1) && TypeAt(i) == 10 * (i + 1) - 7
  {
  }

  lemma SwitchedOff(g: seq<Item>, i: nat)
    requires |g| == 41 && i < 4
    ensures var r, e := SwitchOff(g, i), 10 * (i + 1);
            && |r| == 41 && (forall j | 0 <= j < 41 && j != e :: r[j] == g[j])
            && r[e] == if Above(g[e], 1) || Above(g[e - 7], 4) then Int(0) else g[e]
  {
    EnabledItems(i);
    hide EnabledAt, TypeAt;
  }

  /** Item j of the control loops before and after: only the items that enable a loop change, to no, exactly for loops of
      unknown type and bytes that are no flag. */
  predicate SwitchedAt(g: seq<Item>, r: seq<Item>, j: nat)
    requires j < |g| == |r|
  {
    r[j] == if j > 0 && j % 10 == 0 && (Above(g[j], 1) || Above(g[j - 7], 4)) then Int(0) else g[j]
  }

  /** An integer above n. */
  predicate Above(f: Item, n: nat) {
    f.Int? && f.v > n
  }

  lemma AllSwitchedOff(g: seq<Item>)
    requires |g| == 41
    ensures var r := AllOff(g);
            && |r| == 41
            && forall j | 0 <= j < 41 :: SwitchedAt(g, r, j)
  {
    var g1 := SwitchOff(g, 0);
    var g2 := SwitchOff(g1, 1);
    var g3 := SwitchOff(g2, 2);
    SwitchedOff(g, 0);
    SwitchedOff(g1, 1);
    SwitchedOff(g2, 2);
    SwitchedOff(g3, 3);
    hide SwitchOff;
  }

  /** Sanitising, item by item. Too many actuators become none and the rest of them stays; too many sensors or control loops
      leave the group all zero; otherwise only whether a loop is enabled changes, to no, exactly for loops of unknown type and
      bytes that are no flag. */
  lemma SanitisedItems(c: Config)
    requires |c.actuators| == 17 && |c.sensors| == 17 && |c.controls| == 41
    ensures var r := Sanitised(c);
            && r.base == c.base && r.heartbeat == c.heartbeat
            && |r.actuators| == 17 && r.actuators[0] == (if Above(c.actuators[0], 4) then Int(0) else c.actuators[0])
            && r.actuators[1..] == c.actuators[1..]
            && (if Above(c.sensors[0], 4) then |r.sensors| == 17 && Zeroed(r.sensors) else r.sensors == c.sensors)
            && |r.controls| == 41
            && if Above(c.controls[0], 4) then Zeroed(r.controls)
               else forall j | 0 <= j < 41 :: SwitchedAt(c.controls, r.controls, j)
  {
    LayoutSizes();
    BlanksZeroed(QuadsLayout());
    SanitisedControls(c);
    hide QuadsLayout, ControlsLayout, AllOff, Zeroed, Blanks, SwitchedAt;
  }

  lemma SanitisedControls(c: Config)
    requires |c.controls| == 41
    ensures var r := Sanitised(c).controls;
            && |r| == 41
            && (Above(c.controls[0], 4) ==> Zeroed(r))
            && (!Above(c.controls[0], 4) ==> forall j | 0 <= j < 41 :: SwitchedAt(c.controls, r, j))
  {
    hide ControlsLayout, QuadsLayout, AllOff, Blanks, Zeroed, SwitchedAt;
    LayoutSizes();
    if Above(c.controls[0], 4) {
      BlanksZeroed(ControlsLayout());
      ZeroedOff(Blanks(ControlsLayout()));
    } else {
      AllSwitchedOff(c.controls);
    }
  }

  lemma ZeroedOff(g: seq<Item>)
    requires |g| == 41 && Zeroed(g)
    ensures Zeroed(AllOff(g))
  {
    hide At, AllOff;
    AllSwitchedOff(g);
    forall j | 0 <= j < 41 ensures AllOff(g)[j] == Int(0) || AllOff(g)[j] == Real(Zero) {
      assert SwitchedAt(g, AllOff(g), j);
    }
  }

  lemma BlanksZeroed(ks: seq<Kind>)
    ensures Zeroed(Blanks(ks)) && |Blanks(ks)| == |ks| && (Text !in ks ==> AllFit(ks, Blanks(ks)))
  {
  }

  lemma LayoutSizes()
    ensures |QuadsLayout()| == 17 && |ControlsLayout()| == 41
  {
  }

  /** Sanitising makes any configuration safe. */
  lemma SanitisedIsSafe(c: Config)
    requires |c.controls| == 41
    ensures Safe(Sanitised(c))
  {
    hide LoopSafe, SwitchOff;
    var k := if At(c.controls, 0) > 4 then Blanks(ControlsLayout()) else c.controls;
    assert |ControlsLayout()| == 41;
    SwitchOffs(k, 0);
    SwitchOffs(SwitchOff(k, 0), 1);
    SwitchOffs(SwitchOff(SwitchOff(k, 0), 1), 2);
    SwitchOffs(SwitchOff(SwitchOff(SwitchOff(k, 0), 1), 2), 3);
  }

  lemma EnabledIsFlag(i: nat)
    requires i < 4
    ensures |ControlsLayout()| == 41 && ControlsLayout()[EnabledAt(i)] == Flag
  {
    var e := ControlEntry();
    assert |e| == 10 && e[9] == Flag;
    hide ControlEntry;
  }

  /** A configuration that can be sent still can when it has been sanitised. */
  lemma SanitisedSendable(c: Config)
    requires Sendable(c)
    ensures Sendable(Sanitised(c))
  {
    LayoutFits();
    BlanksZeroed(QuadsLayout());
    BlanksZeroed(ControlsLayout());
    assert At(c.actuators, 0) > 4 ==> Fits(Word16, Int(0));
    hide BaseLayout, HeartbeatLayout, QuadsLayout, ControlsLayout, Fits, AllOff, Blanks, Zeroed;
    AllOffFits(if At(c.controls, 0) > 4 then Blanks(ControlsLayout()) else c.controls);
  }

  lemma AllOffFits(k: seq<Item>)
    requires AllFit(ControlsLayout(), k)
    ensures AllFit(ControlsLayout(), AllOff(k))
  {
    LayoutSizes();
    hide ControlsLayout, Fits, AllOff;
    AllSwitchedOff(k);
    forall j | 0 <= j < 41 ensures Fits(ControlsLayout()[j], AllOff(k)[j]) {
      assert SwitchedAt(k, AllOff(k), j);
      ZeroFits(k, j);
    }
  }

  lemma LayoutFits()
    ensures Text !in QuadsLayout() && Text !in ControlsLayout() && QuadsLayout()[0] == Word16
    ensures forall j | 0 < j < 41 && j % 10 == 0 :: ControlsLayout()[j] == Flag
  {
  }

  lemma ZeroFits(k: seq<Item>, j: nat)
    requires j < 41 && AllFit(ControlsLayout(), k)
    ensures Fits(ControlsLayout()[j], k[j]) && (j > 0 && j % 10 == 0 ==> Fits(ControlsLayout()[j], Int(0)))
  {
    LayoutFits();
  }

  /** Sanitising leaves a configuration alone if and only if it is safe. */
  lemma SafeUnchanged(c: Config)
    requires Sendable(c)
    ensures Sanitised(c) == c <==> Safe(c)
  {
    hide LoopSafe, SwitchOff, BaseLayout, QuadsLayout, ControlsLayout, Fits;
    EnabledIsFlag(0);
    SanitisedIsSafe(c);
    if Safe(c) {
      forall i | 0 <= i < 4 ensures SwitchOff(c.controls, i) == c.controls {
        EnabledIsFlag(i);
        FlagIsInt(c.controls[EnabledAt(i)]);
        SwitchOffs(c.controls, i);
      }
    }
  }

  /** A safe configuration sent to the other side and stored there is the same configuration. */
  lemma SafeRoundTrip(c: Config, c0: Config)
    requires Sendable(c) && Safe(c)
    ensures Sanitised(Read(c0, Payload(c), |Payload(c)|)) == c
  {
    hide Sendable, Safe, Sanitised, Read, Payload;
    WireRoundTrip(c, c0);
    SafeUnchanged(c);
  }

  lemma FlagIsInt(f: Item)
    requires Fits(Flag, f)
    ensures f.Int?
  {
  }

  // ----- the configuration object

  class Settings {
    var config: Config

    constructor (c: Config)
      ensures config == c
    {
      config := c;
    }

    /** CMD_GET_MAIN_CONFIG, after the two leading bytes. */
    method GetMainConfig(buffer: array<Byte>) returns (n: nat)
      requires Sendable(config) && |Payload(config)| <= buffer.Length
      modifies buffer
      ensures n == |Payload(config)| && buffer[..n] == Payload(config)
    {
      hide Wrote, EncAll, AllFit, BaseLayout, QuadsLayout, ControlsLayout;
      ghost var s0, c := buffer[..], config;
      ghost var e0, e1, e2 := EncAll(BaseLayout(), c.base), EncAll(HeartbeatLayout(), c.heartbeat), EncAll(QuadsLayout(), c.actuators);
      ghost var e3, e4 := EncAll(QuadsLayout(), c.sensors), EncAll(ControlsLayout(), c.controls);
      assert Payload(c) == e0 + e1 + e2 + e3 + e4;
      n := AppendFields(BaseLayout(), config.base, buffer, 0);
      ghost var s1 := buffer[..];
      n := AppendFields(HeartbeatLayout(), config.heartbeat, buffer, n);
      WroteMore(s0, s1, buffer[..], 0, e0, e1);
      s1 := buffer[..];
      n := AppendFields(QuadsLayout(), config.actuators, buffer, n);
      WroteMore(s0, s1, buffer[..], 0, e0 + e1, e2);
      s1 := buffer[..];
      n := AppendFields(QuadsLayout(), config.sensors, buffer, n);
      WroteMore(s0, s1, buffer[..], 0, e0 + e1 + e2, e3);
      s1 := buffer[..];
      n := AppendFields(ControlsLayout(), config.controls, buffer, n);
      WroteMore(s0, s1, buffer[..], 0, e0 + e1 + e2 + e3, e4);
      WroteFront(s0, buffer[..], e0 + e1 + e2 + e3 + e4);
    }

    /** CMD_SET_MAIN_CONFIG: a packet of len bytes at the start of the receive buffer. A name that the program stores
        outside its field is reported; the model stops before it does. */
    method SetMainConfig(data: array<Byte>, len: nat) returns (outside: bool)
      requires len <= data.Length && data.Length >= BASE_MAX
      modifies this
      ensures outside == (forall j | 108 <= j <= 128 :: data[j] != 0)
      ensures config == if outside then old(config) else Sanitised(Read(old(config), data[..], len))
    {
      hide BaseLayout, Sanitised, DecAll, Enough, Outside;
      NameInside(data[..]);
      var base, ind;
      base, ind, outside := GetFields(BaseLayout(), data, 0);
      if outside {
        return;
      }
      config := config.(base := base);
      ReadTailInto(data, ind, len);
      config := Sanitised(config);
    }

    method ReadTailInto(data: array<Byte>, ind0: nat, len: nat)
      requires ind0 <= data.Length && len <= data.Length
      modifies this
      ensures config == ReadTail(old(config), data[..], ind0, len)
    {
      hide DecAll, QuadsLayout, ControlsLayout, HeartbeatLayout, Enough, Outside;
      var ind := ind0;
      var g, outside;
      if ind + 4 <= len {
        GroupEnough(HeartbeatLayout(), data[..], ind, 4);
        g, ind, outside := GetFields(HeartbeatLayout(), data, ind);
        config := config.(heartbeat := g);
      }
      if ind + 2 + 4 * 8 <= len {
        GroupEnough(QuadsLayout(), data[..], ind, 34);
        g, ind, outside := GetFields(QuadsLayout(), data, ind);
        config := config.(actuators := g);
      }
      if ind + 2 + 4 * 8 <= len {
        GroupEnough(QuadsLayout(), data[..], ind, 34);
        g, ind, outside := GetFields(QuadsLayout(), data, ind);
        config := config.(sensors := g);
      } else {
        config := config.(sensors := Uncounted(config.sensors));
      }
      if ind + 2 + 4 * 31 <= len {
        GroupEnough(ControlsLayout(), data[..], ind, 126);
        g, ind, outside := GetFields(ControlsLayout(), data, ind);
        config := config.(controls := g);
      } else {
        config := config.(controls := Uncounted(config.controls));
      }
    }
  }

  lemma WroteFront(s0: Bytes, s1: Bytes, part: Bytes)
    requires Wrote(s0, s1, 0, part)
    ensures s1[..|part|] == part
  {
  }

  lemma {:induction false} FixedEnough(ks: seq<Kind>, data: Bytes, i: nat)
    requires Fixed(ks) && i + Total(ks) <= |data|
    ensures Enough(ks, data, i) && DecAll(ks, data, i).1 == i + Total(ks)
    decreases |ks|
  {
    hide Dec;
    if ks != [] {
      OneFixed(ks[0], data, data, i, |data|);
      FixedEnough(ks[1..], data, i + Size(ks[0]));
    }
  }

  lemma GroupEnough(ks: seq<Kind>, data: Bytes, i: nat, n: nat)
    requires i + n <= |data| && (if n == 4 then ks == HeartbeatLayout() else if n == 34 then ks == QuadsLayout() else n == 126 && ks == ControlsLayout())
    ensures Enough(ks, data, i) && !Outside(ks, data, i) && DecAll(ks, data, i).1 == i + n
  {
    hide DecAll, Enough, Outside, Total, QuadsLayout, ControlsLayout, HeartbeatLayout;
    GroupSizes();
    GroupsFixed();
    FixedEnough(ks, data, i);
    FixedInside(ks, data, i);
  }
}
