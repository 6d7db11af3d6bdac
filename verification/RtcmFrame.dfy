/** The RTCM 3 transport layer (section 4 of RTCM 10403.2): messages as lists of fields, the frame around them, and the
    receiver. */
module RtcmFrame {
  import opened Octets
  import opened Arithmetic
  import opened Division
  import opened BitField
  import opened Crc24

  const RTCM3PREAMB: Byte := 0xD3
  const BUFFER_SIZE: nat := 1100

  // ----- fields

  type FieldWidth = n: nat | 1 <= n <= 32 witness 1

  datatype Kind = U(width: FieldWidth) | S(width: FieldWidth)

  datatype Item = Item(kind: Kind, value: int)

  /** The bits of one field; an unsigned field takes the low bits of the 32-bit word. */
  function ItemBits(x: Item): (bits: Bits)
    ensures |bits| == x.kind.width
  {
    match x.kind
    case U(n) => Bin(x.value % WORD, n)
    case S(n) => SignedBin(x.value, n)
  }

  function Value(k: Kind, bits: Bits): int
    requires |bits| == k.width
  {
    if k.U? then Num(bits) else SignedNum(bits)
  }

  predicate InRange(x: Item)
  {
    if x.kind.U? then 0 <= x.value < Pow2(x.kind.width) else Fits(x.value, x.kind.width)
  }

  lemma ItemRoundTrip(x: Item)
    ensures Value(x.kind, ItemBits(x)) == x.value <==> InRange(x)
  {
    var n := x.kind.width;
    if x.kind.U? {
      WordRange();
      Pow2Mono(n, 32);
      UnsignedRoundTrip(x.value % WORD, n);
      hide Bin, Num;
      if 0 <= x.value < WORD {
        QuotientIs(x.value, WORD, 0, x.value);
      }
    } else {
      SignedRoundTrip(x.value, n);
    }
  }

  type Message = seq<Item>

  function Pack(items: Message): (bits: Bits) {
    if items == [] then []
    else Pack(items[..|items| - 1]) + ItemBits(items[|items| - 1])
  }

  type Layout = seq<Kind>

  function Kinds(items: Message): (l: Layout)
    ensures |l| == |items|
  {
    seq(|items|, i requires 0 <= i < |items| => items[i].kind)
  }

  function Values(items: Message): (vs: seq<int>)
    ensures |vs| == |items|
  {
    seq(|items|, i requires 0 <= i < |items| => items[i].value)
  }

  function Width(l: Layout): nat {
    if l == [] then 0 else Width(l[..|l| - 1]) + l[|l| - 1].width
  }

  function Parse(l: Layout, bits: Bits): (vs: seq<int>)
    requires |bits| == Width(l)
    ensures |vs| == |l|
  {
    if l == [] then []
    else
      var n := |l| - 1;
      var w := Width(l[..n]);
      Parse(l[..n], bits[..w]) + [Value(l[n], bits[w..])]
  }

  lemma {:induction false} PackWidth(items: Message)
    ensures |Pack(items)| == Width(Kinds(items))
    decreases |items|
  {
    if items != [] {
      var n := |items| - 1;
      PackWidth(items[..n]);
      assert Kinds(items)[..n] == Kinds(items[..n]);
    }
  }

  lemma {:induction false} WidthConcat(a: Layout, b: Layout)
    ensures Width(a + b) == Width(a) + Width(b)
    decreases |b|
  {
    if b == [] {
      assert a + b == a;
    } else {
      var n := |b| - 1;
      WidthConcat(a, b[..n]);
      assert (a + b)[..|a + b| - 1] == a + b[..n];
    }
  }

  lemma Width4(a: Kind, b: Kind, c: Kind, d: Kind)
    ensures Width([a]) == a.width && Width([a, b, c]) == a.width + b.width + c.width
    ensures Width([a, b, c, d]) == a.width + b.width + c.width + d.width
  {
    WidthConcat([a], [b]);
    WidthConcat([a, b], [c]);
    WidthConcat([a, b, c], [d]);
    assert [a] + [b] == [a, b] && [a, b] + [c] == [a, b, c] && [a, b, c] + [d] == [a, b, c, d];
  }

  lemma MessageEnd(items: Message)
    requires items != []
    ensures var n := |items| - 1;
            && items == items[..n] + [items[n]] && Kinds(items)[..n] == Kinds(items[..n])
            && Kinds(items)[n] == items[n].kind && Values(items) == Values(items[..n]) + [items[n].value]
  {
  }

  /** Reading a message back gives every value exactly when each was in the range of its field. */
  lemma {:induction false} ParsePack(items: Message)
    ensures |Pack(items)| == Width(Kinds(items))
    ensures Parse(Kinds(items), Pack(items)) == Values(items) <==> forall x | x in items :: InRange(x)
    decreases |items|
  {
    hide ItemBits, Value, InRange;
    PackWidth(items);
    if items != [] {
      var n := |items| - 1;
      var last, l := items[n], Kinds(items);
      MessageEnd(items);
      PackWidth(items[..n]);
      ParsePack(items[..n]);
      ItemRoundTrip(last);
      hide Kinds, Values;
      assert Pack(items)[..Width(l[..n])] == Pack(items[..n]);
      assert Pack(items)[Width(l[..n])..] == ItemBits(last);
      SnocEqual(Parse(l[..n], Pack(items[..n])), Value(last.kind, ItemBits(last)), Values(items[..n]), last.value);
    }
  }

  lemma SnocEqual(a: seq<int>, x: int, b: seq<int>, y: int)
    requires |a| == |b|
    ensures a + [x] == b + [y] <==> a == b && x == y
  {
    if a + [x] == b + [y] {
      assert a == (a + [x])[..|a|] && b == (b + [y])[..|a|];
      assert x == (a + [x])[|a|] && y == (b + [y])[|a|];
    }
  }

  lemma {:induction false} PackConcat(a: Message, b: Message)
    ensures Pack(a + b) == Pack(a) + Pack(b)
    decreases |b|
  {
    hide ItemBits;
    if b == [] {
      assert a + b == a;
    } else {
      var n, ab := |b| - 1, a + b;
      PackConcat(a, b[..n]);
      assert ab[..|ab| - 1] == a + b[..n] && ab[|ab| - 1] == b[n];
      Regroup(Pack(a), Pack(b[..n]), ItemBits(b[n]));
    }
  }

  // ----- reading and writing fields

  lemma {:induction false} PackPrefix(items: Message, k: nat)
    requires k <= |items|
    ensures Pack(items[..k]) <= Pack(items)
    ensures k < |items| ==> Pack(items[..k + 1]) == Pack(items[..k]) + ItemBits(items[k])
    decreases |items|
  {
    hide ItemBits;
    if k < |items| {
      var n := |items| - 1;
      PackPrefix(items[..n], k);
      assert items[..n][..k] == items[..k] && items[..k + 1][..k] == items[..k];
    } else {
      assert items[..k] == items;
    }
  }

  /** The first k fields of a message are in the buffer, and i is where the next one goes. */
  predicate Written(bits: Bits, items: Message, k: nat, i: nat)
    requires k <= |items|
  {
    i == |Pack(items[..k])| <= |bits| && bits[..i] == Pack(items[..k])
  }

  lemma WrittenMore(bits: Bits, items: Message, k: nat, i: nat)
    requires k < |items| && Written(bits, items, k, i) && |Pack(items)| <= |bits|
    ensures i + items[k].kind.width <= |bits|
    ensures Written(Put(bits, i, ItemBits(items[k])), items, k + 1, i + items[k].kind.width)
  {
    hide ItemBits, Pack;
    PackPrefix(items, k);
    PackPrefix(items, k + 1);
  }

  lemma ItemBitsAre(len: FieldWidth, data: int)
    ensures ItemBits(Item(U(len), data)) == Bin(data % WORD, len)
    ensures ItemBits(Item(S(len), data)) == SignedBin(data, len)
  {
  }

  /** Writes field k of a message. */
  method PutU(buffer: array<Byte>, i: nat, len: FieldWidth, data: int, ghost items: Message, ghost k: nat) returns (j: nat)
    requires k < |items| && items[k] == Item(U(len), data)
    requires |Pack(items)| <= 8 * buffer.Length && Written(BitsOf(buffer[..]), items, k, i)
    modifies buffer
    ensures j == i + len && Written(BitsOf(buffer[..]), items, k + 1, j)
  {
    hide Written, ItemBits, Bin, Pack, BitsOf, Put;
    WrittenMore(BitsOf(buffer[..]), items, k, i);
    ItemBitsAre(len, data);
    SetBitU(buffer, i, len, data % WORD);
    j := i + len;
  }

  method PutS(buffer: array<Byte>, i: nat, len: FieldWidth, data: int, ghost items: Message, ghost k: nat) returns (j: nat)
    requires k < |items| && items[k] == Item(S(len), data) && Fits(data, 32)
    requires |Pack(items)| <= 8 * buffer.Length && Written(BitsOf(buffer[..]), items, k, i)
    modifies buffer
    ensures j == i + len && Written(BitsOf(buffer[..]), items, k + 1, j)
  {
    hide Written, ItemBits, SignedBin, Pack, BitsOf, Put;
    WrittenMore(BitsOf(buffer[..]), items, k, i);
    ItemBitsAre(len, data);
    SetBits(buffer, i, len, data);
    j := i + len;
  }

  lemma {:induction false} ParseAt(l: Layout, bits: Bits, k: nat)
    requires |bits| == Width(l) && k < |l|
    ensures Width(l[..k + 1]) == Width(l[..k]) + l[k].width <= Width(l)
    ensures Parse(l, bits)[k] == Value(l[k], bits[Width(l[..k])..Width(l[..k + 1])])
    decreases |l|
  {
    hide Value;
    var n := |l| - 1;
    var w := Width(l[..n]);
    if k < n {
      ParseAt(l[..n], bits[..w], k);
      assert l[..n][..k] == l[..k] && l[..n][..k + 1] == l[..k + 1];
      var a, b := Width(l[..k]), Width(l[..k + 1]);
      assert bits[..w][a..b] == bits[a..b];
    } else {
      assert l[..k + 1] == l && bits[w..] == bits[w..|bits|];
    }
  }

  /** A field is read as what was written for it, whatever the other fields hold. */
  lemma FieldRead(items: Message, k: nat)
    requires k < |items|
    ensures |Pack(items)| == Width(Kinds(items))
    ensures Parse(Kinds(items), Pack(items))[k] == Value(items[k].kind, ItemBits(items[k]))
  {
    hide ItemBits, Value, Pack, Width, Parse;
    var l, bits := Kinds(items), Pack(items);
    PackWidth(items);
    PackWidth(items[..k]);
    PackWidth(items[..k + 1]);
    assert l[..k] == Kinds(items[..k]) && l[..k + 1] == Kinds(items[..k + 1]);
    ParseAt(l, bits, k);
    PackPrefix(items, k);
    PackPrefix(items, k + 1);
    assert items[..k + 1][k] == items[k];
    var a, b := |Pack(items[..k])|, |Pack(items[..k + 1])|;
    assert bits[..b] == Pack(items[..k + 1]);
    assert bits[a..b] == bits[..b][a..] == ItemBits(items[k]);
  }

  /** An unsigned field keeps the low bits. */
  lemma UnsignedRead(n: FieldWidth, v: nat)
    ensures Value(U(n), ItemBits(Item(U(n), v))) == v % Pow2(n)
  {
    hide Num, Bin;
    NumOfBin(v % WORD, n);
    WordRange();
    Pow2Sum(n, 32 - n);
    ModMod(v, Pow2(n), Pow2(32 - n));
  }

  /** The values of a message laid out from a bit position on. */
  function Laid(bits: Bits, start: nat, l: Layout): seq<int>
    requires start + Width(l) <= |bits|
  {
    Parse(l, bits[start..start + Width(l)])
  }

  lemma SameLaid(a: Bits, b: Bits, start: nat, l: Layout)
    requires start + Width(l) <= |a| && start + Width(l) <= |b| && a[start..start + Width(l)] == b[start..start + Width(l)]
    ensures Laid(a, start, l) == Laid(b, start, l)
  {
  }

  lemma LaidAt(bits: Bits, start: nat, l: Layout, k: nat)
    requires start + Width(l) <= |bits| && k < |l|
    ensures var i := start + Width(l[..k]);
            && i + l[k].width <= |bits| && Width(l[..k + 1]) == Width(l[..k]) + l[k].width
            && |Laid(bits, start, l)| == |l| && Laid(bits, start, l)[k] == Value(l[k], bits[i..i + l[k].width])
  {
    hide Value, Parse, Width;
    var some := bits[start..start + Width(l)];
    ParseAt(l, some, k);
    var a, b := Width(l[..k]), Width(l[..k + 1]);
    SliceSlice(bits, start, start + Width(l), a, b);
  }

  /** Reads field k of a message. */
  method GetU(buffer: array<Byte>, i: nat, len: FieldWidth, ghost start: nat, ghost l: Layout, ghost k: nat) returns (v: nat, j: nat)
    requires k < |l| && l[k] == U(len) && i == start + Width(l[..k]) && start + Width(l) <= 8 * buffer.Length
    ensures v < Pow2(len)
    ensures j == i + len == start + Width(l[..k + 1])
    ensures |Laid(BitsOf(buffer[..]), start, l)| == |l| && Laid(BitsOf(buffer[..]), start, l)[k] == v
  {
    hide BitsOf, Num, Laid, Width;
    LaidAt(BitsOf(buffer[..]), start, l, k);
    v := GetBitU(buffer, i, len);
    j := i + len;
  }

  method GetS(buffer: array<Byte>, i: nat, len: FieldWidth, ghost start: nat, ghost l: Layout, ghost k: nat) returns (v: int, j: nat)
    requires k < |l| && l[k] == S(len) && i == start + Width(l[..k]) && start + Width(l) <= 8 * buffer.Length
    ensures j == i + len == start + Width(l[..k + 1])
    ensures |Laid(BitsOf(buffer[..]), start, l)| == |l| && Laid(BitsOf(buffer[..]), start, l)[k] == v
  {
    hide BitsOf, SignedNum, Laid, Width;
    LaidAt(BitsOf(buffer[..]), start, l, k);
    v := GetBits(buffer, i, len);
    j := i + len;
  }

  // ----- frames

  /** The unsigned number in a field of a byte string. */
  function Field(m: Bytes, pos: nat, len: nat): nat
    requires pos + len <= 8 * |m|
  {
    Num(BitsOf(m)[pos..pos + len])
  }

  /** The checksum register as a number. */
  function Word24(c: bv24): nat {
    Num(Reg24(c))
  }

  predicate IsFrame(f: Bytes) {
    |f| >= 6 && f[0] == RTCM3PREAMB && Field(f, 14, 10) == |f| - 6 && Checked(f)
  }

  /** The last three bytes are the checksum of the others. */
  predicate Checked(f: Bytes)
    requires |f| >= 3
  {
    f[|f| - 3..] == Wire24(Checksum24(f[..|f| - 3]))
  }

  function Head(len: int): Message {
    [Item(U(8), RTCM3PREAMB), Item(U(6), 0), Item(U(10), len)]
  }

  /** bits followed by zero bits up to a whole number of bytes. */
  function Padded(bits: Bits): (r: Bits)
    ensures |r| % 8 == 0 && |bits| <= |r| < |bits| + 8 && r == bits + Zeros(|r| - |bits|)
  {
    bits + Zeros((8 - |bits| % 8) % 8)
  }

  /** f is the frame of this message. */
  predicate Encodes(f: Bytes, body: Message) {
    IsFrame(f) && BitsOf(f[..|f| - 3])[24..] == Padded(Pack(body))
  }

  /** The three header bytes as bits. */
  function HeadBits(len: nat): (bits: Bits)
    ensures |bits| == 24
  {
    Bin(RTCM3PREAMB, 8) + Bin(0, 6) + Bin(len, 10)
  }

  lemma HeadPacked(len: nat)
    requires len < WORD
    ensures Pack(Head(len)) == HeadBits(len)
  {
    var h := Head(len);
    assert h[..2] == [h[0], h[1]] && h[..2][..1] == [h[0]] && h[..2][..1][..0] == [];
    QuotientIs(len, WORD, 0, len);
    hide Bin;
    assert Pack(h[..2][..1]) == ItemBits(h[0]);
    assert Pack(h[..2]) == ItemBits(h[0]) + ItemBits(h[1]);
  }

  lemma WrittenNone(bits: Bits, items: Message)
    ensures Written(bits, items, 0, 0)
  {
    assert items[..0] == [];
  }

  lemma WrittenBefore(bits: Bits, items: Message, f: Message, i: nat)
    requires Written(bits, items, |items|, i)
    ensures Written(bits, items + f, |items|, i) && |Pack(items + f)| == i + |Pack(f)|
  {
    hide Pack;
    PackConcat(items, f);
    assert (items + f)[..|items|] == items == items[..|items|];
  }

  lemma PackOne(x: Item)
    ensures Pack([x]) == ItemBits(x)
  {
    hide ItemBits;
    assert [x][..0] == [] && [] + ItemBits(x) == ItemBits(x);
  }

  /** The header, with the length still zero. */
  method PutHead(buffer: array<Byte>) returns (i: nat)
    requires buffer.Length >= 3
    modifies buffer
    ensures i == 24 && Written(BitsOf(buffer[..]), Head(0), |Head(0)|, i)
  {
    hide BitsOf, Pack, Written;
    ghost var head := Head(0);
    HeadPacked(0);
    WrittenNone(BitsOf(buffer[..]), head);
    i := PutU(buffer, 0, 8, RTCM3PREAMB, head, 0);
    i := PutU(buffer, i, 6, 0, head, 1);
    i := PutU(buffer, i, 10, 0, head, 2);
  }

  lemma BitsOfPrefix(m: Bytes, k: nat)
    requires k <= |m|
    ensures BitsOf(m[..k]) == BitsOf(m)[..8 * k] && BitsOf(m[k..]) == BitsOf(m)[8 * k..]
  {
    hide BitsOf;
    BitsOfConcat(m[..k], m[k..]);
    assert m == m[..k] + m[k..];
  }

  /** The checksum matches the number in the last three bytes exactly when these are its bytes. */
  lemma WordDecides(c: bv24, w: Bytes)
    requires |w| == 3
    ensures Word24(c) == Num(BitsOf(w)) <==> w == Wire24(c)
  {
    hide Reg24, Num, Bin, BitsOf;
    WireReg24(c);
    BinNum(Reg24(c));
    BinNum(BitsOf(w));
    if BitsOf(w) == Reg24(c) {
      BitsOfInjective(w, Wire24(c));
    }
  }

  /** A buffer holding header, data and checksum holds a frame. */
  lemma FrameMade(m: Bytes, len: nat, body: Message)
    requires 3 <= len < 1027 && len + 3 <= |m|
    requires BitsOf(m)[..8 * len] == HeadBits(len - 3) + Padded(Pack(body))
    requires BitsOf(m)[8 * len..8 * len + 24] == Reg24(Checksum24(m[..len]))
    ensures Encodes(m[..len + 3], body)
  {
    hide Reg24, Num, Bin, BitsOf, Pack, Wire24, Checksum24, HeadBits, Padded, Field;
    var f, data := m[..len + 3], Padded(Pack(body));
    PrefixOfPrefix(m, len);
    HeadFields(f, data);
    WireReg24(Checksum24(f[..len]));
    BitsOfInjective(f[len..], Wire24(Checksum24(f[..len])));
  }

  lemma PrefixOfPrefix(m: Bytes, len: nat)
    requires len + 3 <= |m|
    ensures var f := m[..len + 3];
            && f[..len] == m[..len] && BitsOf(f[..len]) == BitsOf(f)[..8 * len] == BitsOf(m)[..8 * len]
            && BitsOf(f[len..]) == BitsOf(m)[8 * len..8 * len + 24]
  {
    hide BitsOf;
    BitsOfPrefix(m, len + 3);
    BitsOfPrefix(m[..len + 3], len);
  }

  lemma HeadFields(f: Bytes, data: Bits)
    requires 6 <= |f| < 1030 && |data| == 8 * (|f| - 6)
    requires BitsOf(f)[..8 * (|f| - 3)] == HeadBits(|f| - 6) + data
    ensures f[0] == RTCM3PREAMB && Field(f, 14, 10) == |f| - 6
  {
    var n := |f| - 6;
    hide HeadBits, BitsOf, Bin;
    HeadSlices(BitsOf(f), n, data);
    FirstByte(f);
    ByteRange();
    assert Pow2(10) == 1024;
    NumBin(n, 10);
    NumBin(f[0], 8);
    NumBin(RTCM3PREAMB, 8);
  }

  lemma HeadSlices(bits: Bits, n: nat, data: Bits)
    requires 24 + |data| <= |bits| && bits[..24 + |data|] == HeadBits(n) + data
    ensures bits[..8] == Bin(RTCM3PREAMB, 8) && bits[14..24] == Bin(n, 10)
  {
    hide Bin;
    var head := HeadBits(n);
    assert head[..8] == Bin(RTCM3PREAMB, 8) && head[14..] == Bin(n, 10);
    hide HeadBits;
    assert bits[..24] == bits[..24 + |data|][..24] == head;
    assert bits[..8] == bits[..24][..8] && bits[14..24] == bits[..24][14..];
  }

  lemma FirstByte(f: Bytes)
    requires f != []
    ensures BitsOf(f)[..8] == Bin(f[0], 8)
  {
    hide BitsOf, Bin;
    BitsOfSplit(f, 0);
    assert |BitsOf(f[..0])| == 0;
  }

  lemma HeadPatched(bits: Bits, n: nat, data: Bits)
    requires n < 1024 && 24 + |data| <= |bits| && bits[..24 + |data|] == HeadBits(0) + data
    ensures Put(bits, 14, Bin(n, 10))[..24 + |data|] == HeadBits(n) + data
  {
    hide Bin;
    var a, b := HeadBits(0), HeadBits(n);
    assert a[..14] == b[..14] && b[14..] == Bin(n, 10);
    hide HeadBits;
    var bits', k := Put(bits, 14, Bin(n, 10)), 24 + |data|;
    assert bits[..k][..14] == a[..14];
    assert bits'[..k] == a[..14] + Bin(n, 10) + bits[..k][24..];
  }

  /** Zero bits up to the next whole byte. */
  method Pad(buffer: array<Byte>, nbit: nat) returns (i: nat)
    requires (nbit + 7) / 8 <= buffer.Length
    modifies buffer
    ensures i <= 8 * buffer.Length
    ensures BitsOf(buffer[..])[..i] == Padded(BitsOf(old(buffer[..]))[..nbit])
  {
    hide BitsOf, Bin, Padded, Put;
    ghost var was := BitsOf(buffer[..])[..nbit];
    ghost var end := |Padded(was)|;
    i := nbit;
    while i % 8 != 0
      invariant nbit <= i <= end
      invariant BitsOf(buffer[..])[..i] == was + Zeros(i - nbit)
      decreases end - i
    {
      ghost var before := BitsOf(buffer[..]);
      SetBitU(buffer, i, 1, 0);
      ZeroBit(before, i);
      i := i + 1;
    }
  }

  lemma ZeroBit(bits: Bits, i: nat)
    requires i < |bits|
    ensures Put(bits, i, Bin(0, 1))[..i + 1] == bits[..i] + [false]
  {
    assert Bin(0, 1) == [false];
  }

  lemma PaddedAfter(head: Bits, bits: Bits)
    requires |head| == 24
    ensures Padded(head + bits) == head + Padded(bits)
  {
    assert |head + bits| % 8 == |bits| % 8;
  }

  /** encode_end: pads, writes the length and the checksum; 0 when the message is too long for a frame. */
  method EncodeEnd(buffer: array<Byte>, nbit: nat, ghost body: Message) returns (total: nat)
    requires (nbit + 7) / 8 + 3 <= buffer.Length
    requires Written(BitsOf(buffer[..]), Head(0) + body, |Head(0) + body|, nbit)
    modifies buffer
    ensures total == 0 <==> |Pack(body)| > 8 * 1023
    ensures total > 0 ==> total <= buffer.Length && Encodes(buffer[..total], body)
  {
    hide Bin, BitsOf, Pack, Encodes, Put, HeadBits, Padded, Head, Reg24, Checksum24;
    PackConcat(Head(0), body);
    assert (Head(0) + body)[..|Head(0) + body|] == Head(0) + body;
    HeadPacked(0);
    PaddedAfter(HeadBits(0), Pack(body));
    ghost var data := Padded(Pack(body));
    var i := Pad(buffer, nbit);
    var len := i / 8;
    assert 8 * len == i == 24 + |data|;
    if len >= 3 + 1024 {
      return 0;
    }
    HeadPatched(BitsOf(buffer[..]), len - 3, data);
    SetBitU(buffer, 14, 10, len - 3);
    assert BitsOf(buffer[..])[..8 * len] == HeadBits(len - 3) + data;
    total := AppendChecksum(buffer, len);
    FrameMade(buffer[..], len, body);
    assert buffer[..][..total] == buffer[..total];
  }

  /** The checksum after the first len bytes. */
  method AppendChecksum(buffer: array<Byte>, len: nat) returns (total: nat)
    requires len + 3 <= buffer.Length
    modifies buffer
    ensures total == len + 3
    ensures BitsOf(buffer[..])[..8 * len] == BitsOf(old(buffer[..]))[..8 * len]
    ensures BitsOf(buffer[..])[8 * len..8 * total] == Reg24(Checksum24(buffer[..][..len]))
  {
    hide BitsOf, Num, Bin, Reg24, Checksum24;
    var crc := Crc24q(buffer, len);
    ghost var was := buffer[..];
    BinNum(Reg24(crc));
    assert Word24(crc) < WORD by { WordRange(); Pow2Mono(24, 32); }
    SetBitU(buffer, 8 * len, 24, Word24(crc));
    BitsOfPrefix(was, len);
    BitsOfPrefix(buffer[..], len);
    BitsOfInjective(was[..len], buffer[..][..len]);
    assert was[..len] == old(buffer[..len]);
    total := len + 3;
  }

  lemma EncodedIsFrame(f: Bytes, body: Message)
    requires Encodes(f, body)
    ensures |f| >= 6 && IsFrame(f)
  {
    hide Pack, Padded, Checked, Field, BitsOf;
  }

  lemma EncodedLength(f: Bytes, body: Message)
    requires Encodes(f, body)
    ensures |f| == 6 + (|Pack(body)| + 7) / 8
  {
    hide Pack, Padded, Checked, Field;
    var n, m := |f| - 6, |Padded(Pack(body))|;
    assert |BitsOf(f[..|f| - 3])| == 8 * (n + 3);
    hide BitsOf;
  }

  // ----- the receiver

  /** The message number. */
  function Type(f: Bytes): nat
    requires |f| >= 6
  {
    Field(f, 24, 12)
  }

  /** A frame handed over, with its message number. */
  datatype Received = Received(frame: Bytes, kind: nat)

  /** rtcm3_input_data: `buf` is the frame received so far. Gives the frame so far after this byte, the
      program's return value, and the frames handed over (at most one). */
  function Input(buf: Bytes, b: Byte): (Bytes, int, seq<Received>) {
    if buf == [] then (if b == RTCM3PREAMB then ([b], 0, []) else ([], -1, []))
    else Stored(buf + [b])
  }

  /** The same after a later byte has been stored. */
  function Stored(m: Bytes): (Bytes, int, seq<Received>) {
    if |m| < 3 || |m| < Field(m, 14, 10) + 6 then (m, 0, []) else Verdict(m[..Field(m, 14, 10) + 6])
  }

  /** The same when the last byte is in. */
  function Verdict(m: Bytes): (Bytes, int, seq<Received>)
    requires |m| >= 6
  {
    if Checked(m) then ([], Type(m), [Received(m, Type(m))]) else ([], -2, [])
  }

  lemma FieldOfPrefix(m: Bytes, k: nat, pos: nat, len: nat)
    requires k <= |m| && pos + len <= 8 * k
    ensures Field(m[..k], pos, len) == Field(m, pos, len)
  {
    hide BitsOf;
    BitsOfPrefix(m, k);
    assert BitsOf(m)[..8 * k][pos..pos + len] == BitsOf(m)[pos..pos + len];
  }

  /** Every byte of a frame is taken, and the last completes it. */
  lemma FrameTaken(f: Bytes, k: nat)
    requires IsFrame(f) && k < |f|
    ensures Input(f[..k], f[k]) == if k == |f| - 1 then ([], Type(f), [Received(f, Type(f))]) else (f[..k + 1], 0, [])
  {
    hide Wire24, Checksum24, Field;
    var m := f[..k] + [f[k]];
    assert m == f[..k + 1];
    if k + 1 >= 3 {
      FieldOfPrefix(f, k + 1, 14, 10);
    }
    if k == 0 {
      assert m == [f[0]];
    } else if k == |f| - 1 {
      assert m == f && m[..|f|] == f;
    }
  }

  /** What the bytes held so far must satisfy. */
  predicate Pending(buf: Bytes) {
    buf != [] ==> buf[0] == RTCM3PREAMB && (|buf| >= 3 ==> |buf| < Field(buf, 14, 10) + 6)
  }

  /** Only frames are handed over, and only the frame made of the bytes held and the new one. */
  lemma InputSound(buf: Bytes, b: Byte)
    requires Pending(buf)
    ensures var (m, code, out) := Input(buf, b);
            && Pending(m) && (m == [] || m == buf + [b])
            && (out == [] || (IsFrame(buf + [b]) && code == Type(buf + [b]) && out == [Received(buf + [b], code)]))
            && (code < 0 <==> out == [] && m == []) && (m != [] ==> out == [])
  {
    hide Wire24, Checksum24, Field;
    var m := buf + [b];
    if buf != [] && |m| >= 3 {
      if |buf| >= 3 {
        FieldOfPrefix(m, |buf|, 14, 10);
        assert m[..|buf|] == buf;
      }
      assert m[..|m|] == m;
    }
  }

  /** A rejected byte hands nothing over. */
  lemma RejectedSilent(buf: Bytes, b: Byte)
    ensures Input(buf, b).1 < 0 ==> Input(buf, b).2 == [] && Input(buf, b).0 == []
  {
    hide Checked, Field;
  }

  lemma LengthSmall(m: Bytes)
    requires |m| >= 3
    ensures Field(m, 14, 10) < 1024
  {
    hide BitsOf;
    assert Pow2(10) == 1024;
  }

  lemma StoredCases(m: Bytes)
    ensures |m| < 3 || |m| < Field(m, 14, 10) + 6 ==> Stored(m) == (m, 0, [])
    ensures |m| >= 3 && |m| == Field(m, 14, 10) + 6 ==> Stored(m) == Verdict(m)
  {
    hide Verdict, Field;
    if |m| >= 3 {
      assert m[..|m|] == m;
    }
  }

  /** Comparing the register with the number in the last field decides. */
  lemma CheckedIs(m: Bytes, len: nat, c: bv24)
    requires |m| == len + 3 && c == Checksum24(m[..len])
    ensures Word24(c) == Field(m, 8 * len, 24) <==> Checked(m)
  {
    hide Wire24, Checksum24, BitsOf, Num, Word24;
    LastBytes(m, len);
    WordDecides(c, m[len..]);
  }

  lemma LastBytes(m: Bytes, len: nat)
    requires |m| == len + 3
    ensures Field(m, 8 * len, 24) == Num(BitsOf(m[len..]))
  {
    hide Num, BitsOf;
    BitsOfPrefix(m, len);
    assert BitsOf(m)[8 * len..8 * len + 24] == BitsOf(m)[8 * len..];
  }

  /** A field of the first n bytes. */
  method GetField(buffer: array<Byte>, n: nat, pos: nat, len: nat) returns (v: nat)
    requires n <= buffer.Length && pos + len <= 8 * n && len <= 32
    ensures v == Field(buffer[..n], pos, len)
  {
    hide Num, BitsOf;
    v := GetBitU(buffer, pos, len);
    FieldOfPrefix(buffer[..], n, pos, len);
    assert buffer[..][..n] == buffer[..n];
  }

  /** A frame hit by an error burst of at most 24 bits that spares its length is refused when it is complete. */
  lemma BurstRefused(f: Bytes, f': Bytes, c': bv24, i: nat)
    requires IsFrame(f) && |f'| == |f| && f'[|f'| - 3..] == Wire24(c') && BurstApart(f, f', i, 24)
    requires Field(f', 14, 10) == |f'| - 6
    ensures !Checked(f') && Stored(f') == ([], -2, [])
  {
    hide Wire24, Checksum24, BurstApart, Field, Stored;
    var n := |f| - 3;
    assert f == f[..n] + f[n..] && f' == f'[..n] + f'[n..];
    Checksum24Detects(f[..n], Checksum24(f[..n]), f'[..n], c', i);
    WireDiffers(c', Checksum24(f'[..n]));
    StoredCases(f');
  }

  lemma WireDiffers(a: bv24, b: bv24)
    requires a != b
    ensures Wire24(a) != Wire24(b)
  {
    hide Wire24, Reg24;
    WireReg24(a);
    WireReg24(b);
    WireInjective24(a, b);
  }

  /** Feeding bytes one at a time: the frame held at the end and the frames handed over. */
  function Feed(buf: Bytes, bytes: Bytes): (Bytes, seq<Received>)
    decreases |bytes|
  {
    if bytes == [] then (buf, [])
    else
      var (buf1, _, o1) := Input(buf, bytes[0]);
      var (buf2, o2) := Feed(buf1, bytes[1..]);
      (buf2, o1 + o2)
  }

  lemma {:induction false} FeedRest(f: Bytes, k: nat)
    requires IsFrame(f) && k < |f|
    ensures Feed(f[..k], f[k..]) == ([], [Received(f, Type(f))])
    decreases |f| - k
  {
    hide Input, Field, Checked;
    FrameTaken(f, k);
    var out := [Received(f, Type(f))];
    assert f[k..][1..] == f[k + 1..] && [] + out == out + [] == out;
    if k + 1 < |f| {
      FeedRest(f, k + 1);
    } else {
      assert f[k + 1..] == [];
    }
  }

  /** A frame fed bytewise is handed over once, with its number. */
  lemma FeedFrame(f: Bytes)
    requires IsFrame(f)
    ensures Feed([], f) == ([], [Received(f, Type(f))])
  {
    FeedRest(f, 0);
    assert f[..0] == [] && f[0..] == f;
  }

  class Receiver {
    const buffer: array<Byte>
    var bufferPtr: nat
    var len: nat
    var frames: seq<Received>  // what the frame callback was given

    ghost function Held(): Bytes
      requires bufferPtr <= buffer.Length
      reads this, buffer
    {
      buffer[..bufferPtr]
    }

    ghost predicate Valid()
      reads this, buffer
    {
      && buffer.Length == BUFFER_SIZE && bufferPtr < 1029
      && (bufferPtr >= 3 ==> len == Field(Held(), 14, 10) + 3 && bufferPtr < len + 3)
    }

    constructor ()
      ensures Valid() && Held() == [] && len == 0 && frames == [] && fresh(buffer)
    {
      buffer := new Byte[BUFFER_SIZE](_ => 0);
      bufferPtr, len, frames := 0, 0, [];
    }

    /** In no state does a byte write outside the buffer. */
    method InputData(data: Byte) returns (code: int)
      requires Valid()
      modifies this, buffer
      ensures Valid()
      ensures Held() == Input(old(Held()), data).0 && code == Input(old(Held()), data).1
      ensures frames == old(frames) + Input(old(Held()), data).2
    {
      hide Wire24, Checksum24, BitsOf, Num, Word24;
      if bufferPtr == 0 {
        if data != RTCM3PREAMB {
          return -1;
        }
        buffer[0] := data;
        bufferPtr := 1;
        return 0;
      }
      ghost var m := Held() + [data];
      buffer[bufferPtr] := data;
      bufferPtr := bufferPtr + 1;
      assert Held() == m;
      if bufferPtr > 3 {
        FieldOfPrefix(m, bufferPtr - 1, 14, 10);
        assert m[..bufferPtr - 1] == old(Held());
      }
      code := Complete();
    }

    /** The part of InputData after a byte has been stored. */
    method Complete() returns (code: int)
      requires buffer.Length == BUFFER_SIZE && 2 <= bufferPtr < 1030
      requires bufferPtr > 3 ==> len == Field(Held(), 14, 10) + 3 && bufferPtr <= len + 3
      modifies this
      ensures Valid()
      ensures Held() == Stored(old(Held())).0 && code == Stored(old(Held())).1
      ensures frames == old(frames) + Stored(old(Held())).2
    {
      hide Wire24, Checksum24, Field, Word24, Stored, Verdict;
      ghost var m := Held();
      StoredCases(m);
      if bufferPtr > 3 {
        LengthSmall(m);
      }
      if bufferPtr == 3 {
        var n := GetField(buffer, 3, 14, 10);
        assert buffer[..3] == m;
        len := n + 3;
      }
      if bufferPtr < 3 || bufferPtr < len + 3 {
        return 0;
      }
      bufferPtr := 0;
      code := Decide(m);
    }

    /** A whole frame m is in the buffer. */
    method Decide(ghost m: Bytes) returns (code: int)
      requires buffer.Length == BUFFER_SIZE && len + 3 <= buffer.Length && len >= 3 && m == buffer[..len + 3]
      modifies this`frames
      ensures Verdict(m).0 == [] && code == Verdict(m).1 && frames == old(frames) + Verdict(m).2
    {
      hide Checked, Checksum24, Field, Word24;
      assert buffer[..len] == m[..len];
      var crc := Crc24q(buffer, len);
      var got := GetField(buffer, len + 3, len * 8, 24);
      CheckedIs(m, len, crc);
      if Word24(crc) != got {
        return -2;
      }
      code := GetField(buffer, len + 3, 24, 12);
      frames := frames + [Received(buffer[..len + 3], code)];
    }
  }
}
