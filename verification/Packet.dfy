/** The USB packet framer: a sender, and a receiver driven by bytes and a millisecond tick. */
module Packet {
  import opened Octets
  import opened Division
  import opened Crc16

  const PACKET_RX_TIMEOUT: nat := 2
  const PACKET_MAX_PL_LEN: nat := 1024

  // ----- frames

  /** The header of a frame of n bytes. */
  function Header(n: nat): (h: Bytes)
    ensures 2 <= |h| <= 3
  {
    if n <= 256 then [2, LowByte(n)] else [3, HighByte(n), LowByte(n)]
  }

  /** The bytes sent for a payload; none at all when it is too long. */
  function Frame(data: Bytes): Bytes {
    if |data| > PACKET_MAX_PL_LEN then [] else Header(|data|) + data + Check(data) + [3]
  }

  /** Payloads a frame can carry: not empty, not too long, and not of the one length whose short header reads 0. */
  predicate Sendable(data: Bytes) {
    1 <= |data| <= PACKET_MAX_PL_LEN && |data| != 256
  }

  // ----- the receiver as a state machine

  /** `buf` is the part of the receive buffer filled so far. */
  datatype Rx = Rx(state: nat, timeout: nat, length: nat, buf: Bytes, high: Byte, low: Byte)

  function Idle(r: Rx): Rx {
    r.(state := 0)
  }

  function Next(r: Rx): Rx {
    r.(state := r.state + 1, timeout := PACKET_RX_TIMEOUT)
  }

  /** One received byte: the new state and the payloads handed over (at most one). */
  function Step(r: Rx, b: Byte): (Rx, seq<Bytes>) {
    match r.state
    case 0 =>
      if b == 2 then (Rx(2, PACKET_RX_TIMEOUT, 0, [], r.high, r.low), [])
      else if b == 3 then (Rx(1, PACKET_RX_TIMEOUT, 0, [], r.high, r.low), [])
      else (Idle(r), [])
    case 1 => (Next(r.(length := 256 * (b as nat))), [])
    case 2 =>
      var n := r.length + b;
      if 0 < n <= PACKET_MAX_PL_LEN then (Next(r.(length := n)), []) else (Idle(r.(length := n)), [])
    case 3 =>
      var r' := r.(buf := r.buf + [b], timeout := PACKET_RX_TIMEOUT);
      (if |r'.buf| == r.length then Next(r') else r', [])
    case 4 => (Next(r.(high := b)), [])
    case 5 => (Next(r.(low := b)), [])
    case 6 => (Idle(r), if b == 3 && Check(r.buf) == [r.high, r.low] then [r.buf] else [])
    case _ => (Idle(r), [])
  }

  function Tick(r: Rx): Rx {
    if r.timeout > 0 then r.(timeout := r.timeout - 1) else Idle(r)
  }

  function Ticks(r: Rx, n: nat): Rx
    decreases n
  {
    if n == 0 then r else Ticks(Tick(r), n - 1)
  }

  /** A byte together with the number of timer ticks since the one before it. */
  datatype Timed = Timed(gap: nat, b: Byte)

  function Run(r: Rx, s: seq<Timed>): (Rx, seq<Bytes>)
    decreases |s|
  {
    if s == [] then (r, [])
    else
      var (r1, o1) := Step(Ticks(r, s[0].gap), s[0].b);
      var (r2, o2) := Run(r1, s[1..]);
      (r2, o1 + o2)
  }

  // ----- timing

  lemma {:induction false} TicksPatient(r: Rx, n: nat)
    ensures n <= r.timeout ==> Ticks(r, n) == r.(timeout := r.timeout - n)
    ensures n > r.timeout ==> Ticks(r, n).state == 0 && Ticks(r, n).timeout == 0
    ensures Ticks(r, n).buf == r.buf && (r.state == 0 ==> Ticks(r, n).state == 0)
    ensures Ticks(r, n).length == r.length && Ticks(r, n).high == r.high && Ticks(r, n).low == r.low
    ensures Ticks(r, n).state == r.state || Ticks(r, n).state == 0
    decreases n
  {
    if n > 0 {
      TicksPatient(Tick(r), n - 1);
    }
  }

  /** Three ticks without a byte always return the receiver to its initial state. */
  lemma SilenceResets(r: Rx, n: nat)
    requires r.timeout <= PACKET_RX_TIMEOUT && n >= 3
    ensures Ticks(r, n).state == 0
  {
    TicksPatient(r, n);
  }

  lemma {:induction false} RunConcat(r: Rx, s: seq<Timed>, t: seq<Timed>)
    ensures var (r1, o1) := Run(r, s); var (r2, o2) := Run(r1, t); Run(r, s + t) == (r2, o1 + o2)
    decreases |s|
  {
    if s == [] {
      assert s + t == t && [] + Run(r, t).1 == Run(r, t).1;
    } else {
      assert (s + t)[1..] == s[1..] + t;
      var (r1, o1) := Step(Ticks(r, s[0].gap), s[0].b);
      RunConcat(r1, s[1..], t);
      var (r2, o2) := Run(r1, s[1..]);
      assert o1 + (o2 + Run(r2, t).1) == (o1 + o2) + Run(r2, t).1;
    }
  }

  // ----- completeness: what is sent is received

  /** s carries these bytes with at most two ticks before each. */
  ghost predicate Prompt(bytes: Bytes, s: seq<Timed>) {
    |s| == |bytes| && forall i | 0 <= i < |s| :: s[i].b == bytes[i] && s[i].gap <= PACKET_RX_TIMEOUT
  }

  /** As Prompt, but with any number of ticks before the first byte. */
  ghost predicate Spaced(bytes: Bytes, s: seq<Timed>) {
    && |s| == |bytes|
    && forall i | 0 <= i < |s| :: s[i].b == bytes[i] && (i > 0 ==> s[i].gap <= PACKET_RX_TIMEOUT)
  }

  lemma PromptByte(r: Rx, s: seq<Timed>)
    requires s != [] && r.timeout == PACKET_RX_TIMEOUT && s[0].gap <= PACKET_RX_TIMEOUT
    ensures var (r1, o1) := Step(r.(timeout := r.timeout - s[0].gap), s[0].b);
            var (r2, o2) := Run(r1, s[1..]);
            Run(r, s) == (r2, o1 + o2)
  {
    TicksPatient(r, s[0].gap);
  }

  lemma {:induction false} PayloadRead(r: Rx, data: Bytes, s: seq<Timed>)
    requires r.state == 3 && r.timeout == PACKET_RX_TIMEOUT && |r.buf| + |data| == r.length && data != [] && Prompt(data, s)
    ensures Run(r, s) == (r.(state := 4, timeout := PACKET_RX_TIMEOUT, buf := r.buf + data), [])
    decreases |data|
  {
    hide Check, Ticks, HighByte, LowByte;
    PromptByte(r, s);
    var r1 := Step(r.(timeout := r.timeout - s[0].gap), s[0].b).0;
    assert data == [data[0]] + data[1..];
    if |data| == 1 {
      assert s[1..] == [] && r.buf + data == r.buf + [data[0]];
    } else {
      PayloadRead(r1, data[1..], s[1..]);
      assert r1.buf + data[1..] == r.buf + data;
    }
  }

  /** After a payload, the two checksum bytes and the end byte decide: it is handed over exactly when
      they are the ones the sender computes for it. */
  lemma TrailerRead(r: Rx, w: Bytes, s: seq<Timed>)
    requires r.state == 4 && r.timeout == PACKET_RX_TIMEOUT && |w| == 2 && Prompt(w + [3], s)
    ensures Run(r, s).0.state == 0 && Run(r, s).0.timeout <= PACKET_RX_TIMEOUT
    ensures Run(r, s).1 == if Check(r.buf) == w then [r.buf] else []
  {
    hide Check;
    assert forall i | 0 <= i < 3 :: s[i].b == (w + [3])[i];
    PromptByte(r, s);
    var r1 := Step(r.(timeout := r.timeout - s[0].gap), s[0].b).0;
    PromptByte(r1, s[1..]);
    var r2 := Step(r1.(timeout := r1.timeout - s[1].gap), s[1].b).0;
    PromptByte(r2, s[2..]);
    assert s[1..][1..] == s[2..] && s[2..][1..] == [];
  }

  lemma ShortHeaderRead(r: Rx, n: nat, s: seq<Timed>)
    requires r.state == 0 && 1 <= n < 256 && Spaced([2, LowByte(n)], s)
    ensures Run(r, s) == (Rx(3, PACKET_RX_TIMEOUT, n, [], r.high, r.low), [])
  {
    hide Check;
    TicksPatient(r, s[0].gap);
    var r1 := Rx(2, PACKET_RX_TIMEOUT, 0, [], r.high, r.low);
    assert Step(Ticks(r, s[0].gap), s[0].b) == (r1, []);
    var t := s[1..];
    assert t[0].b == s[1].b == LowByte(n);
    PromptByte(r1, t);
    var r2 := Rx(3, PACKET_RX_TIMEOUT, n, [], r.high, r.low);
    assert Step(r1.(timeout := r1.timeout - t[0].gap), t[0].b) == (r2, []);
    assert t[1..] == [] && Run(r2, t[1..]) == (r2, []);
    assert Run(r1, t) == (r2, [] + []) && [] + Run(r1, t).1 == [];
    assert Run(r, s) == (r2, [] + Run(r1, t).1);
  }

  lemma LongHeaderRead(r: Rx, n: nat, s: seq<Timed>)
    requires r.state == 0 && 1 <= n <= PACKET_MAX_PL_LEN && Spaced([3, HighByte(n), LowByte(n)], s)
    ensures Run(r, s) == (Rx(3, PACKET_RX_TIMEOUT, n, [], r.high, r.low), [])
  {
    hide Check;
    TicksPatient(r, s[0].gap);
    var t, u := s[1..], s[2..];
    assert t[1..] == u && u[1..] == [];
    assert t[0].b == s[1].b == HighByte(n) && u[0].b == s[2].b == LowByte(n);
    var r1 := Rx(1, PACKET_RX_TIMEOUT, 0, [], r.high, r.low);
    var r2 := Rx(2, PACKET_RX_TIMEOUT, 256 * (HighByte(n) as nat), [], r.high, r.low);
    var r3 := Rx(3, PACKET_RX_TIMEOUT, n, [], r.high, r.low);
    PromptByte(r2, u);
    assert Run(r2, u) == (r3, [] + []);
    PromptByte(r1, t);
    assert Run(r1, t) == (r3, [] + []);
    assert s[0].b == 3 && Step(Ticks(r, s[0].gap), s[0].b) == (r1, []);
    assert Run(r, s) == (r3, [] + Run(r1, t).1);
  }

  lemma HeaderRead(r: Rx, n: nat, s: seq<Timed>)
    requires r.state == 0 && 1 <= n <= PACKET_MAX_PL_LEN && n != 256 && Spaced(Header(n), s)
    ensures Run(r, s) == (Rx(3, PACKET_RX_TIMEOUT, n, [], r.high, r.low), [])
  {
    hide Step, Run;
    if n > 256 {
      LongHeaderRead(r, n, s);
    } else {
      ShortHeaderRead(r, n, s);
    }
  }

  lemma FrameSplit(a: Bytes, b: Bytes, c: Bytes, s: seq<Timed>)
    requires Spaced(a + b + c + [3], s) && a != []
    ensures Spaced(a, s[..|a|]) && Prompt(b, s[|a|..|a| + |b|]) && Prompt(c + [3], s[|a| + |b|..])
    ensures s == (s[..|a|] + s[|a|..|a| + |b|]) + s[|a| + |b|..]
  {
    var t := a + b + c + [3];
    assert forall i | 0 <= i < |a| :: t[i] == a[i];
    assert forall i | 0 <= i < |b| :: t[|a| + i] == b[i];
    assert forall i | 0 <= i < |c| + 1 :: t[|a| + |b| + i] == (c + [3])[i];
  }

  /** A whole frame with any two checksum bytes: header, payload, checksum, end. */
  lemma FrameRead(r: Rx, data: Bytes, w: Bytes, s: seq<Timed>)
    requires r.state == 0 && Sendable(data) && |w| == 2
    requires Spaced(Header(|data|) + data + w + [3], s)
    ensures Run(r, s).0.state == 0 && Run(r, s).0.timeout <= PACKET_RX_TIMEOUT
    ensures Run(r, s).1 == if Check(data) == w then [data] else []
  {
    hide Check, Step, Run, Header;
    var head, n := Header(|data|), |data|;
    var h := |head|;
    var s1, s2, s3 := s[..h], s[h..h + n], s[h + n..];
    FrameSplit(head, data, w, s);
    HeaderRead(r, n, s1);
    var r1 := Run(r, s1).0;
    PayloadRead(r1, data, s2);
    assert [] + data == data;
    var r2 := Run(r1, s2).0;
    TrailerRead(r2, w, s3);
    RunConcat(r, s1, s2);
    RunConcat(r, s1 + s2, s3);
  }

  /** The stream s is the frames of these payloads one after another, with any pause between frames and at
      most two ticks between the bytes of one. */
  ghost predicate Carries(datas: seq<Bytes>, s: seq<Timed>)
    decreases |datas|
  {
    if datas == [] then s == []
    else
      var n := |Frame(datas[0])|;
      n <= |s| && Spaced(Frame(datas[0]), s[..n]) && Carries(datas[1..], s[n..])
  }

  /** Every sequence of sendable payloads is delivered exactly once, in order, whatever the timing allows. */
  lemma {:induction false} DeliversAll(r: Rx, datas: seq<Bytes>, s: seq<Timed>)
    requires r.state == 0
    requires forall d | d in datas :: Sendable(d)
    requires Carries(datas, s)
    ensures Run(r, s).1 == datas && Run(r, s).0.state == 0
    decreases |datas|
  {
    hide Check, Step, Header, Spaced;
    if datas != [] {
      var d, n := datas[0], |Frame(datas[0])|;
      FrameRead(r, d, Check(d), s[..n]);
      DeliversAll(Run(r, s[..n]).0, datas[1..], s[n..]);
      RunConcat(r, s[..n], s[n..]);
      assert s[..n] + s[n..] == s && datas == [d] + datas[1..];
    }
  }

  /** A frame whose payload and checksum are hit by an error burst of at most 16 bits delivers nothing. */
  lemma BurstDropped(r: Rx, data: Bytes, data': Bytes, c': bv16, i: nat, s: seq<Timed>)
    requires r.state == 0 && Sendable(data) && |data'| == |data|
    requires BurstApart(data + Check(data), data' + Wire16(c'), i, 16)
    requires Spaced(Header(|data|) + data' + Wire16(c') + [3], s)
    ensures Run(r, s).1 == [] && Run(r, s).0.state == 0
  {
    Checksum16Detects(data, Checksum16(data), data', c', i);
    WireReg16(c');
    WireReg16(Checksum16(data'));
    WireInjective16(c', Checksum16(data'));
    hide Checksum16, Wire16, Reg16, Step, Header, BitsOf, Run;
    FrameRead(r, data', Wire16(c'), s);
  }

  // ----- soundness: what is handed over was framed, on any byte stream with any timing

  function BytesOf(s: seq<Timed>): (bytes: Bytes)
    ensures |bytes| == |s|
  {
    seq(|s|, i requires 0 <= i < |s| => s[i].b)
  }

  predicate EndsWith(h: Bytes, x: Bytes) {
    |x| <= |h| && h[|h| - |x|..] == x
  }

  /** Header with the short or the long form of the length. */
  function Head(long: bool, n: nat): Bytes {
    if long then [3, HighByte(n), LowByte(n)] else [2, LowByte(n)]
  }

  /** p in a frame whose header has the given form. */
  predicate Framed(long: bool, p: Bytes, bytes: Bytes) {
    && 1 <= |p| <= PACKET_MAX_PL_LEN && (long || |p| < 256)
    && bytes == Head(long, |p|) + p + Check(p) + [3]
  }

  /** How the bytes h received so far explain the receiver's state. */
  predicate Explains(h: Bytes, r: Rx, long: bool) {
    match r.state
    case 0 => true
    case 1 => long && r.buf == [] && EndsWith(h, [3])
    case 2 =>
      r.buf == [] &&
      if long then r.length < 0x10000 && r.length % 256 == 0 && EndsWith(h, [3, HighByte(r.length)])
      else r.length == 0 && EndsWith(h, [2])
    case _ =>
      && r.state <= 6 && 1 <= r.length <= PACKET_MAX_PL_LEN && (long || r.length < 256)
      && (if r.state == 3 then |r.buf| < r.length else |r.buf| == r.length)
      && EndsWith(h, Head(long, r.length) + r.buf +
                  (if r.state == 5 then [r.high] else if r.state == 6 then [r.high, r.low] else []))
  }

  lemma EndsWithSnoc(h: Bytes, x: Bytes, b: Byte)
    requires EndsWith(h, x)
    ensures EndsWith(h + [b], x + [b])
  {
    assert (h + [b])[|h| - |x|..] == h[|h| - |x|..] + [b];
  }

  lemma LengthRead(n: nat, b: Byte)
    requires n % 256 == 0
    ensures HighByte(n + b) == HighByte(n) && LowByte(n + b) == b && HighByte(256 * (b as nat)) == b
  {
    var q := n / 256;
    assert n + b == 256 * q + b && (256 * q + b) / 256 == q && (256 * q + b) % 256 == b;
  }

  lemma StartExplained(h: Bytes, r: Rx, b: Byte)
    requires r.state == 0
    ensures var (r', o) := Step(r, b); o == [] && (Explains(h + [b], r', true) || Explains(h + [b], r', false))
  {
    EndsWithSnoc(h, [], b);
    assert [] + [b] == [b];
  }

  lemma HighExplained(h: Bytes, r: Rx, long: bool, b: Byte)
    requires Explains(h, r, long) && r.state == 1
    ensures Step(r, b).1 == [] && Explains(h + [b], Step(r, b).0, true)
  {
    hide HighByte, LowByte, EndsWith;
    EndsWithSnoc(h, [3], b);
    LengthRead(0, b);
    assert [3] + [b] == [3, b];
  }

  lemma LowExplained(h: Bytes, r: Rx, long: bool, b: Byte)
    requires Explains(h, r, long) && r.state == 2
    ensures Step(r, b).1 == [] && Explains(h + [b], Step(r, b).0, long)
  {
    hide HighByte, LowByte, EndsWith, Check, Head;
    LengthRead(r.length, b);
    HeadSnoc(r.length, b);
    if long {
      EndsWithSnoc(h, [3, HighByte(r.length)], b);
    } else {
      EndsWithSnoc(h, [2], b);
    }
    var head := Head(long, r.length + b);
    assert head + [] + [] == head;
  }

  lemma HeadSnoc(n: nat, b: Byte)
    requires HighByte(n + b) == HighByte(n) && LowByte(n + b) == b
    ensures [3, HighByte(n)] + [b] == Head(true, n + b) && [2] + [b] == Head(false, n + b)
  {
    hide HighByte, LowByte;
  }

  lemma PayloadExplained(h: Bytes, r: Rx, long: bool, b: Byte)
    requires Explains(h, r, long) && r.state == 3
    ensures Explains(h + [b], Step(r, b).0, long) && Step(r, b).1 == []
  {
    hide Check, EndsWith, Head;
    var head := Head(long, r.length);
    EndsWithSnoc(h, head + r.buf + [], b);
    assert head + r.buf + [] + [b] == head + (r.buf + [b]) + [];
  }

  lemma CheckExplained(h: Bytes, r: Rx, long: bool, b: Byte)
    requires Explains(h, r, long) && 4 <= r.state <= 5
    ensures Explains(h + [b], Step(r, b).0, long) && Step(r, b).1 == []
  {
    hide Check, EndsWith, Head;
    var front := Head(long, r.length) + r.buf;
    if r.state == 4 {
      EndsWithSnoc(h, front + [], b);
      assert front + [] + [b] == front + [b];
    } else {
      EndsWithSnoc(h, front + [r.high], b);
      assert front + [r.high] + [b] == front + [r.high, b];
    }
  }

  lemma EndExplained(h: Bytes, r: Rx, long: bool, b: Byte)
    requires Explains(h, r, long) && r.state == 6
    ensures Step(r, b).0.state == 0
    ensures var bytes := Head(long, r.length) + r.buf + Check(r.buf) + [3];
            Step(r, b).1 == [] || (Step(r, b).1 == [r.buf] && Framed(long, r.buf, bytes) && EndsWith(h + [b], bytes))
  {
    hide Check, EndsWith, Head;
    EndsWithSnoc(h, Head(long, r.length) + r.buf + [r.high, r.low], b);
  }

  lemma StepExplained(h: Bytes, r: Rx, long: bool, b: Byte)
    requires Explains(h, r, long)
    ensures var (r', o) := Step(r, b);
            && (Explains(h + [b], r', true) || Explains(h + [b], r', false))
            && (forall p | p in o :: exists bytes :: EndsWith(h + [b], bytes) && Framed(long, p, bytes))
  {
    hide Check, EndsWith, Framed;
    if r.state == 0 {
      StartExplained(h, r, b);
    } else if r.state == 1 {
      HighExplained(h, r, long, b);
    } else if r.state == 2 {
      LowExplained(h, r, long, b);
    } else if r.state == 3 {
      PayloadExplained(h, r, long, b);
    } else if r.state <= 5 {
      CheckExplained(h, r, long, b);
    } else {
      EndExplained(h, r, long, b);
    }
  }

  lemma {:induction false} RunSound(h: Bytes, r: Rx, long: bool, s: seq<Timed>, p: Bytes)
    requires Explains(h, r, long) && p in Run(r, s).1
    ensures exists k: nat, l: bool, bytes ::
              k <= |s| && EndsWith(h + BytesOf(s[..k]), bytes) && Framed(l, p, bytes)
    decreases |s|
  {
    hide Check, Step, Explains, Framed, EndsWith;
    var t := Ticks(r, s[0].gap);
    var (r1, o1) := Step(t, s[0].b);
    TicksExplained(h, r, long, s[0].gap);
    StepExplained(h, t, long, s[0].b);
    var h1 := h + [s[0].b];
    if p in o1 {
      var bytes :| EndsWith(h1, bytes) && Framed(long, p, bytes);
      assert BytesOf(s[..1]) == [s[0].b];
      assert 1 <= |s| && EndsWith(h + BytesOf(s[..1]), bytes);
    } else {
      var l1 := Explains(h1, r1, true);
      RunSound(h1, r1, l1, s[1..], p);
      var k: nat, l: bool, bytes :| k <= |s[1..]| && EndsWith(h1 + BytesOf(s[1..][..k]), bytes) && Framed(l, p, bytes);
      assert h1 + BytesOf(s[1..][..k]) == h + BytesOf(s[..k + 1]);
      assert k + 1 <= |s| && EndsWith(h + BytesOf(s[..k + 1]), bytes);
    }
  }

  lemma TicksExplained(h: Bytes, r: Rx, long: bool, n: nat)
    requires Explains(h, r, long)
    ensures Explains(h, Ticks(r, n), long)
  {
    TicksPatient(r, n);
  }

  /** From idle, the frame of a payload delivers exactly that payload if and only if its length is one
      a frame can carry. */
  lemma DeliveredIffSendable(r: Rx, data: Bytes, s: seq<Timed>)
    requires r.state == 0 && Spaced(Frame(data), s)
    ensures Run(r, s).1 == [data] <==> 1 <= |data| <= 1024 && |data| != 256
  {
    hide Check, Step, Explains;
    if Sendable(data) {
      FrameRead(r, data, Check(data), s);
    } else if Run(r, s).1 == [data] {
      IdleExplained(r);
      assert data in Run(r, s).1;
      RunSound([], r, true, s, data);
      var k: nat, l: bool, bytes :| k <= |s| && EndsWith([] + BytesOf(s[..k]), bytes) && Framed(l, data, bytes);
    }
  }

  lemma IdleExplained(r: Rx)
    requires r.state == 0
    ensures Explains([], r, true)
  {
  }

  lemma {:induction false} PayloadAwaited(r: Rx, data: Bytes, s: seq<Timed>)
    requires r.state == 3 && r.timeout == PACKET_RX_TIMEOUT && |r.buf| + |data| < r.length && Prompt(data, s)
    ensures Run(r, s).0.state == 3 && Run(r, s).1 == []
    decreases |data|
  {
    if data != [] {
      PromptByte(r, s);
      PayloadAwaited(Step(r.(timeout := r.timeout - s[0].gap), s[0].b).0, data[1..], s[1..]);
    }
  }

  lemma EmptyCheck()
    ensures Check([]) == [0, 0]
  {
    Checksum16IsRemainder([]);
    WireReg16(0);
    ZeroReg16();
    BitsOfZero();
    BitsOfInjective(Wire16(0), [0, 0]);
  }

  lemma BitsOfZero()
    ensures BitsOf([0, 0]) == Zeros(16)
  {
    BitsOfConcat([0], [0]);
    BitsOfByte(0);
    assert [0, 0] == [0] + [0];
    ZeroBin(8);
  }

  lemma {:induction false} ZeroBin(n: nat)
    ensures Bin(0, n) == Zeros(n)
  {
    if n > 0 {
      ZeroBin(n - 1);
    }
  }

  /** One byte that delivers nothing. */
  lemma RunOne(r: Rx, s: seq<Timed>)
    requires s != [] && Step(Ticks(r, s[0].gap), s[0].b).1 == []
    ensures Run(r, s) == Run(Step(Ticks(r, s[0].gap), s[0].b).0, s[1..])
  {
    hide Step, Ticks;
    var r1 := Step(Ticks(r, s[0].gap), s[0].b).0;
    assert [] + Run(r1, s[1..]).1 == Run(r1, s[1..]).1;
  }

  /** The frame of an empty payload leaves the receiver expecting a length: its end byte is taken for the
      start of a long frame. */
  lemma EmptyFrameMisread(r: Rx, s: seq<Timed>)
    requires r.state == 0 && Spaced(Frame([]), s)
    ensures Run(r, s) == (Rx(1, PACKET_RX_TIMEOUT, 0, [], r.high, r.low), [])
  {
    assert Frame([]) == [2, 0, 0, 0, 3] by {
      EmptyCheck();
      hide Check;
      assert [2, 0] + [] + [0, 0] + [3] == [2, 0, 0, 0, 3];
    }
    var t := [2, 0, 0, 0, 3];
    assert s[0].b == t[0] && s[1].b == t[1] && s[2].b == t[2] && s[3].b == t[3] && s[4].b == t[4];
    hide Check;
    TicksPatient(r, s[0].gap);
    var r2 := Rx(2, PACKET_RX_TIMEOUT, 0, [], r.high, r.low);
    TicksPatient(r2, s[1].gap);
    var r0 := Step(Ticks(r2, s[1].gap), 0).0;
    TicksPatient(r0, s[2].gap);
    var r3 := Step(Ticks(r0, s[2].gap), 0).0;
    TicksPatient(r3, s[3].gap);
    var r4 := Step(Ticks(r3, s[3].gap), 0).0;
    TicksPatient(r4, s[4].gap);
    RunOne(r, s);
    RunOne(r2, s[1..]);
    RunOne(r0, s[2..]);
    RunOne(r3, s[3..]);
    RunOne(r4, s[4..]);
  }

  /** So a short frame that promptly follows an empty one is lost. */
  lemma EmptyFrameSwallowsNext(r: Rx, data: Bytes, s: seq<Timed>, t: seq<Timed>)
    requires r.state == 0 && Spaced(Frame([]), s) && 1 <= |data| <= 255 && Prompt(Frame(data), t)
    ensures Run(r, s + t).1 == [] && Run(r, s + t).0.state == 3
  {
    hide Check;
    EmptyFrameMisread(r, s);
    RunConcat(r, s, t);
    var r1 := Run(r, s).0;
    var f := Frame(data);
    assert f[0] == 2 && f[1] == LowByte(|data|) == |data|;
    TicksPatient(r1, t[0].gap);
    RunOne(r1, t);
    var r2 := Step(Ticks(r1, t[0].gap), t[0].b).0;
    TicksPatient(r2, t[1].gap);
    RunOne(r2, t[1..]);
    var r3 := Step(Ticks(r2, t[1].gap), t[1].b).0;
    assert t[1..][1..] == t[2..];
    assert Prompt(f[2..], t[2..]);
    PayloadAwaited(r3, f[2..], t[2..]);
  }

  /** Ticks before the first byte may be taken first. */
  lemma TicksFirst(r: Rx, s: seq<Timed>)
    requires s != []
    ensures Run(r, s) == Run(Ticks(r, s[0].gap), [Timed(0, s[0].b)] + s[1..])
  {
    hide Step;
    var t := [Timed(0, s[0].b)] + s[1..];
    assert t[0] == Timed(0, s[0].b) && t[1..] == s[1..];
    assert Ticks(Ticks(r, s[0].gap), 0) == Ticks(r, s[0].gap);
  }

  /** A short frame behind an empty one is delivered if and only if at least three ticks come before it. */
  lemma AfterEmptyFrameIff(r: Rx, data: Bytes, s: seq<Timed>, t: seq<Timed>)
    requires r.state == 0 && Spaced(Frame([]), s) && 1 <= |data| <= 255 && Spaced(Frame(data), t)
    ensures Run(r, s + t).1 == (if t[0].gap >= 3 then [data] else [])
    ensures Run(r, s + t).1 == [data] <==> t[0].gap >= 3
  {
    hide Check, Step, Run;
    if t[0].gap >= 3 {
      EmptyFrameMisread(r, s);
      RunConcat(r, s, t);
      var r1 := Run(r, s).0;
      SilenceResets(r1, t[0].gap);
      TicksFirst(r1, t);
      FrameRead(Ticks(r1, t[0].gap), data, Check(data), [Timed(0, t[0].b)] + t[1..]);
    } else {
      EmptyFrameSwallowsNext(r, data, s, t);
    }
  }

  // ----- the handler object

  class Handler {
    var rxState: nat
    var rxTimeout: nat
    var payloadLength: nat
    const rxBuffer: array<Byte>
    const txBuffer: array<Byte>
    var rxDataPtr: nat
    var crcLow: Byte
    var crcHigh: Byte
    var delivered: seq<Bytes>  // payloads handed to process_func
    var sent: seq<Bytes>       // byte strings handed to send_func

    ghost predicate Valid()
      reads this
    {
      && rxBuffer != txBuffer
      && rxBuffer.Length == PACKET_MAX_PL_LEN && txBuffer.Length == PACKET_MAX_PL_LEN + 6
      && rxDataPtr <= PACKET_MAX_PL_LEN
      && (1 <= rxState <= 2 ==> rxDataPtr == 0) && (rxState == 2 ==> payloadLength % 256 == 0)
      && (rxState == 3 ==> rxDataPtr < payloadLength <= PACKET_MAX_PL_LEN)
      && (rxState >= 4 ==> rxDataPtr == payloadLength)
    }

    ghost function Abs(): Rx
      requires Valid()
      reads this, rxBuffer
    {
      Rx(rxState, rxTimeout, payloadLength, rxBuffer[..rxDataPtr], crcHigh, crcLow)
    }

    constructor ()
      ensures Valid() && Abs() == Rx(0, 0, 0, [], 0, 0) && delivered == [] && sent == []
      ensures fresh(rxBuffer) && fresh(txBuffer)
    {
      rxState, rxTimeout, payloadLength, rxDataPtr, crcLow, crcHigh := 0, 0, 0, 0, 0, 0;
      rxBuffer := new Byte[PACKET_MAX_PL_LEN](_ => 0);
      txBuffer := new Byte[PACKET_MAX_PL_LEN + 6](_ => 0);
      delivered, sent := [], [];
    }

    /** packet_process_byte: in no state does a byte write outside the receive buffer. */
    method ProcessByte(rxData: Byte)
      requires Valid()
      modifies this, rxBuffer
      ensures Valid()
      ensures Abs() == Step(old(Abs()), rxData).0
      ensures delivered == old(delivered) + Step(old(Abs()), rxData).1 && sent == old(sent)
    {
      hide Checksum16, Wire16, Reg16, Remainder, G16;
      match rxState
      case 0 =>
        if rxData == 2 {
          rxState, rxTimeout, rxDataPtr, payloadLength := rxState + 2, PACKET_RX_TIMEOUT, 0, 0;
        } else if rxData == 3 {
          rxState, rxTimeout, rxDataPtr, payloadLength := rxState + 1, PACKET_RX_TIMEOUT, 0, 0;
        } else {
          rxState := 0;
        }
      case 1 =>
        payloadLength := 256 * (rxData as nat);
        rxState, rxTimeout := rxState + 1, PACKET_RX_TIMEOUT;
      case 2 =>
        payloadLength := payloadLength + rxData;
        if payloadLength > 0 && payloadLength <= PACKET_MAX_PL_LEN {
          rxState, rxTimeout := rxState + 1, PACKET_RX_TIMEOUT;
        } else {
          rxState := 0;
        }
      case 3 =>
        rxBuffer[rxDataPtr] := rxData;
        rxDataPtr := rxDataPtr + 1;
        if rxDataPtr == payloadLength {
          rxState := rxState + 1;
        }
        rxTimeout := PACKET_RX_TIMEOUT;
      case 4 =>
        crcHigh := rxData;
        rxState, rxTimeout := rxState + 1, PACKET_RX_TIMEOUT;
      case 5 =>
        crcLow := rxData;
        rxState, rxTimeout := rxState + 1, PACKET_RX_TIMEOUT;
      case 6 =>
        if rxData == 3 {
          var crc := ComputeCrc16(rxBuffer, payloadLength);
          if Wire16(crc) == [crcHigh, crcLow] {
            delivered := delivered + [rxBuffer[..payloadLength]];
          }
        }
        rxState := 0;
      case _ =>
        rxState := 0;
    }

    /** packet_timerfunc, for this handler. */
    method TimerFunc()
      requires Valid()
      modifies this`rxState, this`rxTimeout
      ensures Valid() && Abs() == Tick(old(Abs()))
    {
      if rxTimeout > 0 {
        rxTimeout := rxTimeout - 1;
      } else {
        rxState := 0;
      }
    }

    /** packet_send_packet. */
    method SendPacket(data: array<Byte>, len: nat)
      requires Valid() && len <= data.Length && data != txBuffer
      modifies this`sent, txBuffer
      ensures Valid()
      ensures sent == if len > PACKET_MAX_PL_LEN then old(sent) else old(sent) + [Frame(data[..len])]
    {
      hide Checksum16, Wire16, Header, Reg16, Remainder, G16;
      if len > PACKET_MAX_PL_LEN {
        return;
      }
      var n := PutHeader(len);
      n := PutPayload(data, len, n);
      var crc := ComputeCrc16(data, len);
      n := PutTrailer(crc, n);
      sent := sent + [txBuffer[..n]];
    }

    method PutHeader(len: nat) returns (n: nat)
      requires Valid() && len <= PACKET_MAX_PL_LEN
      modifies txBuffer
      ensures n <= 3 && txBuffer[..n] == Header(len)
    {
      hide HighByte, LowByte;
      if len <= 256 {
        txBuffer[0], txBuffer[1] := 2, LowByte(len);
        n := 2;
      } else {
        txBuffer[0], txBuffer[1], txBuffer[2] := 3, HighByte(len), LowByte(len);
        n := 3;
      }
    }

    method PutPayload(data: array<Byte>, len: nat, ind: nat) returns (n: nat)
      requires Valid() && len <= data.Length && data != txBuffer && ind + len <= txBuffer.Length
      modifies txBuffer
      ensures n == ind + len && txBuffer[..n] == old(txBuffer[..ind]) + data[..len]
    {
      forall i | 0 <= i < len {
        txBuffer[ind + i] := data[i];
      }
      n := ind + len;
    }

    method PutTrailer(crc: bv16, ind: nat) returns (n: nat)
      requires Valid() && ind + 3 <= txBuffer.Length
      modifies txBuffer
      ensures n == ind + 3 && txBuffer[..n] == old(txBuffer[..ind]) + Wire16(crc) + [3]
    {
      hide Wire16;
      var w := Wire16(crc);
      assert w == [w[0], w[1]];
      txBuffer[ind], txBuffer[ind + 1], txBuffer[ind + 2] := w[0], w[1], 3;
      n := ind + 3;
    }
  }
}
