/** The receiver of the GNSS module's serial port: RTCM 3 frames, UBX frames and NMEA lines on one byte stream. */
module Demux {
  import opened Octets
  import opened UbxChecksum
  import RtcmFrame

  const LINE_BUFFER_SIZE: nat := 256
  const UBX_BUFFER_SIZE: nat := 3000
  const NEWLINE: Byte := 10

  // ----- messages and their bytes

  datatype Message =
    | Rtcm(frame: Bytes, kind: nat)
    | Ubx(cls: Byte, id: Byte, payload: Bytes)
    | Nmea(line: Bytes)

  /** The bytes the checksum covers. */
  function UbxBody(cls: Byte, id: Byte, payload: Bytes): Bytes {
    [cls, id, LowByte(|payload|), HighByte(|payload|)] + payload
  }

  function UbxFrame(cls: Byte, id: Byte, payload: Bytes): Bytes {
    var body := UbxBody(cls, id, payload);
    [0xB5, 0x62] + body + [Total(body) % 256, Weighted(body) % 256]
  }

  function Encode(m: Message): Bytes {
    match m
    case Rtcm(frame, _) => frame
    case Ubx(cls, id, payload) => UbxFrame(cls, id, payload)
    case Nmea(line) => line
  }

  predicate WellFormed(m: Message) {
    match m
    case Rtcm(frame, kind) => RtcmFrame.IsFrame(frame) && kind == RtcmFrame.Type(frame)
    case Ubx(_, _, payload) => |payload| < 0x10000
    case Nmea(line) => IsLine(line)
  }

  /** One newline, at the end, and a first byte that starts no binary frame. */
  predicate IsLine(line: Bytes) {
    && 1 <= |line| < LINE_BUFFER_SIZE && line[0] != RtcmFrame.RTCM3PREAMB && line[0] != 0xB5
    && forall i | 0 <= i < |line| :: line[i] == NEWLINE <==> i == |line| - 1
  }

  // ----- the demultiplexer

  /** The bytes held of an unfinished RTCM frame, UBX frame and line. */
  datatype State = State(rtcm: Bytes, ubx: Bytes, line: Bytes)

  const IDLE := State([], [], [])

  function UbxLength(u: Bytes): nat
    requires |u| >= 6
  {
    Number(u[5], u[4])
  }

  /** Whether b continues the unfinished UBX frame u. */
  predicate Continues(u: Bytes, b: Byte) {
    var n := |u|;
    if n == 0 then b == 0xB5
    else if n == 1 then b == 0x62
    else if n < 6 then true
    else if n < 6 + UbxLength(u) then true
    else if n == 6 + UbxLength(u) then b == Fletcher(u[2..]).0
    else n == 7 + UbxLength(u) && b == Fletcher(u[2..n - 1]).1
  }

  predicate Complete(u: Bytes) {
    |u| >= 8 && |u| == 8 + UbxLength(u)
  }

  function StepUbx(s: State, b: Byte): (State, seq<Message>) {
    if s.line == [] && Continues(s.ubx, b) then
      var u := s.ubx + [b];
      if Complete(u) then (s.(ubx := []), [Ubx(u[2], u[3], u[6..|u| - 2])]) else (s.(ubx := u), [])
    else StepLine(s.(ubx := if s.line == [] then [] else s.ubx), b)
  }

  function StepLine(s: State, b: Byte): (State, seq<Message>) {
    var l := s.line + [b];
    if |l| == LINE_BUFFER_SIZE then (s.(line := []), [])
    else if b == NEWLINE then (s.(line := []), [Nmea(l)])
    else (s.(line := l), [])
  }

  function Announce(fs: seq<RtcmFrame.Received>): (ms: seq<Message>)
    ensures |ms| == |fs|
  {
    seq(|fs|, i requires 0 <= i < |fs| => Rtcm(fs[i].frame, fs[i].kind))
  }

  /** One received byte: the new state and the messages handed over (at most one). */
  function Step(s: State, b: Byte): (State, seq<Message>) {
    if s.line == [] && s.ubx == [] then
      var (m, code, fs) := RtcmFrame.Input(s.rtcm, b);
      if code >= 0 then (s.(rtcm := m), Announce(fs)) else StepUbx(s.(rtcm := m), b)
    else StepUbx(s, b)
  }

  function Run(s: State, bytes: Bytes): (State, seq<Message>)
    decreases |bytes|
  {
    if bytes == [] then (s, [])
    else
      var (s1, o1) := Step(s, bytes[0]);
      var (s2, o2) := Run(s1, bytes[1..]);
      (s2, o1 + o2)
  }

  lemma {:induction false} RunConcat(s: State, x: Bytes, y: Bytes)
    ensures var (s1, o1) := Run(s, x); var (s2, o2) := Run(s1, y); Run(s, x + y) == (s2, o1 + o2)
    decreases |x|
  {
    hide Step;
    if x == [] {
      assert x + y == y && [] + Run(s, y).1 == Run(s, y).1;
    } else {
      assert (x + y)[1..] == x[1..] + y;
      var (s1, o1) := Step(s, x[0]);
      RunConcat(s1, x[1..], y);
      var (s2, o2) := Run(s1, x[1..]);
      assert o1 + (o2 + Run(s2, y).1) == (o1 + o2) + Run(s2, y).1;
    }
  }

  // ----- completeness: every well-formed stream is taken apart again

  /** The state after the first k bytes of m. */
  function Partial(m: Message, k: nat): State
    requires k <= |Encode(m)|
  {
    var held := Encode(m)[..k];
    match m
    case Rtcm(_, _) => State(held, [], [])
    case Ubx(_, _, _) => State([], held, [])
    case Nmea(_) => State([], [], held)
  }

  lemma UbxByte(cls: Byte, id: Byte, p: Bytes, k: nat)
    requires |p| < 0x10000 && k < |UbxFrame(cls, id, p)|
    ensures var f := UbxFrame(cls, id, p);
            Continues(f[..k], f[k]) && f[..k] + [f[k]] == f[..k + 1] && (Complete(f[..k + 1]) <==> k + 1 == |f|)
  {
    hide Fletcher;
    var f, body := UbxFrame(cls, id, p), UbxBody(cls, id, p);
    UbxLayout(cls, id, p);
    hide UbxFrame;
    var u := f[..k];
    assert f[..k] + [f[k]] == f[..k + 1];
    if k >= 6 {
      assert UbxLength(u) == UbxLength(f[..k + 1]) == |p|;
      assert k == 6 + |p| ==> u[2..] == body;
      assert k == 7 + |p| ==> u[2..k - 1] == body;
    }
  }

  lemma UbxLayout(cls: Byte, id: Byte, p: Bytes)
    requires |p| < 0x10000
    ensures var f, body := UbxFrame(cls, id, p), UbxBody(cls, id, p);
            && |f| == |p| + 8 && f[..6] == [0xB5, 0x62, cls, id, f[4], f[5]] && Number(f[5], f[4]) == |p|
            && f[2..6 + |p|] == body && f[6..6 + |p|] == p
            && f[6 + |p|] == Fletcher(body).0 && f[7 + |p|] == Fletcher(body).1
  {
    hide Fletcher, LowByte, HighByte, Number, Total, Weighted;
    BothBytes(|p|);
    var f, body := UbxFrame(cls, id, p), UbxBody(cls, id, p);
    FletcherIs(body);
    assert f[2..6 + |p|] == body;
    assert f[4] == body[2] && f[5] == body[3];
    assert body[4..] == p && f[6..6 + |p|] == f[2..6 + |p|][4..];
  }

  lemma BothBytes(n: nat)
    requires n < 0x10000
    ensures Number(HighByte(n), LowByte(n)) == n
  {
  }

  lemma TakenRtcm(f: Bytes, kind: nat, k: nat)
    requires WellFormed(Rtcm(f, kind)) && k < |f|
    ensures Step(State(f[..k], [], []), f[k]) ==
            if k == |f| - 1 then (IDLE, [Rtcm(f, kind)]) else (State(f[..k + 1], [], []), [])
  {
    assert |f| >= 6;
    hide RtcmFrame.Input, RtcmFrame.Type, RtcmFrame.IsFrame;
    RtcmFrame.FrameTaken(f, k);
    assert Announce([RtcmFrame.Received(f, kind)]) == [Rtcm(f, kind)];
  }

  lemma TakenUbx(cls: Byte, id: Byte, p: Bytes, k: nat)
    requires |p| < 0x10000 && k < |UbxFrame(cls, id, p)|
    ensures var f := UbxFrame(cls, id, p);
            Step(State([], f[..k], []), f[k]) ==
            if k == |f| - 1 then (IDLE, [Ubx(cls, id, p)]) else (State([], f[..k + 1], []), [])
  {
    UbxByte(cls, id, p, k);
    var f := UbxFrame(cls, id, p);
    assert f[2] == cls && f[3] == id && f[6..|f| - 2] == p;
    assert k == |f| - 1 ==> f[..k + 1] == f;
    hide UbxFrame, Continues;
  }

  lemma TakenNmea(line: Bytes, k: nat)
    requires IsLine(line) && k < |line|
    ensures Step(State([], [], line[..k]), line[k]) ==
            if k == |line| - 1 then (IDLE, [Nmea(line)]) else (State([], [], line[..k + 1]), [])
  {
    assert line[..k] + [line[k]] == line[..k + 1] && line[..|line|] == line;
  }

  lemma Taken(m: Message, k: nat)
    requires WellFormed(m) && k < |Encode(m)|
    ensures Step(Partial(m, k), Encode(m)[k]) == if k == |Encode(m)| - 1 then (IDLE, [m]) else (Partial(m, k + 1), [])
  {
    hide Step;
    match m
    case Rtcm(frame, kind) => TakenRtcm(frame, kind, k);
    case Ubx(cls, id, p) => TakenUbx(cls, id, p, k);
    case Nmea(line) => TakenNmea(line, k);
  }

  lemma {:induction false} RestRead(m: Message, k: nat)
    requires WellFormed(m) && k < |Encode(m)|
    ensures Run(Partial(m, k), Encode(m)[k..]) == (IDLE, [m])
    decreases |Encode(m)| - k
  {
    hide Step, Encode, WellFormed, Partial;
    Taken(m, k);
    var rest := Encode(m)[k..];
    assert rest[1..] == Encode(m)[k + 1..];
    if k + 1 < |Encode(m)| {
      RestRead(m, k + 1);
      assert [] + [m] == [m];
    } else {
      assert rest[1..] == [] && [m] + [] == [m];
    }
  }

  function Stream(ms: seq<Message>): Bytes {
    if ms == [] then [] else Encode(ms[0]) + Stream(ms[1..])
  }

  lemma EncodeSome(m: Message)
    requires WellFormed(m)
    ensures Encode(m) != [] && Partial(m, 0) == IDLE
  {
  }

  /** The parsers take any sequence of well-formed messages apart as it was put together. */
  lemma {:induction false} StreamParsed(ms: seq<Message>)
    requires forall m | m in ms :: WellFormed(m)
    ensures Run(IDLE, Stream(ms)) == (IDLE, ms)
    decreases |ms|
  {
    hide Step, Encode, WellFormed, Partial;
    if ms != [] {
      var m := ms[0];
      EncodeSome(m);
      RestRead(m, 0);
      assert Encode(m)[0..] == Encode(m);
      StreamParsed(ms[1..]);
      RunConcat(IDLE, Encode(m), Stream(ms[1..]));
      assert ms == [m] + ms[1..];
    }
  }

  // ----- soundness: on any byte stream, what comes out was there

  /** h contains the bytes of ms in order, without overlap. */
  ghost predicate Embeds(ms: seq<Message>, h: Bytes)
    decreases |ms|
  {
    ms == [] || exists i, j :: 0 <= i <= j <= |h| && h[i..j] == Encode(ms[|ms| - 1]) && Embeds(ms[..|ms| - 1], h[..i])
  }

  predicate EmittedShape(m: Message) {
    match m
    case Rtcm(_, _) => WellFormed(m)
    case Ubx(_, _, _) => WellFormed(m)
    case Nmea(line) =>
      1 <= |line| < LINE_BUFFER_SIZE && forall i | 0 <= i < |line| :: line[i] == NEWLINE <==> i == |line| - 1
  }

  /** The bytes held. At most one of the three parsers holds any. */
  function Held(s: State): Bytes {
    s.rtcm + s.ubx + s.line
  }

  predicate UbxPending(u: Bytes) {
    && (|u| >= 1 ==> u[0] == 0xB5) && (|u| >= 2 ==> u[1] == 0x62)
    && (|u| >= 6 ==> |u| <= 7 + UbxLength(u) && (|u| == 7 + UbxLength(u) ==> u[|u| - 1] == Fletcher(u[2..|u| - 1]).0))
  }

  predicate Sane(s: State) {
    && (s.rtcm == [] || (s.ubx == [] && s.line == [])) && (s.ubx == [] || s.line == [])
    && RtcmFrame.Pending(s.rtcm) && UbxPending(s.ubx)
    && |s.line| < LINE_BUFFER_SIZE && NEWLINE !in s.line
  }

  /** A step either keeps the held bytes and the new one, or hands them over as one message, or drops some. */
  predicate StepOk(s: State, b: Byte) {
    var (s', o) := Step(s, b);
    && Sane(s')
    && if o == [] then Held(s') == [] || Held(s') == [b] || Held(s') == Held(s) + [b]
       else Held(s') == [] && |o| == 1 && EmittedShape(o[0]) && (Encode(o[0]) == Held(s) + [b] || Encode(o[0]) == [b])
  }

  lemma StepLineOk(s: State, b: Byte)
    requires Sane(s) && s.ubx == [] && s.rtcm == []
    ensures var (s', o) := StepLine(s, b);
            && Sane(s')
            && if o == [] then Held(s') == [] || Held(s') == s.line + [b]
               else Held(s') == [] && |o| == 1 && EmittedShape(o[0]) && Encode(o[0]) == s.line + [b]
  {
    hide RtcmFrame.Pending, UbxPending, Fletcher;
    assert NEWLINE !in s.line ==> forall i | 0 <= i < |s.line| :: s.line[i] != NEWLINE;
  }

  lemma UbxExtended(u: Bytes, b: Byte)
    requires UbxPending(u) && Continues(u, b)
    ensures var u' := u + [b];
            if Complete(u') then |u'| >= 8 && u' == UbxFrame(u'[2], u'[3], u'[6..|u'| - 2]) && |u'| < 0x10008
            else UbxPending(u')
  {
    hide Fletcher, Total, Weighted;
    var u' := u + [b];
    if Complete(u') {
      FletcherIs(u'[2..|u'| - 2]);
      var n := |u'|;
      var p := u'[6..n - 2];
      LengthBytes(u'[4], u'[5]);
      assert UbxBody(u'[2], u'[3], p) == u'[2..n - 2];
      assert u[2..n - 2] == u'[2..n - 2];
    } else if |u'| >= 7 && |u'| == 7 + UbxLength(u') {
      assert u[2..] == u'[2..|u'| - 1];
    }
  }

  lemma LengthBytes(low: Byte, high: Byte)
    ensures LowByte(Number(high, low)) == low && HighByte(Number(high, low)) == high && Number(high, low) < 0x10000
  {
  }

  lemma StepUbxOk(s: State, b: Byte)
    requires Sane(s) && s.rtcm == []
    ensures var (s', o) := StepUbx(s, b);
            && Sane(s')
            && if o == [] then Held(s') == [] || Held(s') == [b] || Held(s') == Held(s) + [b]
               else Held(s') == [] && |o| == 1 && EmittedShape(o[0]) && (Encode(o[0]) == Held(s) + [b] || Encode(o[0]) == [b])
  {
    hide RtcmFrame.Pending, UbxPending, Continues, UbxFrame, StepLine;
    NothingPending();
    if s.line == [] && Continues(s.ubx, b) {
      UbxExtended(s.ubx, b);
    } else {
      var s1 := s.(ubx := []);
      StepLineOk(s1, b);
    }
  }

  lemma NothingPending()
    ensures UbxPending([]) && RtcmFrame.Pending([])
  {
  }

  lemma StepSound(s: State, b: Byte)
    requires Sane(s)
    ensures StepOk(s, b)
  {
    hide RtcmFrame.Pending, UbxPending, StepUbx, RtcmFrame.Input, RtcmFrame.IsFrame;
    NothingPending();
    if s.line == [] && s.ubx == [] {
      RtcmFrame.InputSound(s.rtcm, b);
      var (m, code, fs) := RtcmFrame.Input(s.rtcm, b);
      if code < 0 {
        StepUbxOk(s.(rtcm := m), b);
      }
    } else {
      StepUbxOk(s, b);
    }
  }

  lemma EmbedsMore(ms: seq<Message>, h: Bytes, k: nat)
    requires k <= |h| && Embeds(ms, h[..k])
    ensures Embeds(ms, h)
  {
    if ms != [] {
      var i, j :| 0 <= i <= j <= k && h[..k][i..j] == Encode(ms[|ms| - 1]) && Embeds(ms[..|ms| - 1], h[..k][..i]);
      assert h[i..j] == h[..k][i..j] && h[..i] == h[..k][..i];
    }
  }

  lemma EmbedsSnoc(ms: seq<Message>, h: Bytes, m: Message, i: nat)
    requires i <= |h| && Embeds(ms, h[..i]) && h[i..] == Encode(m)
    ensures Embeds(ms + [m], h)
  {
    hide Encode;
    assert (ms + [m])[..|ms|] == ms && h[i..|h|] == h[i..];
  }

  /** The messages handed over so far are in h, before the bytes held. */
  ghost predicate Accounts(out: seq<Message>, h: Bytes, s: State) {
    && Sane(s) && |Held(s)| <= |h| && h[|h| - |Held(s)|..] == Held(s)
    && Embeds(out, h[..|h| - |Held(s)|]) && forall m | m in out :: EmittedShape(m)
  }

  lemma StepAccounts(out: seq<Message>, h: Bytes, s: State, b: Byte)
    requires Accounts(out, h, s)
    ensures Accounts(out + Step(s, b).1, h + [b], Step(s, b).0)
  {
    hide Step, Encode, Held, EmittedShape, Sane;
    StepSound(s, b);
    var (s', o) := Step(s, b);
    var h', n := h + [b], |h| - |Held(s)|;
    assert h'[..n] == h[..n] && h'[n..] == Held(s) + [b] && h'[|h|..] == [b];
    assert h'[..|h|] == h && h[..n] == h'[..|h|][..n];
    EmbedsMore(out, h, n);
    if o == [] {
      assert out + o == out;
      EmbedsMore(out, h', n);
      assert h'[..|h'|] == h' && h'[|h'|..] == [];
    } else {
      assert o == [o[0]] && h'[..|h'|] == h' && h'[|h'|..] == [];
      if Encode(o[0]) == Held(s) + [b] {
        EmbedsSnoc(out, h', o[0], n);
      } else {
        EmbedsSnoc(out, h', o[0], |h|);
      }
    }
  }

  lemma {:induction false} RunAccounts(out: seq<Message>, h: Bytes, s: State, bytes: Bytes)
    requires Accounts(out, h, s)
    ensures Accounts(out + Run(s, bytes).1, h + bytes, Run(s, bytes).0)
    decreases |bytes|
  {
    hide Step, Accounts;
    if bytes == [] {
      assert out + [] == out && h + bytes == h;
    } else {
      var (s1, o1) := Step(s, bytes[0]);
      StepAccounts(out, h, s, bytes[0]);
      RunAccounts(out + o1, h + [bytes[0]], s1, bytes[1..]);
      assert h + [bytes[0]] + bytes[1..] == h + bytes;
      assert out + o1 + Run(s1, bytes[1..]).1 == out + Run(s, bytes).1;
    }
  }

  lemma AccountsStart()
    ensures Accounts([], [], IDLE)
  {
    NothingPending();
  }

  lemma AccountsEmbeds(out: seq<Message>, h: Bytes, s: State)
    requires Accounts(out, h, s)
    ensures Embeds(out, h) && forall m | m in out :: EmittedShape(m)
  {
    hide Sane, Held, EmittedShape, Embeds;
    EmbedsMore(out, h, |h| - |Held(s)|);
  }

  /** On any byte stream whatever, the messages handed over are whole messages of the stream, checksums
      included, in order and without overlap. */
  lemma RunSound(bytes: Bytes)
    ensures var out := Run(IDLE, bytes).1; Embeds(out, bytes) && forall m | m in out :: EmittedShape(m)
  {
    hide Run, Accounts, Embeds, EmittedShape;
    AccountsStart();
    RunAccounts([], [], IDLE, bytes);
    assert [] + bytes == bytes && [] + Run(IDLE, bytes).1 == Run(IDLE, bytes).1;
    AccountsEmbeds(Run(IDLE, bytes).1, bytes, Run(IDLE, bytes).0);
  }

  // ----- single wrong bytes

  lemma ShortIsLine(m: Message)
    requires EmittedShape(m) && |Encode(m)| < 6
    ensures m.Nmea?
  {
    if m.Ubx? {
      UbxLayout(m.cls, m.id, m.payload);
    }
  }

  predicate OnlyLines(ms: seq<Message>) {
    forall m | m in ms :: m.Nmea?
  }

  /** A byte that does not continue the UBX frame is at most a line. */
  lemma RefusedByte(u: Bytes, b: Byte)
    requires u != [] && !Continues(u, b)
    ensures var (s, o) := Step(State([], u, []), b);
            OnlyLines(o) && (s == IDLE || s == State([], [], [b]))
  {
    hide Continues;
    assert [] + [b] == [b];
  }

  /** One byte after it likewise. */
  lemma ByteAfter(s: State, b: Byte)
    requires s == IDLE || exists c: Byte :: s == State([], [], [c]) && c != NEWLINE
    ensures OnlyLines(Step(s, b).1)
  {
    NothingPending();
    hide RtcmFrame.Pending, UbxPending, Step, Encode, EmittedShape;
    StepSound(s, b);
    var o := Step(s, b).1;
    if o != [] {
      ShortIsLine(o[0]);
    }
  }

  lemma RefusedState(u: Bytes, b: Byte)
    requires u != [] && !Continues(u, b)
    ensures Step(State([], u, []), b).0 == State([], [], [b]) ==> b != NEWLINE
  {
    hide Continues;
    assert [] + [b] == [b];
  }

  /** f agrees with a frame of the message up to its checksum, and has another first checksum byte. */
  lemma WrongSumRefused(cls: Byte, id: Byte, p: Bytes, f: Bytes)
    requires |p| < 0x10000 && |f| == 8 + |p|
    requires f[..6 + |p|] == UbxFrame(cls, id, p)[..6 + |p|] && f[6 + |p|] != Total(UbxBody(cls, id, p)) % 256
    ensures OnlyLines(Run(IDLE, f).1)
  {
    hide Step, Run, UbxFrame, Fletcher, Continues, Total;
    var n, m := 6 + |p|, Ubx(cls, id, p);
    var u := f[..n];
    UbxLayout(cls, id, p);
    PrefixRun(m, n);
    FletcherIs(UbxBody(cls, id, p));
    WrongSum(cls, id, p, u, f[n]);
    RefusedByte(u, f[n]);
    RefusedState(u, f[n]);
    RunSnoc(IDLE, f, n);
    ByteAfter(Step(State([], u, []), f[n]).0, f[n + 1]);
    RunSnoc(IDLE, f, n + 1);
    assert f[..n + 1 + 1] == f;
  }

  lemma WrongSum(cls: Byte, id: Byte, p: Bytes, u: Bytes, b: Byte)
    requires |p| < 0x10000 && |UbxFrame(cls, id, p)| == 8 + |p| && u == UbxFrame(cls, id, p)[..6 + |p|]
    requires b != Fletcher(UbxBody(cls, id, p)).0
    ensures !Continues(u, b)
  {
    UbxLayout(cls, id, p);
    hide UbxFrame, Fletcher;
    var f := UbxFrame(cls, id, p);
    assert u[2..] == f[2..6 + |p|];
    assert u[4] == f[4] && u[5] == f[5];
  }

  /** The same for the last byte. */
  lemma WrongLastRefused(cls: Byte, id: Byte, p: Bytes, b: Byte)
    requires |p| < 0x10000 && |UbxFrame(cls, id, p)| == 8 + |p| && b != UbxFrame(cls, id, p)[7 + |p|]
    ensures OnlyLines(Run(IDLE, UbxFrame(cls, id, p)[7 + |p| := b]).1)
  {
    hide Step, Run, UbxFrame, Continues;
    var f, n := UbxFrame(cls, id, p), 7 + |p|;
    var g := f[n := b];
    UbxLayout(cls, id, p);
    PrefixRun(Ubx(cls, id, p), n);
    WrongLast(cls, id, p, f[..n], b);
    RefusedByte(f[..n], b);
    assert g[..n] == f[..n];
    RunSnoc(IDLE, g, n);
    assert g[..n + 1] == g;
  }

  lemma WrongLast(cls: Byte, id: Byte, p: Bytes, u: Bytes, b: Byte)
    requires |p| < 0x10000 && |UbxFrame(cls, id, p)| == 8 + |p| && u == UbxFrame(cls, id, p)[..7 + |p|]
    requires b != UbxFrame(cls, id, p)[7 + |p|]
    ensures !Continues(u, b)
  {
    UbxLayout(cls, id, p);
    hide UbxFrame, Fletcher;
    var f := UbxFrame(cls, id, p);
    assert u[2..6 + |p|] == f[2..6 + |p|];
    assert u[4] == f[4] && u[5] == f[5];
  }

  /** A frame in which any one byte of class, id, payload or checksum has been changed is refused. */
  lemma ChangedByteRefused(cls: Byte, id: Byte, p: Bytes, k: nat, b: Byte)
    requires |p| < 0x10000 && 2 <= k < 8 + |p| && k != 4 && k != 5
    requires |UbxFrame(cls, id, p)| == 8 + |p| && b != UbxFrame(cls, id, p)[k]
    ensures OnlyLines(Run(IDLE, UbxFrame(cls, id, p)[k := b]).1)
  {
    hide Run, Total, Weighted, UbxFrame, UbxBody, Fletcher;
    UbxLayout(cls, id, p);
    if k == 7 + |p| {
      WrongLastRefused(cls, id, p, b);
    } else if k == 6 + |p| {
      FletcherIs(UbxBody(cls, id, p));
      WrongSumRefused(cls, id, p, UbxFrame(cls, id, p)[k := b]);
    } else {
      CoveredByteRefused(cls, id, p, k, b);
    }
  }

  lemma CoveredByteRefused(cls: Byte, id: Byte, p: Bytes, k: nat, b: Byte)
    requires |p| < 0x10000 && 2 <= k < 6 + |p| && k != 4 && k != 5
    requires |UbxFrame(cls, id, p)| == 8 + |p| && b != UbxFrame(cls, id, p)[k]
    ensures OnlyLines(Run(IDLE, UbxFrame(cls, id, p)[k := b]).1)
  {
    hide Run, Total, Weighted, UbxFrame, UbxBody, Fletcher;
    var f, body := UbxFrame(cls, id, p), UbxBody(cls, id, p);
    var cls', id', p' := if k == 2 then b else cls, if k == 3 then b else id, if k >= 6 then p[k - 6 := b] else p;
    UbxLayout(cls, id, p);
    FletcherIs(body);
    ChangedBody(cls, id, p, k, b);
    ChangeNoticed(body, k - 2, b);
    WrongSumRefused(cls', id', p', f[k := b]);
  }

  lemma ChangedBody(cls: Byte, id: Byte, p: Bytes, k: nat, b: Byte)
    requires |p| < 0x10000 && 2 <= k < 6 + |p| && k != 4 && k != 5
    ensures var cls', id', p' := if k == 2 then b else cls, if k == 3 then b else id, if k >= 6 then p[k - 6 := b] else p;
            var f, body := UbxFrame(cls, id, p), UbxBody(cls, id, p);
            && |f| == 8 + |p| && |body| == 4 + |p| && body[k - 2] == f[k]
            && UbxBody(cls', id', p') == body[k - 2 := b]
            && f[k := b][..6 + |p|] == UbxFrame(cls', id', p')[..6 + |p|]
  {
    hide LowByte, HighByte, Total, Weighted;
    var cls', id', p' := if k == 2 then b else cls, if k == 3 then b else id, if k >= 6 then p[k - 6 := b] else p;
    FrontBytes(cls, id, p);
    FrontBytes(cls', id', p');
    BodyAt(cls, id, p);
    BodyAt(cls', id', p');
    hide UbxFrame, UbxBody;
    var f, g := UbxFrame(cls, id, p)[k := b], UbxFrame(cls', id', p');
    forall i | 0 <= i < 6 + |p| ensures f[i] == g[i] {
      assert i >= 6 ==> g[6 + (i - 6)] == p'[i - 6];
    }
  }

  /** Both length bytes replaced by those of n. */
  function Relengthed(f: Bytes, n: nat): Bytes
    requires |f| >= 8 && n < 0x10000
  {
    f[4 := LowByte(n)][5 := HighByte(n)]
  }

  /** With a smaller length the receiver takes the shorter message if and only if the bytes there happen to be its frame. */
  lemma ShorterLength(cls: Byte, id: Byte, p: Bytes, n: nat)
    requires |p| < 0x10000 && n < |p| && |UbxFrame(cls, id, p)| == 8 + |p|
    ensures var f := Relengthed(UbxFrame(cls, id, p), n);
            Ubx(cls, id, p[..n]) in Run(IDLE, f[..8 + n]).1 <==> f[..8 + n] == UbxFrame(cls, id, p[..n])
  {
    hide Run, UbxFrame, LowByte, HighByte;
    var f, m := Relengthed(UbxFrame(cls, id, p), n), Ubx(cls, id, p[..n]);
    UbxLayout(cls, id, p[..n]);
    var w := f[..8 + n];
    if w == UbxFrame(cls, id, p[..n]) {
      EncodeSome(m);
      RestRead(m, 0);
      assert Encode(m)[0..] == w;
    }
    if m in Run(IDLE, w).1 {
      RunSound(w);
      EmbeddedWhole(Run(IDLE, w).1, w, m);
    }
  }

  /** A message as long as the bytes it is embedded in is all of them. */
  lemma {:induction false} EmbeddedWhole(ms: seq<Message>, h: Bytes, m: Message)
    requires Embeds(ms, h) && m in ms && |Encode(m)| >= |h|
    ensures h == Encode(m)
    decreases |ms|
  {
    hide Encode;
    var n := |ms| - 1;
    var i, j :| 0 <= i <= j <= |h| && h[i..j] == Encode(ms[n]) && Embeds(ms[..n], h[..i]);
    if ms[n] == m {
      assert i == 0 && j == |h| && h[i..j] == h;
    } else {
      assert m in ms[..n];
      EmbeddedWhole(ms[..n], h[..i], m);
      assert i == |h| && h[..i] == h;
    }
  }

  /** With a larger length no UBX message comes out. */
  lemma LongerLength(cls: Byte, id: Byte, p: Bytes, n: nat)
    requires |p| < n < 0x10000 && |UbxFrame(cls, id, p)| == 8 + |p|
    ensures OnlyLines(Run(IDLE, Relengthed(UbxFrame(cls, id, p), n)).1)
  {
    hide Run, Step, UbxFrame, Continues, LowByte, HighByte, Total;
    var f := Relengthed(UbxFrame(cls, id, p), n);
    var k := 7 + |p|;
    var q := f[6..k] + seq(n - |p| - 1, _ => 0);
    var g := UbxFrame(cls, id, q);
    FrontBytes(cls, id, p);
    FrontBytes(cls, id, q);
    forall i | 0 <= i < k ensures f[i] == g[i] {
      assert i >= 6 ==> g[6 + (i - 6)] == q[i - 6] == f[6..k][i - 6];
    }
    assert f[..k] == g[..k];
    PrefixRun(Ubx(cls, id, q), k);
    UbxLayout(cls, id, q);
    RunSnoc(IDLE, f, k);
    assert f[..k + 1] == f;
    StillIncomplete(f[..k], f[k]);
  }

  lemma FrontBytes(cls: Byte, id: Byte, p: Bytes)
    requires |p| < 0x10000
    ensures var f := UbxFrame(cls, id, p);
            && |f| == 8 + |p| && f[0] == 0xB5 && f[1] == 0x62 && f[2] == cls && f[3] == id && f[4] == LowByte(|p|) && f[5] == HighByte(|p|)
            && forall i | 0 <= i < |p| :: f[6 + i] == p[i]
  {
    hide LowByte, HighByte, Total, Weighted;
  }

  lemma StillIncomplete(u: Bytes, b: Byte)
    requires |u| >= 6 && !Complete(u + [b])
    ensures OnlyLines(Step(State([], u, []), b).1)
  {
    hide Continues, Complete;
    if !Continues(u, b) {
      RefusedByte(u, b);
    }
  }

  /** The frame that polls a position. */
  lemma PollFrame()
    ensures UbxFrame(1, 7, []) == [0xB5, 0x62, 1, 7, 0, 0, 8, 0x19]
  {
    Sums4(1, 7, 0, 0);
    hide Total, Weighted;
  }

  /** A payload that a receiver to which the length says none takes for the checksum. */
  lemma ShorterTaken()
    ensures var f := UbxFrame(1, 7, [8, 0x19]); |f| == 10 && Relengthed(f, 0)[..8] == UbxFrame(1, 7, [])
  {
    PollFrame();
    FrontBytes(1, 7, [8, 0x19]);
    hide UbxFrame;
    var f := UbxFrame(1, 7, [8, 0x19]);
    assert f[6 + 0] == 8 && f[6 + 1] == 0x19;
  }

  lemma Sums4(a: Byte, b: Byte, c: Byte, d: Byte)
    ensures Total([a, b, c, d]) == a + b + c + d && Weighted([a, b, c, d]) == 4 * a + 3 * b + 2 * c + d
  {
    assert [a, b, c, d][1..] == [b, c, d] && [b, c, d][1..] == [c, d] && [c, d][1..] == [d] && [d][1..] == [];
    assert Total([d]) == d && Total([c, d]) == c + d && Total([b, c, d]) == b + c + d;
    assert Weighted([d]) == d && Weighted([c, d]) == 2 * c + d && Weighted([b, c, d]) == 3 * b + 2 * c + d;
  }

  // ----- the decoder object

  /** The UBX fields of the decoder describe the unfinished frame u. */
  predicate Tracks(u: Bytes, cls: Byte, id: Byte, len: nat, ck: (Byte, Byte), payload: Bytes) {
    && UbxPending(u)
    && (|u| >= 3 ==> u[2] == cls) && (|u| >= 4 ==> u[3] == id) && (|u| == 5 ==> u[4] == len)
    && (|u| >= 6 ==> len == UbxLength(u) && Stored(u, len) <= |payload| && payload[..Stored(u, len)] == u[6..6 + Stored(u, len)])
    && (|u| >= 2 ==> ck == Fletcher(u[2..2 + Summed(u)]))
  }

  /** How many payload bytes u holds. */
  function Stored(u: Bytes, len: nat): nat
    requires |u| >= 6
  {
    if |u| - 6 < len then |u| - 6 else len
  }

  /** How many bytes of u the sums cover. */
  function Summed(u: Bytes): nat
    requires |u| >= 2
    ensures 2 + Summed(u) <= |u|
  {
    if |u| >= 7 && |u| == 7 + UbxLength(u) then |u| - 3 else |u| - 2
  }

  lemma SumMore(u: Bytes, b: Byte, ck: (Byte, Byte))
    requires |u| >= 2 && Fletcher(u[2..]) == ck
    ensures Fletcher((u + [b])[2..]) == Summed2(ck, b)
  {
    hide Add;
    var m := (u + [b])[2..];
    assert m[..|m| - 1] == u[2..];
  }

  lemma TracksStart(cls: Byte, id: Byte, len: nat, ck: (Byte, Byte), payload: Bytes)
    ensures Tracks([], cls, id, len, ck, payload) && Tracks([0xB5], cls, id, len, ck, payload)
    ensures Tracks([0xB5, 0x62], cls, id, len, (0, 0), payload)
  {
    var u := [0xB5, 0x62];
    assert u[2..2 + Summed(u)] == [];
  }

  lemma TracksShape(u: Bytes, cls: Byte, id: Byte, len: nat, ck: (Byte, Byte), payload: Bytes)
    requires Tracks(u, cls, id, len, ck, payload)
    ensures |u| == 1 ==> u == [0xB5]
    ensures |u| >= 6 ==> len == UbxLength(u) && |u| <= 7 + len
  {
    hide Fletcher;
  }

  lemma TracksHeader(u: Bytes, cls: Byte, id: Byte, len: nat, ck: (Byte, Byte), payload: Bytes, b: Byte)
    requires Tracks(u, cls, id, len, ck, payload) && 2 <= |u| < 6
    ensures Tracks(u + [b], if |u| == 2 then b else cls, if |u| == 3 then b else id,
                   if |u| == 4 then b else if |u| == 5 then Number(b, len) else len, Summed2(ck, b), payload)
  {
    hide Fletcher, Summed2;
    assert u[2..2 + Summed(u)] == u[2..];
    SumMore(u, b, ck);
    var u' := u + [b];
    assert u'[2..2 + Summed(u')] == u'[2..];
  }

  lemma TracksPayload(u: Bytes, cls: Byte, id: Byte, len: nat, ck: (Byte, Byte), payload: Bytes, b: Byte)
    requires Tracks(u, cls, id, len, ck, payload) && 6 <= |u| < 6 + len && |u| - 6 < |payload|
    ensures Tracks(u + [b], cls, id, len, Summed2(ck, b), payload[|u| - 6 := b])
  {
    hide Fletcher, Summed2;
    assert u[2..2 + Summed(u)] == u[2..];
    SumMore(u, b, ck);
    var u' := u + [b];
    assert u'[2..2 + Summed(u')] == u'[2..];
    var k := |u| - 6;
    assert payload[k := b][..k + 1] == payload[..k] + [b] && u'[6..6 + k + 1] == u[6..6 + k] + [b];
  }

  lemma TracksSum(u: Bytes, cls: Byte, id: Byte, len: nat, ck: (Byte, Byte), payload: Bytes)
    requires Tracks(u, cls, id, len, ck, payload) && |u| >= 6
    ensures |u| == 6 + len ==> ck == Fletcher(u[2..]) && Tracks(u + [ck.0], cls, id, len, ck, payload)
    ensures |u| == 7 + len ==> ck == Fletcher(u[2..|u| - 1]) && len <= |payload| && payload[..len] == u[6..|u| - 1]
    ensures u[2] == cls && u[3] == id
    ensures len == UbxLength(u) && |u| <= 7 + len
  {
    hide Fletcher;
    var u' := u + [ck.0];
    assert u[2..|u|] == u[2..];
    if |u| == 6 + len {
      assert u'[2..|u'| - 1] == u[2..] && u'[6..6 + len] == u[6..6 + len];
    }
  }

  class Decoder {
    const rtcm: RtcmFrame.Receiver
    const line: array<Byte>
    const ubx: array<Byte>
    var linePos: nat
    var ubxPos: nat
    var ubxClass: Byte
    var ubxId: Byte
    var ubxCkA: Byte
    var ubxCkB: Byte
    var ubxLen: nat
    var out: seq<Message>   // messages handed to the rest of the program
    ghost var held: Bytes   // the bytes of the unfinished UBX frame

    ghost predicate ValidUbx()
      reads this, ubx
    {
      && ubx.Length == UBX_BUFFER_SIZE && ubxPos == |held|
      && Tracks(held, ubxClass, ubxId, ubxLen, (ubxCkA, ubxCkB), ubx[..])
    }

    ghost predicate Valid()
      reads this, ubx, line, rtcm, rtcm.buffer
    {
      && ValidUbx() && rtcm.Valid() && rtcm.frames == []
      && line.Length == LINE_BUFFER_SIZE && linePos < LINE_BUFFER_SIZE
      && ubx != line && ubx != rtcm.buffer && line != rtcm.buffer
    }

    ghost function Abs(): State
      requires Valid()
      reads this, ubx, line, rtcm, rtcm.buffer
    {
      State(rtcm.Held(), held, line[..linePos])
    }

    /** reset_decoder_state. */
    constructor ()
      ensures Valid() && Abs() == IDLE && out == []
      ensures fresh(rtcm) && fresh(rtcm.buffer) && fresh(ubx) && fresh(line)
    {
      rtcm := new RtcmFrame.Receiver();
      line := new Byte[LINE_BUFFER_SIZE](_ => 0);
      ubx := new Byte[UBX_BUFFER_SIZE](_ => 0);
      linePos, ubxPos, ubxClass, ubxId, ubxCkA, ubxCkB, ubxLen := 0, 0, 0, 0, 0, 0, 0;
      out, held := [], [];
    }

    method Sum(ch: Byte)
      modifies this`ubxCkA, this`ubxCkB
      ensures (ubxCkA, ubxCkB) == Summed2((old(ubxCkA), old(ubxCkB)), ch)
    {
      ubxCkA := Add(ubxCkA, ch);
      ubxCkB := Add(ubxCkB, ubxCkA);
    }

    method UbxHeader(ch: Byte)
      requires ValidUbx() && 2 <= ubxPos < 6
      modifies this
      ensures ValidUbx() && held == old(held) + [ch] && out == old(out) && linePos == old(linePos)
    {
      hide Tracks, Summed2;
      TracksHeader(held, ubxClass, ubxId, ubxLen, (ubxCkA, ubxCkB), ubx[..], ch);
      if ubxPos == 2 {
        ubxClass := ch;
      } else if ubxPos == 3 {
        ubxId := ch;
      } else if ubxPos == 4 {
        ubxLen := ch;
      } else {
        ubxLen := 256 * (ch as nat) + ubxLen;
      }
      Sum(ch);
      ubxPos, held := ubxPos + 1, held + [ch];
    }

    method UbxPayload(ch: Byte)
      requires ValidUbx() && 0 <= ubxPos - 6 < ubxLen && ubxPos - 6 < UBX_BUFFER_SIZE
      modifies this, ubx
      ensures ValidUbx() && held == old(held) + [ch] && out == old(out) && linePos == old(linePos)
    {
      hide Tracks, Summed2;
      TracksPayload(held, ubxClass, ubxId, ubxLen, (ubxCkA, ubxCkB), ubx[..], ch);
      ghost var was := ubx[..];
      ubx[ubxPos - 6] := ch;
      assert ubx[..] == was[ubxPos - 6 := ch];
      Sum(ch);
      ubxPos, held := ubxPos + 1, held + [ch];
    }

    /** The two checksum bytes; after the second the frame is handed over. */
    method UbxTrailer(ch: Byte) returns (used: bool)
      requires ValidUbx() && ubxPos >= 6 && ubxPos - 6 >= ubxLen
      modifies this
      ensures linePos == old(linePos)
      ensures used == Continues(old(held), ch)
      ensures used ==> ValidUbx()
      ensures ubx.Length == UBX_BUFFER_SIZE
      ensures var u := old(held) + [ch];
              if used && Complete(u) then held == [] && out == old(out) + [Ubx(u[2], u[3], u[6..|u| - 2])]
              else out == old(out) && (used ==> held == u)
    {
      hide Tracks, Fletcher;
      ghost var u := held + [ch];
      TracksShape(held, ubxClass, ubxId, ubxLen, (ubxCkA, ubxCkB), ubx[..]);
      TracksSum(held, ubxClass, ubxId, ubxLen, (ubxCkA, ubxCkB), ubx[..]);
      TracksStart(ubxClass, ubxId, ubxLen, (ubxCkA, ubxCkB), ubx[..]);
      if ubxPos - 6 == ubxLen {
        used := ch == ubxCkA;
        if used {
          ubxPos, held := ubxPos + 1, u;
        }
      } else {
        used := ch == ubxCkB;
        if used {
          assert u[6..|u| - 2] == held[6..|held| - 1] && ubx[..ubxLen] == ubx[..][..ubxLen];
          out := out + [Ubx(ubxClass, ubxId, ubx[..ubxLen])];
          ubxPos, held := 0, [];
        }
      }
    }

    method UbxReset()
      requires ubx.Length == UBX_BUFFER_SIZE
      modifies this`ubxPos, this`held
      ensures ValidUbx() && held == []
    {
      TracksStart(ubxClass, ubxId, ubxLen, (ubxCkA, ubxCkB), ubx[..]);
      ubxPos, held := 0, [];
    }

    /** The UBX parser of process_thread: whether it took the byte, and whether the program would store it
        outside its buffer; the model stops before it does. */
    method UbxInput(ch: Byte) returns (used: bool, outside: bool)
      requires ValidUbx()
      modifies this, ubx
      ensures ValidUbx() && linePos == old(linePos)
      ensures used == Continues(old(held), ch)
      ensures outside == Overruns(old(held))
      ensures var u := old(held) + [ch];
              if outside then held == old(held) && out == old(out)
              else if used && Complete(u) then held == [] && out == old(out) + [Ubx(u[2], u[3], u[6..|u| - 2])]
              else held == (if used then u else []) && out == old(out)
    {
      hide Tracks, Fletcher;
      ghost var u := held + [ch];
      TracksStart(ubxClass, ubxId, ubxLen, (ubxCkA, ubxCkB), ubx[..]);
      TracksShape(held, ubxClass, ubxId, ubxLen, (ubxCkA, ubxCkB), ubx[..]);
      used, outside := true, false;
      if ubxPos == 0 {
        if ch == 0xB5 {
          assert u == [0xB5];
          ubxPos, held := 1, u;
        } else {
          used := false;
        }
      } else if ubxPos == 1 {
        if ch == 0x62 {
          assert u == [0xB5, 0x62];
          ubxPos, ubxCkA, ubxCkB, held := 2, 0, 0, u;
        } else {
          used := false;
        }
      } else if ubxPos < 6 {
        UbxHeader(ch);
      } else if ubxPos - 6 < ubxLen {
        outside := ubxPos - 6 >= UBX_BUFFER_SIZE;
        if !outside {
          UbxPayload(ch);
        }
      } else {
        used := UbxTrailer(ch);
      }
      if !used {
        UbxReset();
      }
    }

    /** The NMEA parser of process_thread. */
    method LineInput(ch: Byte)
      requires line.Length == LINE_BUFFER_SIZE && linePos < LINE_BUFFER_SIZE
      modifies this`linePos, this`out, line
      ensures linePos < LINE_BUFFER_SIZE
      ensures var l := old(line[..linePos]) + [ch];
              if |l| == LINE_BUFFER_SIZE then linePos == 0 && out == old(out)
              else if ch == NEWLINE then linePos == 0 && out == old(out) + [Nmea(l)]
              else line[..linePos] == l && out == old(out)
    {
      ghost var l := line[..linePos] + [ch];
      line[linePos] := ch;
      linePos := linePos + 1;
      assert line[..linePos] == l;
      if linePos == LINE_BUFFER_SIZE {
        linePos := 0;
      }
      if linePos > 0 && line[linePos - 1] == NEWLINE {
        out := out + [Nmea(line[..linePos])];
        linePos := 0;
      }
    }

    /** The UBX and NMEA parts of the loop body. */
    method UbxOrLine(ch: Byte) returns (outside: bool)
      requires Valid()
      modifies this, ubx, line
      ensures Valid() && outside == !RoomFor(old(Abs()))
      ensures if outside then Abs() == old(Abs()) && out == old(out)
              else Abs() == StepUbx(old(Abs()), ch).0 && out == old(out) + StepUbx(old(Abs()), ch).1
    {
      hide Tracks, Continues, Fletcher, Overruns, RtcmFrame.Field;
      var used := false;
      outside := false;
      if linePos == 0 {
        used, outside := UbxInput(ch);
      }
      assert rtcm.Held() == old(rtcm.Held());
      if !used && !outside {
        LineInput(ch);
      }
    }

    /** The body of process_thread's loop. */
    method ProcessByte(ch: Byte) returns (outside: bool)
      requires Valid()
      modifies this, ubx, line, rtcm, rtcm.buffer
      ensures Valid() && outside == !RoomFor(old(Abs()))
      ensures if outside then Abs() == old(Abs()) && out == old(out)
              else Abs() == Step(old(Abs()), ch).0 && out == old(out) + Step(old(Abs()), ch).1
    {
      hide Tracks, RtcmFrame.Input, StepUbx, RtcmFrame.Field, Announce;
      var used := false;
      outside := false;
      if linePos == 0 && ubxPos == 0 {
        RtcmFrame.RejectedSilent(rtcm.Held(), ch);
        var code := rtcm.InputData(ch);
        used := code >= 0;
        assert rtcm.frames == RtcmFrame.Input(old(rtcm.Held()), ch).2;
        out := out + Announce(rtcm.frames);
        assert rtcm.frames == [] ==> out == old(out);
        rtcm.frames := [];
      }
      if !used {
        outside := UbxOrLine(ch);
      }
    }

    /** process_thread's loop: takes the waiting bytes out of the serial port's ring buffer. It ends before
        the first of them that the program would store outside its buffer, having taken the ones before. */
    method ProcessWaiting(ring: array<Byte>, readPos: nat, writePos: nat, ghost waiting: Bytes)
      returns (pos: nat, outside: bool, ghost taken: nat)
      requires Valid() && readPos < ring.Length && writePos < ring.Length
      requires ring != line && ring != ubx && ring != rtcm.buffer
      requires waiting == Waiting(ring[..], readPos, writePos)
      modifies this, ubx, line, rtcm, rtcm.buffer
      ensures Valid() && taken <= |waiting|
      ensures outside == !AllHaveRoom(old(Abs()), waiting)
      ensures if outside then taken < |waiting| && !RoomFor(Abs()) else taken == |waiting| && pos == writePos
      ensures AllHaveRoom(old(Abs()), waiting[..taken])
      ensures Abs() == Run(old(Abs()), waiting[..taken]).0
      ensures out == old(out) + Run(old(Abs()), waiting[..taken]).1
    {
      hide Step, Tracks, RoomFor, Waiting, Run, AllHaveRoom, RtcmFrame.Field;
      pos, outside, taken := readPos, false, 0;
      ghost var bytes := ring[..];
      NoneTaken(Abs());
      assert waiting[0..] == waiting;
      while pos != writePos && !outside
        invariant pos < ring.Length && Valid() && ring[..] == bytes
        invariant taken <= |waiting| && waiting[taken..] == Waiting(bytes, pos, writePos)
        invariant AllHaveRoom(old(Abs()), waiting[..taken])
        invariant Abs() == Run(old(Abs()), waiting[..taken]).0
        invariant out == old(out) + Run(old(Abs()), waiting[..taken]).1
        invariant outside ==> taken < |waiting| && !RoomFor(Abs())
        decreases |waiting| - taken, !outside
      {
        var ch := ring[pos];
        WaitingFirst(bytes, pos, writePos);
        OneMoreTaken(old(Abs()), waiting, taken);
        outside := ProcessByte(ch);
        if !outside {
          taken := taken + 1;
          pos := pos + 1;
          if pos == ring.Length {
            pos := 0;
          }
        }
      }
      if outside {
        OneMoreTaken(old(Abs()), waiting, taken);
      } else {
        WaitingNone(bytes, pos);
        assert waiting[..taken] == waiting;
      }
    }
  }

  // ----- the waiting bytes

  /** The next byte of u is one of the payload that has no place in the buffer. */
  predicate Overruns(u: Bytes) {
    |u| >= 6 && UBX_BUFFER_SIZE <= |u| - 6 < UbxLength(u)
  }

  /** The next byte is not stored outside the UBX buffer. */
  predicate RoomFor(s: State) {
    s.line == [] ==> !Overruns(s.ubx)
  }

  predicate AllHaveRoom(s: State, bytes: Bytes)
    decreases |bytes|
  {
    bytes == [] || (RoomFor(s) && AllHaveRoom(Step(s, bytes[0]).0, bytes[1..]))
  }

  function Waiting(ring: Bytes, r: nat, w: nat): Bytes
    requires r < |ring| && w < |ring|
  {
    if r <= w then ring[r..w] else ring[r..] + ring[..w]
  }

  lemma WaitingNone(ring: Bytes, w: nat)
    requires w < |ring|
    ensures Waiting(ring, w, w) == []
  {
  }

  lemma WaitingFirst(ring: Bytes, r: nat, w: nat)
    requires r < |ring| && w < |ring| && r != w
    ensures var next := if r + 1 == |ring| then 0 else r + 1;
            Waiting(ring, r, w) != [] && Waiting(ring, r, w)[0] == ring[r] && Waiting(ring, r, w)[1..] == Waiting(ring, next, w)
  {
  }

  lemma NoneTaken(s: State)
    ensures Run(s, []) == (s, []) && AllHaveRoom(s, [])
  {
  }

  lemma RunFirst(s: State, bytes: Bytes)
    requires bytes != []
    ensures var (s1, o1) := Step(s, bytes[0]);
            Run(s, bytes) == (Run(s1, bytes[1..]).0, o1 + Run(s1, bytes[1..]).1)
  {
    hide Step;
  }

  /** After n bytes, taken inside the buffer, comes the next one. */
  lemma OneMoreTaken(s: State, w: Bytes, n: nat)
    requires n < |w| && AllHaveRoom(s, w[..n])
    ensures var (s1, o1) := Run(s, w[..n]); var (s2, o2) := Step(s1, w[n]);
            && Run(s, w[..n + 1]) == (s2, o1 + o2)
            && (AllHaveRoom(s, w[..n + 1]) <==> RoomFor(s1)) && (AllHaveRoom(s, w) ==> RoomFor(s1))
  {
    hide Step, RoomFor;
    var s1 := Run(s, w[..n]).0;
    assert w[..n] + [w[n]] == w[..n + 1] && w[..n] + w[n..] == w;
    RunConcat(s, w[..n], [w[n]]);
    RoomConcat(s, w[..n], [w[n]]);
    RoomConcat(s, w[..n], w[n..]);
    assert [w[n]][1..] == [];
    RunFirst(s1, [w[n]]);
    NoneTaken(Step(s1, w[n]).0);
    assert Step(s1, w[n]).1 + [] == Step(s1, w[n]).1;
  }

  lemma {:induction false} RoomConcat(s: State, x: Bytes, y: Bytes)
    ensures AllHaveRoom(s, x + y) <==> AllHaveRoom(s, x) && AllHaveRoom(Run(s, x).0, y)
    decreases |x|
  {
    hide Step, RoomFor;
    if x == [] {
      assert x + y == y;
    } else {
      assert (x + y)[1..] == x[1..] + y;
      RoomConcat(Step(s, x[0]).0, x[1..], y);
    }
  }

  predicate Storable(m: Message) {
    WellFormed(m) && (m.Ubx? ==> |m.payload| <= UBX_BUFFER_SIZE)
  }

  /** In a message only the payload bytes from number 3000 on have no place. */
  lemma PartialRoom(m: Message, k: nat)
    requires WellFormed(m) && k < |Encode(m)|
    ensures RoomFor(Partial(m, k)) <==> !(m.Ubx? && UBX_BUFFER_SIZE <= k - 6 < |m.payload|)
  {
    if m.Ubx? && k >= 6 {
      UbxByte(m.cls, m.id, m.payload, k);
      hide Fletcher;
      LengthRead(m.cls, m.id, m.payload, k);
    }
  }

  lemma LengthRead(cls: Byte, id: Byte, p: Bytes, k: nat)
    requires |p| < 0x10000 && 6 <= k <= |UbxFrame(cls, id, p)|
    ensures UbxLength(UbxFrame(cls, id, p)[..k]) == |p|
  {
    UbxLayout(cls, id, p);
    hide UbxFrame;
  }

  lemma {:induction false} RestRoom(m: Message, k: nat)
    requires WellFormed(m) && k < |Encode(m)|
    ensures AllHaveRoom(Partial(m, k), Encode(m)[k..]) <==> Storable(m) || k - 6 >= |m.payload|
    decreases |Encode(m)| - k
  {
    hide Step, Encode, WellFormed, Partial, RoomFor;
    Taken(m, k);
    PartialRoom(m, k);
    var rest := Encode(m)[k..];
    assert rest[1..] == Encode(m)[k + 1..];
    if k + 1 < |Encode(m)| {
      RestRoom(m, k + 1);
    } else {
      assert rest[1..] == [];
      LastIsTrailer(m);
    }
  }

  lemma LastIsTrailer(m: Message)
    requires WellFormed(m)
    ensures m.Ubx? ==> |Encode(m)| == 8 + |m.payload|
  {
    if m.Ubx? {
      UbxLayout(m.cls, m.id, m.payload);
    }
  }

  /** A stream stays inside the UBX buffer if and only if every UBX payload in it does. */
  lemma {:induction false} StreamRoom(ms: seq<Message>)
    requires forall m | m in ms :: WellFormed(m)
    ensures AllHaveRoom(IDLE, Stream(ms)) <==> forall m | m in ms :: Storable(m)
    decreases |ms|
  {
    hide Step, Encode, WellFormed, Partial, RoomFor;
    if ms != [] {
      var m := ms[0];
      EncodeSome(m);
      RestRead(m, 0);
      RestRoom(m, 0);
      assert Encode(m)[0..] == Encode(m);
      StreamRoom(ms[1..]);
      RoomConcat(IDLE, Encode(m), Stream(ms[1..]));
      assert ms == [m] + ms[1..];
    }
  }

  /** Any sequence of well-formed messages comes out as sent (none lost, split, reordered or misrouted) without a
      byte stored outside the UBX buffer, if and only if no UBX payload is longer than that buffer. */
  lemma StreamDecodes(ms: seq<Message>)
    requires forall m | m in ms :: WellFormed(m)
    ensures AllHaveRoom(IDLE, Stream(ms)) && Run(IDLE, Stream(ms)) == (IDLE, ms) <==> forall m | m in ms :: Storable(m)
  {
    hide Run, AllHaveRoom, Stream, WellFormed, Storable;
    StreamParsed(ms);
    StreamRoom(ms);
  }

  /** While a message is still incomplete, nothing has come out. */
  lemma {:induction false} PrefixRun(m: Message, n: nat)
    requires WellFormed(m) && n < |Encode(m)|
    ensures Run(IDLE, Encode(m)[..n]) == (Partial(m, n), [])
    decreases n
  {
    hide Step, Encode, Partial, Run, WellFormed;
    var f := Encode(m);
    if n == 0 {
      EncodeSome(m);
      NoneTaken(IDLE);
    } else {
      PrefixRun(m, n - 1);
      Taken(m, n - 1);
      RunSnoc(IDLE, f, n - 1);
      assert f[..n - 1 + 1] == f[..n] && Run(IDLE, f[..n]).1 == [] + [];
    }
  }

  lemma RunSnoc(s: State, w: Bytes, n: nat)
    requires n < |w|
    ensures var (s1, o1) := Run(s, w[..n]); var (s2, o2) := Step(s1, w[n]); Run(s, w[..n + 1]) == (s2, o1 + o2)
  {
    hide Step;
    var s1 := Run(s, w[..n]).0;
    assert w[..n] + [w[n]] == w[..n + 1] && [w[n]][1..] == [];
    RunConcat(s, w[..n], [w[n]]);
    RunFirst(s1, [w[n]]);
    NoneTaken(Step(s1, w[n]).0);
    assert Step(s1, w[n]).1 + [] == Step(s1, w[n]).1;
  }

  /** A frame with an oversized payload is taken up to its 3000th payload byte; the next one has no place. */
  lemma {:induction false} OversizedStops(m: Message, n: nat)
    requires WellFormed(m) && !Storable(m) && n <= |Encode(m)|
    ensures AllHaveRoom(IDLE, Encode(m)[..n]) <==> n <= 6 + UBX_BUFFER_SIZE
    ensures n <= 6 + UBX_BUFFER_SIZE ==> Run(IDLE, Encode(m)[..n]) == (Partial(m, n), [])
    decreases n
  {
    hide Step, Encode, Partial, RoomFor, Run, AllHaveRoom;
    var f := Encode(m);
    LastIsTrailer(m);
    if n == 0 {
      EncodeSome(m);
      NoneTaken(IDLE);
    } else {
      OversizedStops(m, n - 1);
      assert f[..n] == f[..n - 1] + [f[n - 1]];
      RoomConcat(IDLE, f[..n - 1], [f[n - 1]]);
      if n - 1 <= 6 + UBX_BUFFER_SIZE {
        PartialRoom(m, n - 1);
        Taken(m, n - 1);
        OneMoreTaken(IDLE, f, n - 1);
        assert f[..n - 1 + 1] == f[..n];
        assert n <= 6 + UBX_BUFFER_SIZE ==> Run(IDLE, f[..n]).1 == [] + [];
      }
    }
  }

  // ----- sending

  /** ubx_encode_send: the bytes handed to the serial port, unless the program would put them together outside its
      buffer. */
  method UbxEncodeSend(cls: Byte, id: Byte, msg: array<Byte>, len: nat) returns (sent: Bytes, outside: bool)
    requires len <= msg.Length
    ensures outside == (|UbxFrame(cls, id, msg[..len])| > UBX_BUFFER_SIZE)
    ensures !outside ==> sent == UbxFrame(cls, id, msg[..len])
    ensures !outside ==> Run(IDLE, sent) == (IDLE, [Ubx(cls, id, msg[..len])])
  {
    hide Fletcher, Step, Run, Add, LowByte, HighByte, UbxBody, UbxFrame;
    FrameLength(cls, id, msg[..len]);
    if len + 8 > UBX_BUFFER_SIZE {
      return [], true;
    }
    outside := false;
    var ubx := new Byte[UBX_BUFFER_SIZE](_ => 0);
    ghost var p := msg[..len];
    ghost var body := UbxBody(cls, id, p);
    BodyAt(cls, id, p);
    var ckA, ckB := PutHeader(ubx, cls, id, len);
    var ind := 6;
    for i := 0 to len
      invariant ind == 6 + i && ubx[0] == 0xB5 && ubx[1] == 0x62
      invariant forall j | 0 <= j < 4 + i :: ubx[2 + j] == body[j]
      invariant (ckA, ckB) == Fletcher(body[..4 + i])
    {
      ubx[ind] := msg[i];
      FletcherSnoc(body, 4 + i);
      ckA, ckB := Add(ckA, ubx[ind]), Add(ckB, Add(ckA, ubx[ind]));
      ind := ind + 1;
    }
    ubx[ind], ubx[ind + 1] := ckA, ckB;
    sent := ubx[..ind + 2];
    Assembled(cls, id, p, sent);
    SentDecodes(cls, id, p);
  }

  lemma FrameLength(cls: Byte, id: Byte, p: Bytes)
    ensures |UbxFrame(cls, id, p)| == |p| + 8
  {
  }

  lemma BodyAt(cls: Byte, id: Byte, p: Bytes)
    ensures var body := UbxBody(cls, id, p);
            && |body| == 4 + |p| && body[..4] == [cls, id, LowByte(|p|), HighByte(|p|)]
            && body[0] == cls && body[1] == id && body[2] == LowByte(|p|) && body[3] == HighByte(|p|)
            && forall i | 0 <= i < |p| :: body[4 + i] == p[i]
  {
    hide LowByte, HighByte;
  }

  lemma Assembled(cls: Byte, id: Byte, p: Bytes, sent: Bytes)
    requires |sent| == 8 + |p| && sent[0] == 0xB5 && sent[1] == 0x62
    requires var body := UbxBody(cls, id, p);
             && (forall j | 0 <= j < 4 + |p| :: sent[2 + j] == body[j])
             && (sent[6 + |p|], sent[7 + |p|]) == Fletcher(body[..4 + |p|])
    ensures sent == UbxFrame(cls, id, p)
  {
    hide Fletcher, Total, Weighted;
    var body := UbxBody(cls, id, p);
    FletcherIs(body);
    assert body[..4 + |p|] == body && sent[2..6 + |p|] == body;
    assert sent == [sent[0], sent[1]] + sent[2..6 + |p|] + [sent[6 + |p|], sent[7 + |p|]];
  }

  lemma SentDecodes(cls: Byte, id: Byte, p: Bytes)
    requires |p| < 0x10000
    ensures Run(IDLE, UbxFrame(cls, id, p)) == (IDLE, [Ubx(cls, id, p)])
  {
    hide Run, Step, UbxFrame;
    var m := Ubx(cls, id, p);
    EncodeSome(m);
    RestRead(m, 0);
    assert Encode(m)[0..] == Encode(m);
  }

  lemma FletcherSnoc(m: Bytes, k: nat)
    requires k < |m|
    ensures Fletcher(m[..k + 1]) == Summed2(Fletcher(m[..k]), m[k])
  {
    hide Add;
    assert m[..k + 1][..k] == m[..k];
  }

  /** The first six bytes, and the checksum of the four of them that it covers. */
  method PutHeader(ubx: array<Byte>, cls: Byte, id: Byte, len: nat) returns (ckA: Byte, ckB: Byte)
    requires ubx.Length >= 6 && len < 0x10000
    modifies ubx
    ensures ubx[..6] == [0xB5, 0x62, cls, id, LowByte(len), HighByte(len)]
    ensures (ckA, ckB) == Fletcher([cls, id, LowByte(len), HighByte(len)])
  {
    hide Add, LowByte, HighByte;
    ghost var head := [cls, id, LowByte(len), HighByte(len)];
    ubx[0], ubx[1], ubx[2], ubx[3], ubx[4], ubx[5] := 0xB5, 0x62, cls, id, LowByte(len), HighByte(len);
    ckA, ckB := 0, 0;
    assert head[..0] == [];
    for i := 0 to 4
      invariant (ckA, ckB) == Fletcher(head[..i])
      invariant ubx[..6] == [0xB5, 0x62] + head
    {
      assert ubx[2 + i] == ubx[..6][2 + i];
      ckA := Add(ckA, ubx[2 + i]);
      ckB := Add(ckB, ckA);
      FletcherSnoc(head, i);
    }
    assert head[..4] == head;
  }
}
