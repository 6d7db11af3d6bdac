/** Buffers sent over the CAN bus in fragments of at most eight bytes. */
module Can {
  import opened Octets
  import opened Crc16
  import opened Division

  const RX_BUFFER_SIZE: nat := 1024
  const FILL: nat := 5
  const FILL_LONG: nat := 6
  const PROCESS: nat := 7
  const SHORT: nat := 8

  /** A frame: the command in its identifier, and its data bytes. */
  datatype Frame = Frame(cmd: nat, data: Bytes)

  // ----- what is sent

  /** The part of data of up to n bytes at a position. */
  function Part(data: Bytes, at: nat, n: nat): (p: Bytes)
    requires at <= |data|
    ensures |p| <= n && at + |p| <= |data|
  {
    if at + n <= |data| then data[at..at + n] else data[at..]
  }

  /** The frame filling from a position: seven bytes while the position fits one byte, then six. */
  function FillAt(data: Bytes, at: nat): Frame
    requires at < |data|
  {
    if at <= 255 then Frame(FILL, [at] + Part(data, at, 7)) else Frame(FILL_LONG, [HighByte(at), LowByte(at)] + Part(data, at, 6))
  }

  function Fills(data: Bytes, at: nat): seq<Frame>
    decreases |data| - at
  {
    if at >= |data| then [] else [FillAt(data, at)] + Fills(data, at + if at <= 255 then 7 else 6)
  }

  function Closing(id: Byte, send: bool, data: Bytes): Frame {
    Frame(PROCESS, [id, if send then 1 else 0, HighByte(|data|), LowByte(|data|)] + Check(data))
  }

  /** The frames for a buffer. */
  function Sent(id: Byte, send: bool, data: Bytes): seq<Frame> {
    if |data| <= 6 then [Frame(SHORT, [id, if send then 1 else 0] + data)] else Fills(data, 0) + [Closing(id, send, data)]
  }

  // ----- what the receiver does

  type Buffer = s: Bytes | |s| == RX_BUFFER_SIZE witness seq(RX_BUFFER_SIZE, _ => 0)

  function Put(buf: Buffer, at: nat, part: Bytes): Buffer
    requires at + |part| <= RX_BUFFER_SIZE
  {
    buf[..at] + part + buf[at + |part|..]
  }

  /** Frames that carry the bytes their command reads, and fill nothing beyond the buffer. */
  predicate Sound(f: Frame) {
    if f.cmd == FILL then 1 <= |f.data| <= 8
    else if f.cmd == FILL_LONG then
      && 2 <= |f.data| <= 8
      && (Number(f.data[0], f.data[1]) < RX_BUFFER_SIZE ==> Number(f.data[0], f.data[1]) + |f.data| - 2 <= RX_BUFFER_SIZE)
    else if f.cmd == PROCESS then |f.data| >= 6 || (|f.data| >= 4 && Number(f.data[2], f.data[3]) > RX_BUFFER_SIZE)
    else if f.cmd == SHORT then |f.data| >= 2
    else true
  }

  /** One received frame: the new buffer and the packets handed over (at most one). */
  function Step(buf: Buffer, f: Frame): (Buffer, seq<Bytes>)
    requires Sound(f)
  {
    if f.cmd == FILL then (Put(buf, f.data[0], f.data[1..]), [])
    else if f.cmd == FILL_LONG then
      var at := Number(f.data[0], f.data[1]);
      (if at < RX_BUFFER_SIZE then Put(buf, at, f.data[2..]) else buf, [])
    else if f.cmd == PROCESS then
      var len := Number(f.data[2], f.data[3]);
      (buf, if len <= RX_BUFFER_SIZE && Check(buf[..len]) == [f.data[4], f.data[5]] then [buf[..len]] else [])
    else if f.cmd == SHORT then (buf, [f.data[2..]])
    else (buf, [])
  }

  function Run(buf: Buffer, fs: seq<Frame>): (Buffer, seq<Bytes>)
    requires forall f | f in fs :: Sound(f)
    decreases |fs|
  {
    if fs == [] then (buf, [])
    else
      var (b1, o1) := Step(buf, fs[0]);
      var (b2, o2) := Run(b1, fs[1..]);
      (b2, o1 + o2)
  }

  /** The sender remembered after a frame: both closing frames name it first. */
  function Sender(last: Byte, f: Frame): Byte {
    if (f.cmd == PROCESS || f.cmd == SHORT) && f.data != [] then f.data[0] else last
  }

  function SenderAfter(last: Byte, fs: seq<Frame>): Byte {
    if fs == [] then last else Sender(SenderAfter(last, fs[..|fs| - 1]), fs[|fs| - 1])
  }

  /** When a buffer has arrived, the receiver knows who sent it. */
  lemma SenderKnown(id: Byte, send: bool, data: Bytes, last: Byte)
    ensures SenderAfter(last, Sent(id, send, data)) == id
  {
    hide Check, Fills;
  }

  /** The last frame of a buffer, by its number, and what it says first: who sent it and how. */
  lemma LastFrame(id: Byte, send: bool, data: Bytes)
    ensures var fs := Sent(id, send, data);
            && |fs| >= 1 && fs[|fs| - 1].cmd == (if |data| <= 6 then 8 else 7)
            && fs[|fs| - 1].data[..2] == [id, if send then 1 else 0]
  {
    hide Check, Fills;
  }

  // ----- frames that go astray

  /** How many bytes the command of f reads before any that it copies. */
  function Arguments(f: Frame): nat {
    if f.cmd == FILL then 1
    else if f.cmd == FILL_LONG || f.cmd == SHORT then 2
    else if f.cmd == PROCESS then if |f.data| >= 4 && Number(f.data[2], f.data[3]) > RX_BUFFER_SIZE then 4 else 6
    else 0
  }

  /** f stores its data byte i at position k of the receive buffer, which may lie beyond its end. */
  predicate Stores(f: Frame, i: nat, k: nat) {
    && i < |f.data|
    && if f.cmd == FILL then i >= 1 && k == f.data[0] + i - 1
       else f.cmd == FILL_LONG && i >= 2 && Number(f.data[0], f.data[1]) < RX_BUFFER_SIZE && k == Number(f.data[0], f.data[1]) + i - 2
  }

  /** The sound frames are exactly those that have their arguments and store nothing outside the buffer. */
  lemma SoundIff(f: Frame)
    requires |f.data| <= 8
    ensures Sound(f) <==> |f.data| >= Arguments(f) && forall i: nat, k: nat | Stores(f, i, k) :: k < RX_BUFFER_SIZE
  {
    var last := |f.data| - 1;
    if f.cmd == FILL_LONG && last >= 2 {
      var at := Number(f.data[0], f.data[1]);
      assert at < RX_BUFFER_SIZE ==> Stores(f, last, at + last - 2);
    }
  }

  /** A frame with its arguments goes astray only when it fills six bytes or fewer from one of the last five
      positions; then at most five bytes land behind the buffer. */
  lemma LongAstray(f: Frame)
    requires |f.data| <= 8 && |f.data| >= Arguments(f)
    ensures !Sound(f) <==>
              f.cmd == 6 && Number(f.data[0], f.data[1]) < 1024 < Number(f.data[0], f.data[1]) + |f.data| - 2
    ensures !Sound(f) ==> 1019 <= Number(f.data[0], f.data[1])
    ensures f.cmd == 6 && |f.data| == 8 ==> (!Sound(f) <==> 1019 <= Number(f.data[0], f.data[1]) < 1024)
    ensures forall i: nat, k: nat | Stores(f, i, k) :: k < 1029
  {
    hide Number;
  }

  // ----- the fragments partition the data

  /** Where a fill frame puts its bytes, and the bytes. */
  function Place(f: Frame): (nat, Bytes)
    requires Sound(f)
  {
    if f.cmd == FILL then (f.data[0], f.data[1..])
    else if f.cmd == FILL_LONG then (Number(f.data[0], f.data[1]), f.data[2..])
    else (0, [])
  }

  /** fs are fill frames whose pieces follow one another from a position to the end of data. */
  predicate Tiles(fs: seq<Frame>, data: Bytes, at: nat)
    requires forall f | f in fs :: Sound(f)
    decreases |fs|
  {
    if fs == [] then at == |data|
    else
      var (k, part) := Place(fs[0]);
      && (fs[0].cmd == FILL || fs[0].cmd == FILL_LONG)
      && k == at && part != [] && at + |part| <= |data| && data[at..at + |part|] == part
      && Tiles(fs[1..], data, at + |part|)
  }

  lemma FillPlace(data: Bytes, at: nat)
    requires |data| <= RX_BUFFER_SIZE && at < |data|
    ensures var f, part := FillAt(data, at), Part(data, at, if at <= 255 then 7 else 6);
            && Sound(f) && Place(f) == (at, part) && (f.cmd == FILL || f.cmd == FILL_LONG)
            && part != [] && data[at..at + |part|] == part
  {
    assert Number(HighByte(at), LowByte(at)) == at;
  }

  /** The pieces of the fragments, put one after another, are the data. */
  lemma {:induction false} FillsTile(data: Bytes, at: nat)
    requires |data| <= RX_BUFFER_SIZE && at <= |data|
    ensures (forall f | f in Fills(data, at) :: Sound(f)) && Tiles(Fills(data, at), data, at)
    decreases |data| - at
  {
    hide Sound, Place, FillAt;
    if at < |data| {
      FillPlace(data, at);
      var n := if at <= 255 then 7 else 6;
      var fs, rest := Fills(data, at), Fills(data, at + n);
      assert fs[1..] == rest;
      if at + n < |data| {
        FillsTile(data, at + n);
      }
    }
  }

  // ----- reassembly

  /** f puts at each place it fills the byte data has there. */
  predicate Carries(f: Frame, data: Bytes)
    requires Sound(f)
  {
    var (at, part) := Place(f);
    at + |part| <= |data| && data[at..at + |part|] == part
  }

  /** f fills position k. */
  predicate Covers(f: Frame, k: nat)
    requires Sound(f)
  {
    var (at, part) := Place(f);
    at <= k < at + |part|
  }

  lemma {:induction false} TilesCover(fs: seq<Frame>, data: Bytes, at: nat, k: nat)
    requires (forall f | f in fs :: Sound(f)) && Tiles(fs, data, at) && at <= k < |data|
    ensures exists f :: f in fs && Covers(f, k)
    decreases |fs|
  {
    hide Sound, Place;
    if !Covers(fs[0], k) {
      TilesCover(fs[1..], data, at + |Place(fs[0]).1|, k);
      var f :| f in fs[1..] && Covers(f, k);
      assert f in fs;
    }
  }

  lemma {:induction false} TilesCarry(fs: seq<Frame>, data: Bytes, at: nat, f: Frame)
    requires (forall g | g in fs :: Sound(g)) && Tiles(fs, data, at) && f in fs
    ensures Carries(f, data) && (f.cmd == FILL || f.cmd == FILL_LONG)
    decreases |fs|
  {
    hide Sound, Place;
    if f != fs[0] {
      assert f in fs[1..];
      TilesCarry(fs[1..], data, at + |Place(fs[0]).1|, f);
    }
  }

  /** A frame that neither fills the buffer nor hands anything over. */
  predicate Idle(f: Frame) {
    f.cmd > SHORT || f.cmd < FILL
  }

  lemma FillStep(buf: Buffer, f: Frame, data: Bytes, k: nat)
    requires Sound(f) && k < |data| <= RX_BUFFER_SIZE
    requires Idle(f) || ((f.cmd == FILL || f.cmd == FILL_LONG) && Carries(f, data))
    ensures Step(buf, f).1 == []
    ensures buf[k] == data[k] || (!Idle(f) && Covers(f, k)) ==> Step(buf, f).0[k] == data[k]
  {
    hide Check;
    if !Idle(f) {
      var (at, part) := Place(f);
      if at < RX_BUFFER_SIZE {
        assert Put(buf, at, part)[k] == if at <= k < at + |part| then part[k - at] else buf[k];
        assert at <= k < at + |part| ==> part[k - at] == data[at..at + |part|][k - at] == data[k];
      }
    }
  }

  /** Whatever the order and number of the fragments, a place once filled holds its byte of the data. */
  lemma {:induction false} RunFills(buf: Buffer, fs: seq<Frame>, data: Bytes, k: nat)
    requires k < |data| <= RX_BUFFER_SIZE && forall f | f in fs :: Sound(f)
    requires forall f | f in fs :: Idle(f) || ((f.cmd == FILL || f.cmd == FILL_LONG) && Carries(f, data))
    ensures Run(buf, fs).1 == []
    ensures buf[k] == data[k] || (exists f :: f in fs && !Idle(f) && Covers(f, k)) ==> Run(buf, fs).0[k] == data[k]
    decreases |fs|
  {
    hide Step, Sound, Carries, Covers, Idle;
    if fs != [] {
      FillStep(buf, fs[0], data, k);
      RunFills(Step(buf, fs[0]).0, fs[1..], data, k);
      if f :| f in fs && !Idle(f) && Covers(f, k) {
        assert f == fs[0] || f in fs[1..];
      }
    }
  }

  lemma {:induction false} RunConcat(buf: Buffer, fs: seq<Frame>, gs: seq<Frame>)
    requires (forall f | f in fs :: Sound(f)) && forall f | f in gs :: Sound(f)
    ensures forall f | f in fs + gs :: Sound(f)
    ensures var (b1, o1) := Run(buf, fs); var (b2, o2) := Run(b1, gs); Run(buf, fs + gs) == (b2, o1 + o2)
    decreases |fs|
  {
    hide Step, Sound;
    if fs == [] {
      assert fs + gs == gs && [] + Run(buf, gs).1 == Run(buf, gs).1;
    } else {
      assert (fs + gs)[1..] == fs[1..] + gs;
      var (b1, o1) := Step(buf, fs[0]);
      RunConcat(b1, fs[1..], gs);
      var (b2, o2) := Run(b1, fs[1..]);
      assert o1 + (o2 + Run(b2, gs).1) == (o1 + o2) + Run(b2, gs).1;
    }
  }

  lemma ClosingDelivers(id: Byte, send: bool, data: Bytes, buf: Buffer)
    requires |data| <= RX_BUFFER_SIZE && buf[..|data|] == data
    ensures Sound(Closing(id, send, data)) && Run(buf, [Closing(id, send, data)]) == (buf, [data])
  {
    hide Check;
    var f := Closing(id, send, data);
    assert Number(HighByte(|data|), LowByte(|data|)) == |data|;
    assert f.data[4..] == Check(data) && Check(data) == [f.data[4], f.data[5]];
    assert Step(buf, f) == (buf, [data]);
    assert [f][1..] == [] && [data] + [] == [data];
  }

  /** The fragments of a buffer, received in any order, any number of times each and mixed with other traffic,
      followed by the closing frame, hand over exactly the buffer, whatever the receiver held before. */
  lemma Reassembles(id: Byte, send: bool, data: Bytes, buf: Buffer, fs: seq<Frame>)
    requires 7 <= |data| <= 1024
    requires forall f | f in fs :: f in Fills(data, 0) || f.cmd < 5 || f.cmd > 8
    requires forall f | f in Fills(data, 0) :: f in fs
    ensures forall f | f in fs + [Closing(id, send, data)] :: Sound(f)
    ensures Run(buf, fs + [Closing(id, send, data)]).1 == [data]
  {
    hide Check, Closing, Carries, Covers, Run, Step, Idle, Fills, Tiles;
    FillsTile(data, 0);
    forall f | f in fs ensures Sound(f) {
      if f !in Fills(data, 0) {
        IdleSound(f);
      }
    }
    forall f | f in fs ensures Idle(f) || ((f.cmd == FILL || f.cmd == FILL_LONG) && Carries(f, data)) {
      if f in Fills(data, 0) {
        TilesCarry(Fills(data, 0), data, 0, f);
      } else {
        IdleSound(f);
      }
    }
    hide Sound;
    var (b, o) := Run(buf, fs);
    RunFills(buf, fs, data, 0);
    forall k | 0 <= k < |data| ensures b[k] == data[k] {
      TilesCover(Fills(data, 0), data, 0, k);
      var f :| f in Fills(data, 0) && Covers(f, k);
      TilesCarry(Fills(data, 0), data, 0, f);
      FillNotIdle(f);
      RunFills(buf, fs, data, k);
    }
    assert b[..|data|] == data;
    ClosingDelivers(id, send, data, b);
    RunConcat(buf, fs, [Closing(id, send, data)]);
    assert [] + [data] == [data];
  }

  lemma IdleSound(f: Frame)
    requires f.cmd < 5 || f.cmd > 8
    ensures Idle(f) && Sound(f)
  {
  }

  lemma FillNotIdle(f: Frame)
    requires f.cmd == FILL || f.cmd == FILL_LONG
    ensures !Idle(f)
  {
  }

  /** A short buffer arrives whole in its one frame. */
  lemma ShortDelivers(id: Byte, send: bool, data: Bytes, buf: Buffer)
    requires |data| <= 6
    ensures (forall f | f in Sent(id, send, data) :: Sound(f)) && Run(buf, Sent(id, send, data)) == (buf, [data])
  {
    var f := Frame(SHORT, [id, if send then 1 else 0] + data);
    assert f.data[2..] == data && Sent(id, send, data) == [f];
    assert Step(buf, f) == (buf, [data]);
    assert [f][1..] == [] && [data] + [] == [data];
  }

  /** Every buffer of up to 1024 bytes sent is received. */
  lemma SentReceived(id: Byte, send: bool, data: Bytes, buf: Buffer)
    requires |data| <= 1024
    ensures (forall f | f in Sent(id, send, data) :: Sound(f)) && Run(buf, Sent(id, send, data)).1 == [data]
  {
    if |data| <= 6 {
      ShortDelivers(id, send, data, buf);
    } else {
      Reassembles(id, send, data, buf, Fills(data, 0));
    }
  }

  // ----- the program's loops

  lemma FillsSplit(data: Bytes, from: nat, at: nat, done: seq<Frame>)
    requires at < |data| && done + Fills(data, at) == Fills(data, from)
    ensures done + [FillAt(data, at)] + Fills(data, at + if at <= 255 then 7 else 6) == Fills(data, from)
  {
    assert Fills(data, at) == [FillAt(data, at)] + Fills(data, at + if at <= 255 then 7 else 6);
  }

  /** comm_can_send_buffer: the frames handed to the bus. A controller with number mainId is known there by 128 more. */
  method SendBuffer(mainId: Byte, data: array<Byte>, len: nat, send: bool) returns (sent: seq<Frame>)
    requires len <= data.Length
    ensures sent == Sent((mainId + 128) % 256, send, data[..len])
  {
    hide Checksum16, Wire16, Fills, FillAt, Reg16, Remainder, G16;
    var id: Byte := (mainId + 128) % 256;
    var flag: Byte := if send then 1 else 0;
    if len <= 6 {
      return [Frame(SHORT, [id, flag] + data[..len])];
    }
    ghost var all := data[..len];
    sent := [];
    var i, endA := 0, 0;
    assert sent + Fills(all, 0) == Fills(all, 0);
    while i < len
      invariant sent + Fills(all, i) == Fills(all, 0) && i == endA
      decreases len - i
    {
      if i > 255 {
        break;
      }
      endA := i + 7;
      FillsSplit(all, 0, i, sent);
      var f := FillFrame(data, len, i);
      sent := sent + [f];
      i := i + 7;
    }
    i := endA;
    while i < len
      invariant sent + Fills(all, i) == Fills(all, 0) && (i < len ==> i > 255)
      decreases len - i
    {
      FillsSplit(all, 0, i, sent);
      var f := FillFrame(data, len, i);
      sent := sent + [f];
      i := i + 6;
    }
    NoFills(all, i);
    var crc := ComputeCrc16(data, len);
    sent := sent + [Frame(PROCESS, [id, flag, len / 256 % 256, len % 256] + Wire16(crc))];
  }

  /** The frame of either loop for position i. */
  method FillFrame(data: array<Byte>, len: nat, i: nat) returns (f: Frame)
    requires i < len <= data.Length
    ensures f == FillAt(data[..len], i)
  {
    if i <= 255 {
      var sendLen := if i + 7 <= len then 7 else len - i;
      f := Frame(FILL, [i] + data[i..i + sendLen]);
    } else {
      var sendLen := if i + 6 <= len then 6 else len - i;
      f := Frame(FILL_LONG, [i / 256 % 256, i % 256] + data[i..i + sendLen]);
    }
  }

  lemma NoFills(data: Bytes, at: nat)
    requires at >= |data|
    ensures Fills(data, at) == []
  {
  }

  class Receiver {
    const rxBuffer: array<Byte>
    var lastId: Byte
    var delivered: seq<Bytes>  // packets handed on

    ghost predicate Valid()
      reads this
    {
      rxBuffer.Length == RX_BUFFER_SIZE
    }

    constructor ()
      ensures Valid() && delivered == [] && lastId == 0 && fresh(rxBuffer)
    {
      rxBuffer := new Byte[RX_BUFFER_SIZE](_ => 0);
      lastId, delivered := 0, [];
    }

    method Copy(at: nat, part: Bytes)
      requires Valid() && at + |part| <= RX_BUFFER_SIZE
      modifies rxBuffer
      ensures rxBuffer[..] == Put(old(rxBuffer[..]), at, part)
    {
      forall k | 0 <= k < |part| {
        rxBuffer[at + k] := part[k];
      }
    }

    /** The buffer commands of cancom_process_thread. A frame that lacks arguments or would be stored outside
        the buffer goes astray; the model stops before it does. */
    method ProcessFrame(rx: Frame) returns (astray: bool)
      requires Valid() && |rx.data| <= 8
      modifies this, rxBuffer
      ensures Valid() && astray == !Sound(rx)
      ensures if astray then rxBuffer[..] == old(rxBuffer[..]) && delivered == old(delivered) && lastId == old(lastId)
              else
                && rxBuffer[..] == Step(old(rxBuffer[..]), rx).0
                && delivered == old(delivered) + Step(old(rxBuffer[..]), rx).1
                && lastId == Sender(old(lastId), rx)
    {
      hide Checksum16, Wire16, Put, Reg16, Remainder, G16;
      if |rx.data| < Arguments(rx) {
        return true;
      }
      astray := false;
      if rx.cmd == FILL {
        Copy(rx.data[0], rx.data[1..]);
      } else if rx.cmd == FILL_LONG {
        var ind := Number(rx.data[0], rx.data[1]);
        if ind < RX_BUFFER_SIZE {
          if ind + |rx.data| - 2 > RX_BUFFER_SIZE {
            return true;
          }
          Copy(ind, rx.data[2..]);
        }
      } else if rx.cmd == PROCESS {
        lastId := rx.data[0];
        var len := Number(rx.data[2], rx.data[3]);
        if len > RX_BUFFER_SIZE {
          return;
        }
        var crc := ComputeCrc16(rxBuffer, len);
        assert rxBuffer[..][..len] == rxBuffer[..len];
        if Wire16(crc) == [rx.data[4], rx.data[5]] {
          delivered := delivered + [rxBuffer[..len]];
        }
      } else if rx.cmd == SHORT {
        lastId := rx.data[0];
        delivered := delivered + [rx.data[2..]];
      }
    }
  }
}
