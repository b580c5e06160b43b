/** Packets of the GDB remote serial protocol (GDB manual, "GDB Remote Serial Protocol", section "Overview"), as
    tools/gdb-bridge.c frames, receives and sends them. */
module GdbPacket {
  import opened Words
  import opened HexCodec

  const MAXPKT: nat := 8192
  const DOLLAR: byte := 0x24
  const HASH: byte := 0x23
  const INTERRUPT: byte := 3

  // ----- receiving -----

  datatype RxState = Idle | Payload | Check1 | Check2

  // What the receiver does: hand a command on, or answer + or -.
  datatype Event = Command(text: seq<byte>) | Ack | Nak

  // text is what has been received of the packet, and is kept up to the end of its checksum.
  datatype Rx = Rx(state: RxState, sum: u32, text: seq<byte>, check: byte)

  const FRESH := Rx(Idle, 0, [], 0)

  predicate RxValid(r: Rx) {
    |r.text| < MAXPKT && (r.state.Idle? ==> r.text == [])
  }

  function RxStep(r: Rx, c: byte, acks: bool): (s: (Rx, seq<Event>))
    requires RxValid(r)
    ensures RxValid(s.0)
  {
    match r.state
    case Idle =>
      if c == INTERRUPT then (r, [Command([DOLLAR])])
      else if c == DOLLAR then (r.(state := Payload, sum := 0), [])
      else (r, [])
    case Payload =>
      if c == HASH then (r.(state := Check1), [])
      else if |r.text| == MAXPKT - 1 then (r.(state := Idle, text := []), [])
      else (r.(text := r.text + [c], sum := Add32(r.sum, c)), [])
    case Check1 => (r.(state := Check2, check := c), [])
    case Check2 => (r.(state := Idle, text := []), Verdict(r, c, acks))
  }

  function Verdict(r: Rx, c: byte, acks: bool): seq<Event> {
    if Strtoul([r.check, c]) == r.sum % 0x100 then (if acks then [Ack] else []) + [Command(r.text)]
    else if acks then [Nak] else []
  }

  function RxRun(r: Rx, cs: seq<byte>, acks: bool): (s: (Rx, seq<Event>))
    requires RxValid(r)
    ensures RxValid(s.0)
    decreases |cs|
  {
    if cs == [] then (r, [])
    else
      var (r1, es) := RxStep(r, cs[0], acks);
      var (r2, fs) := RxRun(r1, cs[1..], acks);
      (r2, es + fs)
  }

  lemma {:induction false} RxRunAppend(r: Rx, a: seq<byte>, b: seq<byte>, acks: bool)
    requires RxValid(r)
    ensures var (r1, es) := RxRun(r, a, acks);
      var (r2, fs) := RxRun(r1, b, acks);
      RxRun(r, a + b, acks) == (r2, es + fs)
    decreases |a|
  {
    if a == [] {
      assert a + b == b;
      assert [] + RxRun(r, b, acks).1 == RxRun(r, b, acks).1;
    } else {
      assert (a + b)[1..] == a[1..] + b;
      var (r0, ds) := RxStep(r, a[0], acks);
      RxRunAppend(r0, a[1..], b, acks);
      var (r1, es) := RxRun(r0, a[1..], acks);
      assert ds + (es + RxRun(r1, b, acks).1) == ds + es + RxRun(r1, b, acks).1;
    }
  }

  // ----- sending -----

  // The bytes put since the prologue, $ included, and the running sum of those after it.
  datatype Tx = Tx(text: seq<byte>, sum: u32)

  const PROLOGUE := Tx([DOLLAR], 0)

  predicate TxFull(t: Tx) { |t.text| == MAXPKT - 1 }

  function TxPut(t: Tx, c: byte): Tx {
    if TxFull(t) then t else Tx(t.text + [c], Add32(t.sum, c))
  }

  function TxPutAll(t: Tx, cs: seq<byte>): Tx
    decreases |cs|
  {
    if cs == [] then t else TxPutAll(TxPut(t, cs[0]), cs[1..])
  }

  function CheckText(sum: nat): seq<byte> {
    [HASH, HexDigit(sum % 0x100 / 16), HexDigit(sum % 0x100 % 16)]
  }

  // What gdb_epilogue writes: the whole packet, or nothing if the buffer is full.
  function Epilogue(t: Tx): seq<seq<byte>> {
    var end := TxPutAll(t, CheckText(t.sum));
    if TxFull(end) then [] else [end.text]
  }

  // ----- the connection -----

  class GdbCnxn {
    var state: RxState
    var rxsum: u32
    var check: byte
    var acks: bool
    const rxbuf: array<byte>
    var rxptr: nat
    const txbuf: array<byte>
    var txptr: nat
    var txsum: u32
    // What was handed on and answered, and the packets written to the socket.
    var events: seq<Event>
    var wire: seq<seq<byte>>

    // gdb_init
    constructor ()
      ensures Valid() && RxAbs() == FRESH && acks && events == [] && wire == [] && fresh(rxbuf) && fresh(txbuf)
    {
      state, rxsum, check, acks := Idle, 0, 0, true;
      rxbuf, rxptr := new byte[MAXPKT](_ => 0), 0;
      txbuf, txptr, txsum := new byte[MAXPKT](_ => 0), 0, 0;
      events, wire := [], [];
    }

    ghost predicate Valid()
      reads this
    {
      && rxbuf != txbuf && rxbuf.Length == MAXPKT && txbuf.Length == MAXPKT
      && rxptr <= MAXPKT && (state != Idle ==> rxptr < MAXPKT)
      && txptr < MAXPKT
    }

    ghost function RxAbs(): Rx
      requires Valid()
      reads this, rxbuf
    {
      Rx(state, rxsum, if state == Idle then [] else rxbuf[..rxptr], check)
    }

    // The pointer never leaves the buffer: the last byte is kept for the final NUL.
    method RecvByte(c: byte)
      requires Valid()
      modifies this`state, this`rxsum, this`check, this`rxptr, this`events, rxbuf
      ensures Valid()
      ensures var (r, es) := RxStep(old(RxAbs()), c, acks); RxAbs() == r && events == old(events) + es
    {
      match state {
        case Idle =>
          if c == INTERRUPT {
            rxbuf[0], rxbuf[1] := DOLLAR, 0;
            assert rxbuf[..1] == [DOLLAR];
            events := events + [Command(rxbuf[..1])];
          } else if c == DOLLAR {
            state, rxsum, rxptr := Payload, 0, 0;
          }
        case Payload =>
          if c == HASH {
            state := Check1;
          } else if rxptr == MAXPKT - 1 {
            rxptr, state := 0, Idle;
          } else {
            ghost var text := rxbuf[..rxptr];
            rxbuf[rxptr] := c;
            rxptr, rxsum := rxptr + 1, Add32(rxsum, c);
            assert rxbuf[..rxptr] == text + [c];
          }
        case Check1 =>
          check, state := c, Check2;
        case Check2 =>
          FinishPacket(c);
      }
    }

    // The second character of the checksum.
    method FinishPacket(c: byte)
      requires Valid() && state == Check2
      modifies this`state, this`rxptr, this`events, rxbuf
      ensures Valid() && state == Idle
      ensures events == old(events) + Verdict(old(RxAbs()), c, acks)
    {
      ghost var text := rxbuf[..rxptr];
      state := Idle;
      rxbuf[rxptr] := 0;
      rxptr := rxptr + 1;
      assert rxbuf[..rxptr - 1] == text;
      if Strtoul([check, c]) == rxsum % 0x100 {
        if acks {
          events := events + [Ack];
        }
        events := events + [Command(rxbuf[..rxptr - 1])];
      } else if acks {
        events := events + [Nak];
      }
    }

    method GdbRecv(cs: seq<byte>)
      requires Valid()
      modifies this`state, this`rxsum, this`check, this`rxptr, this`events, rxbuf
      ensures Valid()
      ensures var (r, es) := RxRun(old(RxAbs()), cs, acks); RxAbs() == r && events == old(events) + es
    {
      ghost var all, r0, before := RxRun(RxAbs(), cs, acks), RxAbs(), events;
      var i := 0;
      while i < |cs|
        invariant 0 <= i <= |cs| && Valid() && acks == old(acks)
        invariant var rest := RxRun(RxAbs(), cs[i..], acks); all.0 == rest.0 && before + all.1 == events + rest.1
      {
        assert cs[i..][1..] == cs[i + 1..];
        ghost var es, fs := RxStep(RxAbs(), cs[i], acks).1, RxRun(RxStep(RxAbs(), cs[i], acks).0, cs[i + 1..], acks).1;
        assert events + (es + fs) == events + es + fs;
        RecvByte(cs[i]);
        i := i + 1;
      }
    }

    ghost function TxAbs(): Tx
      requires Valid()
      reads this, txbuf
    {
      Tx(txbuf[..txptr], txsum)
    }

    method GdbPrologue()
      requires Valid()
      modifies this`txptr, this`txsum, txbuf
      ensures Valid() && TxAbs() == PROLOGUE
    {
      txbuf[0] := DOLLAR;
      txptr, txsum := 1, 0;
      assert txbuf[..1] == [DOLLAR];
    }

    method GdbPutc(c: byte)
      requires Valid()
      modifies this`txptr, this`txsum, txbuf
      ensures Valid() && TxAbs() == TxPut(old(TxAbs()), c)
    {
      if txptr != MAXPKT - 1 {
        ghost var text := txbuf[..txptr];
        txbuf[txptr] := c;
        txptr, txsum := txptr + 1, Add32(txsum, c);
        assert txbuf[..txptr] == text + [c];
      }
    }

    method GdbPuts(cs: seq<byte>)
      requires Valid()
      modifies this`txptr, this`txsum, txbuf
      ensures Valid() && TxAbs() == TxPutAll(old(TxAbs()), cs)
    {
      var i := 0;
      while i < |cs|
        invariant 0 <= i <= |cs| && Valid()
        invariant TxPutAll(old(TxAbs()), cs) == TxPutAll(TxAbs(), cs[i..])
      {
        assert cs[i..][1..] == cs[i + 1..];
        GdbPutc(cs[i]);
        i := i + 1;
      }
    }

    method GdbPuthex(data: seq<byte>)
      requires Valid()
      modifies this`txptr, this`txsum, txbuf
      ensures Valid() && TxAbs() == TxPutAll(old(TxAbs()), HexOf(data))
    {
      var i := 0;
      while i < |data|
        invariant 0 <= i <= |data| && Valid()
        invariant TxPutAll(old(TxAbs()), HexOf(data)) == TxPutAll(TxAbs(), HexOf(data[i..]))
      {
        var high, low := HexDigit(data[i] / 16), HexDigit(data[i] % 16);
        assert data[i..][1..] == data[i + 1..];
        assert HexOf(data[i..])[1..] == [low] + HexOf(data[i + 1..]);
        assert ([low] + HexOf(data[i + 1..]))[1..] == HexOf(data[i + 1..]);
        GdbPutc(high);
        GdbPutc(low);
        i := i + 1;
      }
    }

    method GdbEpilogue()
      requires Valid()
      modifies this`txptr, this`txsum, this`wire, txbuf
      ensures Valid() && wire == old(wire) + Epilogue(old(TxAbs()))
    {
      GdbPuts(CheckText(txsum));
      if txptr != MAXPKT - 1 {
        wire := wire + [txbuf[..txptr]];
      }
    }
  }

  // ----- frames -----

  // The sum that the checksum is taken from.
  function ByteSum(cs: seq<byte>, start: u32): u32
    decreases |cs|
  {
    if cs == [] then start else ByteSum(cs[1..], Add32(start, cs[0]))
  }

  function FrameWith(payload: seq<byte>, check: seq<byte>): seq<byte> {
    [DOLLAR] + (payload + ([HASH] + check))
  }

  function Frame(payload: seq<byte>): seq<byte> {
    FrameWith(payload, CheckText(ByteSum(payload, 0))[1..])
  }

  function Total(cs: seq<byte>): nat {
    if cs == [] then 0 else cs[0] + Total(cs[1..])
  }

  lemma {:induction false} SumIsTotal(cs: seq<byte>, start: u32)
    ensures ByteSum(cs, start) % 0x100 == (start + Total(cs)) % 0x100
    decreases |cs|
  {
    if cs != [] {
      SumIsTotal(cs[1..], Add32(start, cs[0]));
      LowByteOfSum(start, cs[0], Total(cs[1..]));
    }
  }

  lemma LowByteOfSum(a: nat, b: nat, c: nat)
    ensures (Add32(a, b) + c) % 0x100 == (a + (b + c)) % 0x100
  {
    var q := (a + b) / TWO_32;
    assert a + b == q * TWO_32 + Add32(a, b);
    MultipleDropped(0x100_0000 * q, Add32(a, b) + c);
  }

  lemma MultipleDropped(k: int, x: int)
    ensures (0x100 * k + x) % 0x100 == x % 0x100
  {
  }

  /** A frame is a dollar sign, the payload, a hash, and the low byte of the payload's sum as two lower-case digits. */
  lemma FrameIs(payload: seq<byte>)
    ensures var sum := Total(payload) % 0x100;
      Frame(payload)
        == ['$' as int] + payload + ['#' as int, LOWER[sum / 16] as int, LOWER[sum % 16] as int]
  {
    var sum := Total(payload) % 0x100;
    SumIsTotal(payload, 0);
    HexValueExactly(0, sum / 16);
    HexValueExactly(0, sum % 16);
    FrameEnds(payload);
    assert CheckText(ByteSum(payload, 0)) == [HASH, HexDigit(sum / 16), HexDigit(sum % 16)];
  }

  // What fits the receiver's buffer and cannot be taken for the end of the packet.
  ghost predicate Receivable(payload: seq<byte>) {
    |payload| <= MAXPKT - 1 && HASH !in payload
  }

  lemma RxOne(r: Rx, c: byte, rest: seq<byte>, acks: bool)
    requires RxValid(r)
    ensures var (r1, es) := RxStep(r, c, acks);
      RxRun(r, [c] + rest, acks) == (RxRun(r1, rest, acks).0, es + RxRun(r1, rest, acks).1)
  {
    assert ([c] + rest)[1..] == rest;
  }

  lemma {:induction false} PayloadRun(r: Rx, p: seq<byte>, acks: bool)
    requires RxValid(r) && r.state == Payload && HASH !in p && |r.text| + |p| <= MAXPKT - 1
    ensures RxRun(r, p, acks) == (r.(text := r.text + p, sum := ByteSum(p, r.sum)), [])
    decreases |p|
  {
    if p == [] {
      assert r.text + p == r.text;
    } else {
      assert p[0] in p && forall c :: c in p[1..] ==> c in p;
      var r1 := r.(text := r.text + [p[0]], sum := Add32(r.sum, p[0]));
      assert RxStep(r, p[0], acks) == (r1, []);
      PayloadRun(r1, p[1..], acks);
      RxOne(r, p[0], p[1..], acks);
      assert p == [p[0]] + p[1..];
      assert r.text + [p[0]] + p[1..] == r.text + p;
    }
  }

  /** A packet with any two characters as its checksum. */
  lemma ReceiveWith(r: Rx, p: seq<byte>, c0: byte, c1: byte, acks: bool)
    requires RxValid(r) && r.state == Idle && Receivable(p)
    ensures var (r', es) := RxRun(r, FrameWith(p, [c0, c1]), acks);
      && r'.state == Idle
      && es == Verdict(Rx(Check2, ByteSum(p, 0), p, c0), c1, acks)
  {
    var r1 := r.(state := Payload, sum := 0);
    var r2 := r1.(text := p, sum := ByteSum(p, 0));
    var r3 := r2.(state := Check1);
    var r4 := r3.(state := Check2, check := c0);
    RxOne(r, DOLLAR, p + ([HASH] + [c0, c1]), acks);
    PayloadRun(r1, p, acks);
    assert r1.text + p == p;
    RxRunAppend(r1, p, [HASH] + [c0, c1], acks);
    RxOne(r2, HASH, [c0, c1], acks);
    assert [c0, c1] == [c0] + [c1] && [c1] == [c1] + [];
    RxOne(r3, c0, [c1], acks);
    RxOne(r4, c1, [], acks);
    var es := Verdict(Rx(Check2, ByteSum(p, 0), p, c0), c1, acks);
    assert [] + ([] + ([] + ([] + (es + [])))) == es;
  }

  function Delivery(payload: seq<byte>, acks: bool): seq<Event> {
    (if acks then [Ack] else []) + [Command(payload)]
  }

  lemma ReceiveFrame(r: Rx, p: seq<byte>, acks: bool)
    requires RxValid(r) && r.state == Idle && Receivable(p)
    ensures var (r', es) := RxRun(r, Frame(p), acks); r'.state == Idle && es == Delivery(p, acks)
  {
    var sum := ByteSum(p, 0) % 0x100;
    var high, low := HexDigit(sum / 16), HexDigit(sum % 16);
    assert CheckText(ByteSum(p, 0))[1..] == [high, low];
    ReceiveWith(r, p, high, low, acks);
    HexDigitValue(sum / 16);
    HexDigitValue(sum % 16);
    StrtoulOfPair(high, low);
  }

  function Concat(chunks: seq<seq<byte>>): seq<byte> {
    if chunks == [] then [] else chunks[0] + Concat(chunks[1..])
  }

  // One gdb_recv after another.
  function RxRunChunks(r: Rx, chunks: seq<seq<byte>>, acks: bool): (Rx, seq<Event>)
    requires RxValid(r)
    decreases |chunks|
  {
    if chunks == [] then (r, [])
    else
      var (r1, es) := RxRun(r, chunks[0], acks);
      var (r2, fs) := RxRunChunks(r1, chunks[1..], acks);
      (r2, es + fs)
  }

  lemma {:induction false} ChunkingIrrelevant(r: Rx, chunks: seq<seq<byte>>, acks: bool)
    requires RxValid(r)
    ensures RxRunChunks(r, chunks, acks) == RxRun(r, Concat(chunks), acks)
    decreases |chunks|
  {
    if chunks != [] {
      RxRunAppend(r, chunks[0], Concat(chunks[1..]), acks);
      ChunkingIrrelevant(RxRun(r, chunks[0], acks).0, chunks[1..], acks);
    }
  }

  function FrameAll(ps: seq<seq<byte>>): seq<byte> {
    if ps == [] then [] else Frame(ps[0]) + FrameAll(ps[1..])
  }

  function DeliveryAll(ps: seq<seq<byte>>, acks: bool): seq<Event> {
    if ps == [] then [] else Delivery(ps[0], acks) + DeliveryAll(ps[1..], acks)
  }

  /** Framing round trip: any number of packets, however the stream is cut up, deliver their payloads once each,
      in order and intact. */
  lemma {:induction false} FramesDelivered(r: Rx, ps: seq<seq<byte>>, chunks: seq<seq<byte>>, acks: bool)
    requires RxValid(r) && r.state == Idle && Concat(chunks) == FrameAll(ps)
    requires forall i :: 0 <= i < |ps| ==> Receivable(ps[i])
    ensures RxRunChunks(r, chunks, acks).1 == DeliveryAll(ps, acks)
  {
    ChunkingIrrelevant(r, chunks, acks);
    FramesRun(r, ps, acks);
  }

  lemma {:induction false} FramesRun(r: Rx, ps: seq<seq<byte>>, acks: bool)
    requires RxValid(r) && r.state == Idle
    requires forall i :: 0 <= i < |ps| ==> Receivable(ps[i])
    ensures RxRun(r, FrameAll(ps), acks).1 == DeliveryAll(ps, acks)
    decreases |ps|
  {
    if ps != [] {
      ReceiveFrame(r, ps[0], acks);
      RxRunAppend(r, Frame(ps[0]), FrameAll(ps[1..]), acks);
      FramesRun(RxRun(r, Frame(ps[0]), acks).0, ps[1..], acks);
    }
  }

  // ----- payloads that are too long -----

  // The byte that no longer fits sends the receiver back to waiting.
  lemma BufferOverruns(r: Rx, p: seq<byte>, acks: bool)
    requires RxValid(r) && r.state == Idle && |p| == MAXPKT && HASH !in p
    ensures var (r', es) := RxRun(r, [DOLLAR] + p, acks); r'.state == Idle && es == []
  {
    var r1 := r.(state := Payload, sum := 0);
    var most, last := p[..MAXPKT - 1], p[MAXPKT - 1];
    RxOne(r, DOLLAR, p, acks);
    PayloadRun(r1, most, acks);
    assert p == most + ([last] + []);
    RxRunAppend(r1, most, [last] + [], acks);
    RxOne(RxRun(r1, most, acks).0, last, [], acks);
  }

  // What a waiting receiver makes of the rest of a packet with the checksum sum: an interrupt byte is a command, and
  // a dollar sign starts a packet, which takes the rest of the payload unless that is again too long.
  function Leftover(t: seq<byte>, sum: u32, acks: bool): seq<Event> {
    if t == [] then []
    else if t[0] == INTERRUPT then [Command([DOLLAR])] + Leftover(t[1..], sum, acks)
    else if t[0] != DOLLAR then Leftover(t[1..], sum, acks)
    else if |t| > MAXPKT then Leftover(t[1 + MAXPKT..], sum, acks)
    else if ByteSum(t[1..], 0) % 0x100 == sum % 0x100 then Delivery(t[1..], acks)
    else if acks then [Nak] else []
  }

  lemma CheckIsHex(sum: u32)
    ensures var high, low := HexDigit(sum % 0x100 / 16), HexDigit(sum % 0x100 % 16);
      && CheckText(sum) == [HASH] + [high, low]
      && Strtoul([high, low]) == sum % 0x100
      && high != DOLLAR && high != INTERRUPT && low != DOLLAR && low != INTERRUPT
  {
    HexDigitValue(sum % 0x100 / 16);
    HexDigitValue(sum % 0x100 % 16);
    StrtoulOfPair(HexDigit(sum % 0x100 / 16), HexDigit(sum % 0x100 % 16));
  }

  // Bytes that a waiting receiver skips.
  lemma CheckSkipped(r: Rx, sum: u32, acks: bool)
    requires RxValid(r) && r.state == Idle
    ensures RxRun(r, CheckText(sum), acks) == (r, [])
  {
    CheckIsHex(sum);
    var high, low := HexDigit(sum % 0x100 / 16), HexDigit(sum % 0x100 % 16);
    assert CheckText(sum) == [HASH] + ([high] + ([low] + []));
    RxOne(r, low, [], acks);
    RxOne(r, high, [low] + [], acks);
    RxOne(r, HASH, [high] + ([low] + []), acks);
  }

  lemma RestIsPacket(r: Rx, p: seq<byte>, sum: u32, acks: bool)
    requires RxValid(r) && r.state == Idle && Receivable(p)
    ensures var (r', es) := RxRun(r, [DOLLAR] + p + CheckText(sum), acks);
      && r'.state == Idle
      && es == if ByteSum(p, 0) % 0x100 == sum % 0x100 then Delivery(p, acks) else if acks then [Nak] else []
  {
    CheckIsHex(sum);
    var high, low := HexDigit(sum % 0x100 / 16), HexDigit(sum % 0x100 % 16);
    ReceiveWith(r, p, high, low, acks);
    assert [DOLLAR] + p + CheckText(sum) == FrameWith(p, [high, low]);
  }

  lemma {:induction false} LeftoverRun(r: Rx, t: seq<byte>, sum: u32, acks: bool)
    requires RxValid(r) && r.state == Idle && HASH !in t
    ensures var (r', es) := RxRun(r, t + CheckText(sum), acks); r'.state == Idle && es == Leftover(t, sum, acks)
    decreases |t|
  {
    hide ByteSum, CheckText, Verdict;
    var check := CheckText(sum);
    if t == [] {
      assert t + check == check;
      CheckSkipped(r, sum, acks);
    } else if t[0] != DOLLAR {
      assert t + check == [t[0]] + (t[1..] + check);
      RxOne(r, t[0], t[1..] + check, acks);
      LeftoverRun(r, t[1..], sum, acks);
      assert [] + RxRun(r, t[1..] + check, acks).1 == RxRun(r, t[1..] + check, acks).1;
    } else if |t| > MAXPKT {
      var lost, rest := t[1..1 + MAXPKT], t[1 + MAXPKT..];
      assert t + check == ([DOLLAR] + lost) + (rest + check);
      BufferOverruns(r, lost, acks);
      RxRunAppend(r, [DOLLAR] + lost, rest + check, acks);
      LeftoverRun(RxRun(r, [DOLLAR] + lost, acks).0, rest, sum, acks);
    } else {
      assert t + check == [DOLLAR] + t[1..] + check;
      RestIsPacket(r, t[1..], sum, acks);
    }
  }

  /** A correctly framed payload that is too long is not delivered, but what stands behind its first 8192 bytes is
      read as if nothing had come before. */
  lemma OversizeRun(r: Rx, p: seq<byte>, acks: bool)
    requires RxValid(r) && r.state == Idle && |p| >= MAXPKT && HASH !in p
    ensures var (r', es) := RxRun(r, Frame(p), acks);
      r'.state == Idle && es == Leftover(p[MAXPKT..], ByteSum(p, 0), acks)
  {
    var most, rest, check := p[..MAXPKT], p[MAXPKT..], CheckText(ByteSum(p, 0));
    FrameEnds(p);
    assert Frame(p) == ([DOLLAR] + most) + (rest + check);
    BufferOverruns(r, most, acks);
    RxRunAppend(r, [DOLLAR] + most, rest + check, acks);
    LeftoverRun(RxRun(r, [DOLLAR] + most, acks).0, rest, ByteSum(p, 0), acks);
  }

  // Neither an interrupt byte nor a dollar sign, apart from a dollar sign that starts yet another packet that is too
  // long.
  ghost predicate Quiet(t: seq<byte>) {
    || t == []
    || (t[0] != INTERRUPT && t[0] != DOLLAR && Quiet(t[1..]))
    || (t[0] == DOLLAR && |t| > MAXPKT && Quiet(t[1 + MAXPKT..]))
  }

  lemma {:induction false} QuietExactly(t: seq<byte>, sum: u32)
    ensures Leftover(t, sum, true) == [] <==> Quiet(t)
    ensures |t| <= MAXPKT ==> (Quiet(t) <==> DOLLAR !in t && INTERRUPT !in t)
    decreases |t|
  {
    if t != [] {
      assert t == [t[0]] + t[1..];
      if t[0] != DOLLAR {
        QuietExactly(t[1..], sum);
      } else if |t| > MAXPKT {
        QuietExactly(t[1 + MAXPKT..], sum);
      }
    }
  }

  /** A payload that is too long goes by without any effect, if and only if the receiver meets neither an interrupt
      byte nor a dollar sign behind the part it drops. */
  lemma OversizeDropped(r: Rx, p: seq<byte>)
    requires RxValid(r) && r.state == Idle && |p| >= MAXPKT && HASH !in p
    ensures RxRun(r, Frame(p), true).1 == [] <==> Quiet(p[MAXPKT..])
    ensures |p| <= 2 * MAXPKT ==> (Quiet(p[MAXPKT..]) <==> DOLLAR !in p[MAXPKT..] && INTERRUPT !in p[MAXPKT..])
  {
    OversizeRun(r, p, true);
    QuietExactly(p[MAXPKT..], ByteSum(p, 0));
  }

  // No interrupt byte, and no dollar sign with the right sum behind it, where the receiver is waiting.
  ghost predicate Harmless(t: seq<byte>, sum: u32) {
    || t == []
    || (t[0] != INTERRUPT && t[0] != DOLLAR && Harmless(t[1..], sum))
    || (t[0] == DOLLAR && |t| > MAXPKT && Harmless(t[1 + MAXPKT..], sum))
    || (t[0] == DOLLAR && |t| <= MAXPKT && ByteSum(t[1..], 0) % 0x100 != sum % 0x100)
  }

  ghost predicate NoCommand(es: seq<Event>) {
    forall e :: e in es ==> !e.Command?
  }

  lemma {:induction false} HarmlessExactly(t: seq<byte>, sum: u32, acks: bool)
    ensures NoCommand(Leftover(t, sum, acks)) <==> Harmless(t, sum)
    ensures forall e :: e in Leftover(t, sum, acks) && e.Command? ==> |e.text| < MAXPKT
    decreases |t|
  {
    if t != [] {
      if t[0] == INTERRUPT {
        HarmlessExactly(t[1..], sum, acks);
        assert Leftover(t, sum, acks)[0] == Command([DOLLAR]);
      } else if t[0] != DOLLAR {
        HarmlessExactly(t[1..], sum, acks);
      } else if |t| > MAXPKT {
        HarmlessExactly(t[1 + MAXPKT..], sum, acks);
      } else {
        assert Command(t[1..]) in Delivery(t[1..], acks);
      }
    }
  }

  /** It starts no command, if and only if there is no interrupt byte there and no dollar sign with the right sum
      behind it. */
  lemma OversizeHarmless(r: Rx, p: seq<byte>, acks: bool)
    requires RxValid(r) && r.state == Idle && |p| >= MAXPKT && HASH !in p
    ensures NoCommand(RxRun(r, Frame(p), acks).1) <==> Harmless(p[MAXPKT..], ByteSum(p, 0))
  {
    OversizeRun(r, p, acks);
    HarmlessExactly(p[MAXPKT..], ByteSum(p, 0), acks);
  }

  // 8192 bytes and a dollar sign that sum to zero, and one more byte.
  function TwoInOne(command: byte): seq<byte> {
    [0xDC] + Zeros(MAXPKT - 1) + [DOLLAR, command]
  }

  function Zeros(n: nat): (s: seq<byte>)
    ensures |s| == n && forall i :: 0 <= i < n ==> s[i] == 0
  {
    seq(n, i => 0)
  }

  lemma {:induction false} ByteSumAppend(a: seq<byte>, b: seq<byte>, start: u32)
    ensures ByteSum(a + b, start) == ByteSum(b, ByteSum(a, start))
    decreases |a|
  {
    if a == [] {
      assert a + b == b;
    } else {
      assert (a + b)[1..] == a[1..] + b;
      ByteSumAppend(a[1..], b, Add32(start, a[0]));
    }
  }

  lemma {:induction false} ByteSumZeros(n: nat, start: u32)
    ensures ByteSum(Zeros(n), start) == start
  {
    if n > 0 {
      assert Zeros(n)[1..] == Zeros(n - 1);
      ByteSumZeros(n - 1, start);
    }
  }

  /** Its last byte is delivered as a packet of its own, "c" for one, which lets the target go. */
  lemma TailDelivered(command: byte, acks: bool)
    requires command != HASH
    ensures HASH !in TwoInOne(command) && |TwoInOne(command)| == MAXPKT + 2
    ensures RxRun(FRESH, Frame(TwoInOne(command)), acks).1 == Delivery([command], acks)
  {
    TwoInOneSum(command);
    var p := TwoInOne(command);
    var tail := p[MAXPKT..];
    assert tail == [DOLLAR, command] && tail[1..] == [command];
    hide TwoInOne, RxRun, Frame;
    OneByteSum(command, 0);
    OversizeRun(FRESH, p, acks);
  }

  lemma OneByteSum(b: byte, start: u32)
    ensures ByteSum([b], start) == Add32(start, b)
  {
    assert [b][1..] == [];
  }

  lemma TwoInOneSum(command: byte)
    ensures ByteSum(TwoInOne(command), 0) == 0x100 + command
  {
    hide ByteSum;
    var zeros := Zeros(MAXPKT - 1);
    ByteSumAppend([0xDC] + zeros, [DOLLAR, command], 0);
    ByteSumAppend([0xDC], zeros, 0);
    ByteSumZeros(MAXPKT - 1, 0xDC);
    OneByteSum(0xDC, 0);
    ByteSumAppend([DOLLAR], [command], 0xDC);
    assert [DOLLAR, command] == [DOLLAR] + [command];
    OneByteSum(DOLLAR, 0xDC);
    OneByteSum(command, 0x100);
  }

  // The packet size announced to GDB, dollar sign and checksum included.
  const PACKET_SIZE: nat := 0x2004

  /** A framed payload is delivered if and only if the frame is shorter than the size announced: one of just that
      size, which GDB may send, is not. */
  lemma DeliveredWithinSize(p: seq<byte>, acks: bool)
    requires HASH !in p
    ensures Command(p) in RxRun(FRESH, Frame(p), acks).1 <==> |Frame(p)| < PACKET_SIZE
  {
    FrameEnds(p);
    if |p| < MAXPKT {
      ReceiveFrame(FRESH, p, acks);
    } else {
      OversizeRun(FRESH, p, acks);
      HarmlessExactly(p[MAXPKT..], ByteSum(p, 0), acks);
    }
  }

  // ----- wrong checksums -----

  ghost predicate Delivers(p: seq<byte>, c0: byte, c1: byte) {
    Command(p) in RxRun(FRESH, FrameWith(p, [c0, c1]), true).1
  }

  // The two characters are the checksum in hexadecimal.
  predicate IsCheck(p: seq<byte>, c0: byte, c1: byte) {
    IsHex(c0) && IsHex(c1) && 16 * HexValue(c0) + HexValue(c1) == ByteSum(p, 0) % 0x100
  }

  lemma DeliversExactly(p: seq<byte>, c0: byte, c1: byte)
    requires Receivable(p)
    ensures Delivers(p, c0, c1) <==> Strtoul([c0, c1]) == ByteSum(p, 0) % 0x100
  {
    ReceiveWith(FRESH, p, c0, c1, true);
  }

  // A payload with any given sum.
  function PayloadOf(sum: byte): seq<byte> {
    if sum == HASH then [HASH - 1, 1] else [sum]
  }

  lemma PayloadOfSum(sum: byte)
    ensures Receivable(PayloadOf(sum)) && ByteSum(PayloadOf(sum), 0) == sum
  {
    if sum == HASH {
      var p: seq<byte> := [HASH - 1, 1];
      assert p[1..] == [1] && p[1..][1..] == [];
      assert ByteSum(p, 0) == ByteSum([1], HASH - 1) == ByteSum([], HASH);
    } else {
      assert [sum][1..] == [];
    }
  }

  lemma OneDigit(c: byte)
    ensures Digits([c], 0) == (if IsHex(c) then HexValue(c) else 0) <= 15
    ensures Strtoul([c]) <= 15
  {
    assert [c][1..] == [];
    assert Digits([], 0) == 0 == Strtoul([]);
  }

  // What the parser makes of two characters that are not both digits.
  lemma MinusWraps(c0: byte, c1: byte)
    requires !(IsHex(c0) && IsHex(c1))
    ensures Strtoul([c0, c1]) > 0xFF <==> c0 == '-' as int && IsHex(c1) && c1 != '0' as int
  {
    assert [c0, c1][1..] == [c1] && [c1][1..] == [];
    OneDigit(c1);
    assert Digits([c0, c1], 0) == if IsHex(c0) then HexValue(c0) else 0;
  }

  /** The checksum is read leniently, so a wrong one can deliver: two characters deliver only payloads whose
      checksum they are, if and only if both are hexadecimal digits, or they are a minus sign and a digit other than
      zero, which read as more than a byte.  Any other pair, "zz" for one, passes for some payload. */
  lemma WrongChecksRejected(c0: byte, c1: byte)
    ensures (forall p | Receivable(p) :: Delivers(p, c0, c1) ==> IsCheck(p, c0, c1)) <==>
      ((IsHex(c0) && IsHex(c1)) || (c0 == '-' as int && IsHex(c1) && c1 != '0' as int))
  {
    hide Strtoul;
    if IsHex(c0) && IsHex(c1) {
      StrtoulOfPair(c0, c1);
    } else {
      MinusWraps(c0, c1);
    }
    if (IsHex(c0) && IsHex(c1)) || Strtoul([c0, c1]) > 0xFF {
      forall p | Receivable(p)
        ensures Delivers(p, c0, c1) ==> IsCheck(p, c0, c1)
      {
        DeliversExactly(p, c0, c1);
      }
    } else {
      var p := PayloadOf(Strtoul([c0, c1]));
      PayloadOfSum(Strtoul([c0, c1]));
      DeliversExactly(p, c0, c1);
      assert Delivers(p, c0, c1) && !IsCheck(p, c0, c1);
    }
  }

  // "$#zz" is delivered as an empty command.
  lemma JunkCheckDelivers()
    ensures Delivers([], 'z' as int, 'z' as int) && !IsCheck([], 'z' as int, 'z' as int)
  {
    StrtoulOfJunk('z' as int, 'z' as int);
    DeliversExactly([], 'z' as int, 'z' as int);
  }

  // ----- sending -----

  lemma {:induction false} PutAllFits(t: Tx, cs: seq<byte>)
    requires |t.text| + |cs| <= MAXPKT - 1
    ensures TxPutAll(t, cs) == Tx(t.text + cs, ByteSum(cs, t.sum))
    decreases |cs|
  {
    if cs == [] {
      assert t.text + cs == t.text;
    } else {
      PutAllFits(TxPut(t, cs[0]), cs[1..]);
      assert t.text + [cs[0]] + cs[1..] == t.text + cs;
    }
  }

  lemma {:induction false} PutAllFull(t: Tx, cs: seq<byte>)
    requires |t.text| <= MAXPKT - 1 <= |t.text| + |cs|
    ensures TxFull(TxPutAll(t, cs))
    decreases |cs|
  {
    if cs != [] {
      PutAllFull(TxPut(t, cs[0]), cs[1..]);
    }
  }

  // The last three bytes.
  lemma PutCheck(t: Tx, check: seq<byte>)
    requires |check| == 3 && |t.text| <= MAXPKT - 1
    ensures var end := TxPutAll(t, check);
      if |t.text| < MAXPKT - 4 then end.text == t.text + check && !TxFull(end) else TxFull(end)
  {
    if |t.text| < MAXPKT - 4 {
      PutAllFits(t, check);
    } else {
      PutAllFull(t, check);
    }
  }

  lemma PutPayload(p: seq<byte>)
    ensures var t := TxPutAll(PROLOGUE, p);
      if |p| <= MAXPKT - 6 then t == Tx([DOLLAR] + p, ByteSum(p, 0)) else MAXPKT - 4 <= |t.text| <= MAXPKT - 1
  {
    if |p| <= MAXPKT - 2 {
      PutAllFits(PROLOGUE, p);
    } else {
      PutAllFull(PROLOGUE, p);
    }
  }

  lemma FrameEnds(p: seq<byte>)
    ensures [DOLLAR] + p + CheckText(ByteSum(p, 0)) == Frame(p) && |CheckText(ByteSum(p, 0))| == 3
  {
    var check := CheckText(ByteSum(p, 0));
    assert check == [HASH] + check[1..];
  }

  /** The sender writes the whole packet if it has at most 8186 bytes of payload, and nothing at all otherwise:
      never a truncated packet. */
  lemma SendsWholeOrNothing(p: seq<byte>)
    ensures Epilogue(TxPutAll(PROLOGUE, p)) == if |p| <= MAXPKT - 6 then [Frame(p)] else []
  {
    var t := TxPutAll(PROLOGUE, p);
    PutPayload(p);
    FrameEnds(p);
    PutCheck(t, CheckText(t.sum));
  }

  lemma {:induction false} HexHasNoHash(data: seq<byte>)
    ensures HASH !in HexOf(data) && |HexOf(data)| == 2 * |data|
    decreases |data|
  {
    if data != [] {
      HexHasNoHash(data[1..]);
    }
  }

  /** Data sent as hexadecimal arrives as it was: framed, received and decoded. */
  lemma HexReplyRoundTrip(data: seq<byte>)
    requires 2 * |data| <= MAXPKT - 6
    ensures Epilogue(TxPutAll(PROLOGUE, HexOf(data))) == [Frame(HexOf(data))]
    ensures RxRun(FRESH, Frame(HexOf(data)), false).1 == [Command(HexOf(data))]
    ensures Decoded(HexOf(data) + [0], MAXPKT) == data
  {
    HexHasNoHash(data);
    SendsWholeOrNothing(HexOf(data));
    ReceiveFrame(FRESH, HexOf(data), false);
    HexRoundTrip(data, [0], MAXPKT);
  }
}
