/** The two SWD drivers: m3debug/swdp.c moves whole SPI frames, swdp/swdp.c moves single bits over GPIO. Both are
    followed clock by clock: on each clock the host either drives a bit or listens to one. */
module SwdDrivers {
  import opened SwdWire

  datatype Slot = Drive(bit: bool) | Listen(bit: bool)

  function Driven(bits: seq<bool>): (s: seq<Slot>)
    ensures |s| == |bits|
  {
    seq(|bits|, i requires 0 <= i < |bits| => Drive(bits[i]))
  }

  function Heard(bits: seq<bool>): (s: seq<Slot>)
    ensures |s| == |bits|
  {
    seq(|bits|, i requires 0 <= i < |bits| => Listen(bits[i]))
  }

  lemma DrivenJoin(a: seq<bool>, b: seq<bool>)
    ensures Driven(a + b) == Driven(a) + Driven(b)
  {
  }

  lemma DrivenOneMore(a: seq<bool>, b: bool)
    ensures Driven(a + [b]) == Driven(a) + [Drive(b)]
  {
  }

  lemma HeardNone(line: seq<bool>)
    requires line == []
    ensures Heard(line) == []
  {
  }

  lemma HeardOneMore(line: seq<bool>, i: nat)
    requires i < |line|
    ensures Heard(line[..i + 1]) == Heard(line[..i]) + [Listen(line[i])]
    ensures line[..i + 1] == line[..i] + [line[i]]
  {
  }

  // The sending loop before its first bit and over one bit.
  lemma SendStart(v: bv32)
    ensures ShiftDown(v, 0) == v && !XorBits(v, 0) && Driven(LsbFirst(v, 0)) == []
  {
  }

  lemma SendNext(v: bv32, i: nat)
    ensures ShiftDown(v, i + 1) == ShiftDown(v, i) >> 1
    ensures XorBits(v, i + 1) == (XorBits(v, i) != BitAt(v, i))
    ensures Driven(LsbFirst(v, i + 1)) == Driven(LsbFirst(v, i)) + [Drive(BitAt(v, i))]
  {
    hide BitAt, Driven, ShiftDown, XorBits, LsbFirst;
    ShiftDownTwice(v, i, 1);
    ShiftByOne(ShiftDown(v, i));
    OneMoreSent(v, i);
    DrivenOneMore(LsbFirst(v, i), BitAt(v, i));
  }

  lemma OneMoreSent(v: bv32, i: nat)
    ensures XorBits(v, i + 1) == (XorBits(v, i) != BitAt(v, i))
    ensures LsbFirst(v, i + 1) == LsbFirst(v, i) + [BitAt(v, i)]
  {
    hide BitAt;
  }

  // The header loop at its ends and over one bit.
  lemma HeaderEnds(hdr: bv32)
    ensures Shifted(hdr, 0) == hdr && Driven(SpiFrame(hdr, 0)) == []
  {
  }

  lemma HeaderNext(hdr: bv32, n: nat)
    requires n < 8
    ensures Shifted(hdr, n + 1) == Shifted(hdr, n) << 1
    ensures Driven(SpiFrame(hdr, 8 - n)) == [Drive(BitAt(hdr, 7 - n))] + Driven(SpiFrame(hdr, 7 - n))
  {
    hide BitAt;
    DrivenJoin([BitAt(hdr, 7 - n)], SpiFrame(hdr, 7 - n));
  }

  function Zeros(n: nat): (s: seq<bool>)
    ensures |s| == n
  {
    seq(n, i => false)
  }

  datatype Ack = AckOk | AckWait | AckOther

  // After the request the target turns the line around (one clock) and answers with three bits.
  function AckOf(line: seq<bool>): Ack
    requires |line| >= 4
  {
    if line[1] && !line[2] && !line[3] then AckOk
    else if !line[1] && line[2] && !line[3] then AckWait
    else AckOther
  }

  // The data phase of a write: turnaround, D0 to D31, parity.
  function DataPhase(v: bv32): (s: seq<bool>)
    ensures |s| == 34
  {
    [true] + LsbFirst(v, 32) + [XorBits(v, 32)]
  }

  // ----- the GPIO driver -----

  function GpioWriteSlots(hdr: bv32, v: bv32, line: seq<bool>): seq<Slot>
    requires |line| >= 4
  {
    Driven(SpiFrame(hdr, 8)) + Heard(line[..4]) + Driven(DataPhase(v)) + Driven(Zeros(8))
  }

  function GpioReadSlots(hdr: bv32, line: seq<bool>): seq<Slot>
    requires |line| >= 37
  {
    Driven(SpiFrame(hdr, 8)) + Heard(line[..37]) + Driven([true] + Zeros(8))
  }

  class GpioPort {
    var trace: seq<Slot>
    var line: seq<bool>  // what the target puts on the line on the clocks it is listened to

    method Xmit(bit: bool)
      modifies `trace
      ensures trace == old(trace) + [Drive(bit)]
    {
      trace := trace + [Drive(bit)];
    }

    method Sample() returns (bit: bool)
      requires |line| > 0
      modifies this
      ensures bit == old(line)[0] && line == old(line)[1..] && trace == old(trace) + [Listen(bit)]
    {
      bit := line[0];
      trace := trace + [Listen(bit)];
      line := line[1..];
    }

    method Header(hdr: bv32)
      modifies `trace
      ensures trace == old(trace) + Driven(SpiFrame(hdr, 8))
    {
      hide BitAt, Shifted, Driven, SpiFrame;
      var h := hdr;
      var n := 0;
      HeaderEnds(hdr);
      while n < 8
        invariant n <= 8 && h == Shifted(hdr, n)
        invariant trace + Driven(SpiFrame(hdr, 8 - n)) == old(trace) + Driven(SpiFrame(hdr, 8))
      {
        TopBit(hdr, n);
        HeaderNext(hdr, n);
        ghost var was := trace;
        Xmit(h & 0x80 != 0);
        assert was + ([Drive(BitAt(hdr, 7 - n))] + Driven(SpiFrame(hdr, 7 - n)))
            == trace + Driven(SpiFrame(hdr, 7 - n));
        h := h << 1;
        n := n + 1;
      }
    }

    method Recv(count: nat) returns (n: bv32)
      requires count <= 32 && count <= |line|
      modifies this
      ensures Holds(n, old(line)[..count]) && line == old(line)[count..]
      ensures trace == old(trace) + Heard(old(line)[..count])
    {
      hide BitAt, Holds, OneAt, Heard;
      n := 0;
      var bit: bv32 := 1;
      var i := 0;
      ghost var answer := line;
      NothingHeld(answer[..0]);
      OneAtStart();
      HeardNone(answer[..0]);
      while i < count
        invariant i <= count && bit == OneAt(i)
        invariant line == answer[i..] && Holds(n, answer[..i])
        invariant trace == old(trace) + Heard(answer[..i])
      {
        HoldsOneMore(n, answer[..i], answer[i]);
        OneAtNext(i);
        HeardOneMore(answer, i);
        var b := Sample();
        if b {
          n := n | bit;
        }
        bit := bit << 1;
        i := i + 1;
      }
    }

    method Send(v: bv32, count: nat)
      requires count <= 32
      modifies `trace
      ensures trace == old(trace) + Driven(LsbFirst(v, count) + [XorBits(v, count)])
    {
      hide BitAt, ShiftDown, Driven, LsbFirst, XorBits;
      var p: bv32 := 0;
      var n := v;
      var i := 0;
      SendStart(v);
      while i < count
        invariant i <= count && n == ShiftDown(v, i) && p == (if XorBits(v, i) then 1 else 0)
        invariant trace == old(trace) + Driven(LsbFirst(v, i))
      {
        LowestLeft(v, i);
        SendNext(v, i);
        p := p ^ (n & 1);
        Xmit(n & 1 != 0);
        n := n >> 1;
        i := i + 1;
      }
      Xmit(p != 0);
      DrivenOneMore(LsbFirst(v, count), XorBits(v, count));
    }

    method SwdpWrite(hdr: bv32, v: bv32) returns (err: int)
      requires |line| >= 4
      modifies this
      ensures err == (if AckOf(old(line)) == AckOk then 0 else -1)
      ensures trace == old(trace) + GpioWriteSlots(hdr, v, old(line)) && line == old(line)[4..]
    {
      hide BitAt, SpiFrame, LsbFirst;
      Header(hdr);
      var x := Sample();
      var n := Recv(3);
      AckBits(n, old(line)[1..4]);
      Xmit(true);
      Send(v, 32);
      ClockLow(8);
      err := if n == 1 then 0 else -1;
      WriteSlotsJoin(hdr, v, old(line), old(trace), trace);
    }

    method SwdpRead(hdr: bv32) returns (err: int, v: bv32)
      requires |line| >= 37
      modifies this
      ensures err == (if AckOf(old(line)) == AckOk then 0 else -1)
      ensures v == LsbWord(old(line)[4..36])
      ensures trace == old(trace) + GpioReadSlots(hdr, old(line)) && line == old(line)[37..]
    {
      hide BitAt, SpiFrame, LsbFirst, LsbWord;
      Header(hdr);
      var x := Sample();
      var n := Recv(3);
      AckBits(n, old(line)[1..4]);
      v := Recv(32);
      HeldWord(v, old(line)[1..][3..][..32]);
      assert old(line)[1..][3..][..32] == old(line)[4..36];
      LsbWordExactly(v, old(line)[4..36]);
      var o := Recv(1);
      Xmit(true);
      ClockLow(8);
      err := if n == 1 then 0 else -1;
      ReadSlotsJoin(hdr, old(line), old(trace), trace);
    }

    method ClockLow(n: nat)
      modifies `trace
      ensures trace == old(trace) + Driven(Zeros(n))
    {
      var i := 0;
      while i < n
        invariant i <= n && trace == old(trace) + Driven(Zeros(i))
      {
        Xmit(false);
        i := i + 1;
      }
    }
  }

  lemma DataPhaseSlots(v: bv32)
    ensures Driven(DataPhase(v)) == [Drive(true)] + Driven(LsbFirst(v, 32) + [XorBits(v, 32)])
  {
    hide LsbFirst, XorBits;
    assert DataPhase(v) == [true] + (LsbFirst(v, 32) + [XorBits(v, 32)]);
    DrivenJoin([true], LsbFirst(v, 32) + [XorBits(v, 32)]);
    assert Driven([true]) == [Drive(true)];
  }

  lemma AnswerSlots(line: seq<bool>)
    requires |line| >= 4
    ensures Heard(line[..4]) == [Listen(line[0])] + Heard(line[1..][..3])
  {
  }

  lemma WriteSlotsJoin(hdr: bv32, v: bv32, line: seq<bool>, was: seq<Slot>, now: seq<Slot>)
    requires |line| >= 4
    requires now == was + Driven(SpiFrame(hdr, 8)) + [Listen(line[0])] + Heard(line[1..][..3]) + [Drive(true)]
                  + Driven(LsbFirst(v, 32) + [XorBits(v, 32)]) + Driven(Zeros(8))
    ensures now == was + GpioWriteSlots(hdr, v, line)
  {
    hide Driven, Heard, LsbFirst, XorBits, SpiFrame, DataPhase;
    DataPhaseSlots(v);
    AnswerSlots(line);
    assert now == was + Driven(SpiFrame(hdr, 8)) + ([Listen(line[0])] + Heard(line[1..][..3]))
                  + ([Drive(true)] + Driven(LsbFirst(v, 32) + [XorBits(v, 32)])) + Driven(Zeros(8));
  }

  lemma ReadSlotsJoin(hdr: bv32, line: seq<bool>, was: seq<Slot>, now: seq<Slot>)
    requires |line| >= 37
    requires now == was + Driven(SpiFrame(hdr, 8)) + [Listen(line[0])] + Heard(line[1..][..3])
                  + Heard(line[1..][3..][..32]) + Heard(line[1..][3..][32..][..1]) + [Drive(true)] + Driven(Zeros(8))
    ensures now == was + GpioReadSlots(hdr, line)
  {
    hide SpiFrame;
    assert Heard(line[..37]) == [Listen(line[0])] + Heard(line[1..][..3])
                                + Heard(line[1..][3..][..32]) + Heard(line[1..][3..][32..][..1]);
    DrivenJoin([true], Zeros(8));
    assert Driven([true]) == [Drive(true)];
  }

  // ----- the SPI driver -----

  // Driver and target have come to the end of the WAIT answers with enough bits left for the rest.
  predicate Answered(line: seq<bool>, data: nat)
    decreases |line|
  {
    && |line| >= 4
    && match AckOf(line)
       case AckWait => Answered(line[4..], data)
       case AckOk => |line| >= 4 + data
       case AckOther => true
  }

  // The line from the answer that ends the retries.
  function LastAnswer(line: seq<bool>, data: nat): (l: seq<bool>)
    requires Answered(line, data)
    ensures |l| >= 4 && AckOf(l) != AckWait && (AckOf(l) == AckOk ==> |l| >= 4 + data)
    decreases |line|
  {
    if AckOf(line) == AckWait then LastAnswer(line[4..], data) else line
  }

  function Request(n: bv32, line: seq<bool>): seq<Slot>
    requires |line| >= 4
  {
    Driven(Zeros(8)) + Driven(SpiFrame(n, 8)) + Heard(line[..4])
  }

  // The rounds that were told to wait.
  function Retries(n: bv32, line: seq<bool>, data: nat): seq<Slot>
    requires Answered(line, data)
    decreases |line|
  {
    if AckOf(line) == AckWait then Request(n, line) + Retries(n, line[4..], data) else []
  }

  function SpiWriteSlots(n: bv32, v: bv32, line: seq<bool>): seq<Slot>
    requires |line| >= 4
  {
    Request(n, line) + if AckOf(line) == AckOk then Driven(DataPhase(v)) else []
  }

  function SpiReadSlots(n: bv32, line: seq<bool>): seq<Slot>
    requires |line| >= 4 && (AckOf(line) == AckOk ==> |line| >= 38)
  {
    Request(n, line) + if AckOf(line) == AckOk then Heard(line[4..38]) else []
  }

  class SpiPort {
    var trace: seq<Slot>
    var line: seq<bool>
    var bits: nat  // the frame size

    constructor (answers: seq<bool>)
      ensures trace == [] && line == answers && bits == 16
    {
      trace, line, bits := [], answers, 16;
    }

    method Xmit(v: bv32)
      requires bits <= 16
      modifies `trace
      ensures trace == old(trace) + Driven(SpiFrame(v, bits))
    {
      trace := trace + Driven(SpiFrame(v, bits));
    }

    method Recv() returns (v: bv32)
      requires bits <= 16 && bits <= |line|
      modifies `trace, `line
      ensures v == MsbWord(old(line)[..bits]) && line == old(line)[bits..]
      ensures trace == old(trace) + Heard(old(line)[..bits])
    {
      v := MsbWord(line[..bits]);
      trace := trace + Heard(line[..bits]);
      line := line[bits..];
    }

    // One request and the answer to it.
    method Ask(n: bv32) returns (a: bv32)
      requires bits == 16 && n < 0x100 && |line| >= 4
      modifies this
      ensures bits == 4 && line == old(line)[4..] && trace == old(trace) + Request(n, old(line))
      ensures (a & 7 == 4) == (AckOf(old(line)) == AckOk) && (a & 7 == 2) == (AckOf(old(line)) == AckWait)
    {
      hide BitAt, SpiFrame, MsbWord;
      HeaderFrame(n);
      DrivenJoin(Zeros(8), SpiFrame(n, 8));
      AckFrame(line[..4]);
      Xmit(n);
      bits := 4;
      a := Recv();
    }

    // X D0..D31 P
    method SendData(v: bv32)
      modifies `trace, `bits
      ensures trace == old(trace) + Driven(DataPhase(v))
    {
      hide *;
      var p := Parity(v);
      var r := RevBits(v);
      DataFrameSlots(v, r, p);
      XmitThree(0x100 | (r >> 24), r >> 8, (r << 1) | p);
    }

    // Frames of 9, 16 and 9 bits.
    method XmitThree(top: bv32, middle: bv32, bottom: bv32)
      modifies `trace, `bits
      ensures trace == old(trace) + ThreeFrames(top, middle, bottom)
    {
      hide Driven, SpiFrame;
      bits := 9;
      Xmit(top);
      bits := 16;
      Xmit(middle);
      bits := 9;
      Xmit(bottom);
    }

    // D0..D31 P X
    method ReceiveData() returns (v: bv32)
      requires |line| >= 34
      modifies this
      ensures LsbFirst(v, 32) == old(line)[..32] && line == old(line)[34..]
      ensures trace == old(trace) + Heard(old(line)[..34])
    {
      hide BitAt, RevBits, LsbFirst, MsbWord;
      bits := 16;
      var a := Recv();
      bits := 8;
      var b := Recv();
      bits := 10;
      var c := Recv();
      v := RevBits((a << 16) | (b << 8) | (c >> 2));
      FramesInOrder(old(line));
    }

    method SwdpWrite(n: bv32, v: bv32) returns (err: int)
      requires bits == 16 && n < 0x100 && Answered(line, 0)
      modifies this
      ensures bits == 16
      ensures var last := LastAnswer(old(line), 0);
        && err == (if AckOf(last) == AckOk then 0 else -1)
        && trace == old(trace) + Retries(n, old(line), 0) + SpiWriteSlots(n, v, last)
        && line == last[4..]
    {
      hide DataPhase, Driven, Heard, Request;
      while true
        invariant bits == 16 && Answered(line, 0) && LastAnswer(line, 0) == LastAnswer(old(line), 0)
        invariant trace + Retries(n, line, 0) == old(trace) + Retries(n, old(line), 0)
        decreases |line|
      {
        ghost var was, answer := trace, line;
        var a := Ask(n);
        if a & 7 != 4 {
          bits := 16;
          if a & 7 == 2 {
            assert was + (Request(n, answer) + Retries(n, line, 0)) == trace + Retries(n, line, 0);
            continue;
          }
          return -1;
        }
        SendData(v);
        bits := 16;
        return 0;
      }
    }

    method SwdpRead(n: bv32) returns (err: int, v: bv32)
      requires bits == 16 && n < 0x100 && Answered(line, 34)
      modifies this
      ensures bits == 16
      ensures var last := LastAnswer(old(line), 34);
        && err == (if AckOf(last) == AckOk then 0 else -1)
        && (AckOf(last) == AckOk ==> v == LsbWord(last[4..36]))
        && (AckOf(last) != AckOk ==> v == 0xffff_ffff)
        && trace == old(trace) + Retries(n, old(line), 34) + SpiReadSlots(n, last)
        && line == last[(if AckOf(last) == AckOk then 38 else 4)..]
    {
      hide LsbFirst, LsbWord, Driven, Heard, Request;
      while true
        invariant bits == 16 && Answered(line, 34) && LastAnswer(line, 34) == LastAnswer(old(line), 34)
        invariant trace + Retries(n, line, 34) == old(trace) + Retries(n, old(line), 34)
        decreases |line|
      {
        ghost var was, answer := trace, line;
        var a := Ask(n);
        if a & 7 != 4 {
          bits := 16;
          if a & 7 == 2 {
            assert was + (Request(n, answer) + Retries(n, line, 34)) == trace + Retries(n, line, 34);
            continue;
          }
          return -1, 0xffff_ffff;
        }
        ghost var data := line;
        v := ReceiveData();
        assert data[..32] == answer[4..36] && data[..34] == answer[4..38] && data[34..] == answer[38..];
        LsbWordExactly(v, answer[4..36]);
        bits := 16;
        return 0, v;
      }
    }
  }

  function ThreeFrames(top: bv32, middle: bv32, bottom: bv32): seq<Slot> {
    Driven(SpiFrame(top, 9)) + Driven(SpiFrame(middle, 16)) + Driven(SpiFrame(bottom, 9))
  }

  lemma ThreeFramesJoin(top: bv32, middle: bv32, bottom: bv32)
    ensures ThreeFrames(top, middle, bottom)
         == Driven(SpiFrame(top, 9) + SpiFrame(middle, 16) + SpiFrame(bottom, 9))
  {
    hide SpiFrame, Driven;
    DrivenThree(SpiFrame(top, 9), SpiFrame(middle, 16), SpiFrame(bottom, 9));
  }

  lemma DataFrameSlots(v: bv32, r: bv32, p: bv32)
    requires r == RevBits(v) && p == Parity(v)
    ensures ThreeFrames(0x100 | (r >> 24), r >> 8, (r << 1) | p) == Driven(DataPhase(v))
  {
    hide *;
    ThreeFramesJoin(0x100 | (r >> 24), r >> 8, (r << 1) | p);
    DataFrames(v, r, p);
    DataPhaseIs(v);
  }

  lemma DataPhaseIs(v: bv32)
    ensures DataPhase(v) == [true] + LsbFirst(v, 32) + [XorBits(v, 32)]
  {
  }

  lemma FramesInOrder(line: seq<bool>)
    requires |line| >= 34
    ensures var x, y, z := line[..16], line[16..][..8], line[16..][8..][..10];
      && LsbFirst(Joined(MsbWord(x), MsbWord(y), MsbWord(z)), 32) == line[..32]
      && Heard(x) + Heard(y) + Heard(z) == Heard(line[..34])
      && line[16..][8..][10..] == line[34..]
  {
    hide LsbFirst, MsbWord, Joined;
    var x, y, z := line[..16], line[16..][..8], line[16..][8..][..10];
    JoinedData(x, y, z);
    assert x + y + z == line[..34];
    assert line[..34][..32] == line[..32];
  }

  lemma DrivenThree(a: seq<bool>, b: seq<bool>, c: seq<bool>)
    ensures Driven(a + b + c) == Driven(a) + Driven(b) + Driven(c)
  {
    DrivenJoin(a + b, c);
    DrivenJoin(a, b);
  }

  // ----- the two agree -----

  lemma {:induction false} RetriesLength(n: bv32, line: seq<bool>, data: nat)
    requires Answered(line, data)
    ensures |Retries(n, line, data)| % 20 == 0
    ensures AckOf(line) == AckWait ==> |Retries(n, line, data)| > 0
    decreases |line|
  {
    hide Driven, Heard;
    if AckOf(line) == AckWait {
      RetriesLength(n, line[4..], data);
    }
  }

  // The line through answers of WAIT (ADIv5, section B4.2: 010, the first bit first), each behind a turnaround bit.
  function Waits(turns: seq<bool>): seq<bool> {
    if turns == [] then [] else [turns[0], false, true, false] + Waits(turns[1..])
  }

  lemma AnswerBits(line: seq<bool>)
    requires |line| >= 4
    ensures AckOf(line) == AckOk <==> line[1..4] == [true, false, false]
    ensures AckOf(line) == AckWait <==> line[1..4] == [false, true, false]
  {
    assert line[1..4] == [line[1], line[2], line[3]];
  }

  /** An access over SPI is asked for again after every WAIT, with the same request, until there is another answer; that
      answer counts. */
  lemma {:induction false} WaitsAreRetried(n: bv32, turns: seq<bool>, rest: seq<bool>, data: nat)
    requires |rest| >= 4 && rest[1..4] != [false, true, false]
    requires rest[1..4] == [true, false, false] ==> |rest| >= 4 + data
    ensures var line := Waits(turns) + rest;
      && Answered(line, data) && LastAnswer(line, data) == rest
      && |Retries(n, line, data)| == 20 * |turns|
      && (forall i :: 0 <= i < |turns| ==>
            Retries(n, line, data)[20 * i..20 * i + 16] == Driven(Zeros(8)) + Driven(SpiFrame(n, 8)))
    decreases |turns|
  {
    hide Driven, Heard, SpiFrame;
    var line := Waits(turns) + rest;
    AnswerBits(line);
    if turns == [] {
      assert line == rest;
    } else {
      var more := Waits(turns[1..]) + rest;
      assert line[..4] == [turns[0], false, true, false] && line[4..] == more;
      assert line[1..4] == line[..4][1..];
      WaitsAreRetried(n, turns[1..], rest, data);
      var all, later := Retries(n, line, data), Retries(n, more, data);
      assert all == Request(n, line) + later;
      forall i | 0 <= i < |turns|
        ensures all[20 * i..20 * i + 16] == Driven(Zeros(8)) + Driven(SpiFrame(n, 8))
      {
        if i > 0 {
          assert all[20 * i..20 * i + 16] == later[20 * (i - 1)..20 * (i - 1) + 16];
        }
      }
    }
  }

  // All the clocks of a write over SPI.
  function SpiWriteAll(n: bv32, v: bv32, line: seq<bool>): seq<Slot>
    requires Answered(line, 0)
  {
    Retries(n, line, 0) + SpiWriteSlots(n, v, LastAnswer(line, 0))
  }

  /** The two drivers take a write through the same clocks, bit for bit, just when the target acknowledges it at
      once; the eight idle zeros that one puts in front the other puts behind. The bit-banging driver neither
      retries nor stops at another answer. */
  lemma WritesAgreeExactly(n: bv32, v: bv32, line: seq<bool>)
    requires Answered(line, 0)
    ensures (SpiWriteAll(n, v, line) + Driven(Zeros(8)) == Driven(Zeros(8)) + GpioWriteSlots(n, v, line))
        <==> AckOf(line) == AckOk
  {
    if AckOf(line) == AckOk {
      WriteAgrees(n, v, line);
    } else {
      hide Driven, Heard, DataPhase;
      RetriesLength(n, line, 0);
      assert |Driven(Zeros(8)) + GpioWriteSlots(n, v, line)| == 62;
    }
  }

  lemma WriteAgrees(n: bv32, v: bv32, line: seq<bool>)
    requires |line| >= 4 && AckOf(line) == AckOk
    ensures SpiWriteSlots(n, v, line) + Driven(Zeros(8)) == Driven(Zeros(8)) + GpioWriteSlots(n, v, line)
  {
    hide Driven, Heard, DataPhase, AckOf, SpiFrame;
  }

  // All the clocks of a read over SPI.
  function SpiReadAll(n: bv32, line: seq<bool>): seq<Slot>
    requires Answered(line, 34)
  {
    Retries(n, line, 34) + SpiReadSlots(n, LastAnswer(line, 34))
  }

  // Every round starts with a driven zero.
  lemma {:induction false} RoundsStart(n: bv32, line: seq<bool>)
    requires Answered(line, 34)
    ensures |SpiReadAll(n, line)| >= 20 && SpiReadAll(n, line)[0] == Drive(false)
    ensures AckOf(line) == AckWait ==> SpiReadAll(n, line) == Request(n, line) + SpiReadAll(n, line[4..])
    decreases |line|
  {
    hide Heard;
    if AckOf(line) == AckWait {
      RoundsStart(n, line[4..]);
    }
  }

  // The clocks of a bit-banged read up to its last turnaround, behind the idle zeros of the other driver.
  function GpioReadFront(n: bv32, line: seq<bool>): (s: seq<Slot>)
    requires |line| >= 37
    ensures |s| == 53
  {
    (Driven(Zeros(8)) + GpioReadSlots(n, line))[..53]
  }

  /** Both drivers take a read through the same clocks up to the last turnaround, just when the target acknowledges it
      at once. */
  lemma ReadsAgreeExactly(n: bv32, line: seq<bool>)
    requires Answered(line, 34) && |line| >= 37
    ensures GpioReadFront(n, line) <= SpiReadAll(n, line) <==> AckOf(line) == AckOk
  {
    match AckOf(line)
    case AckOk =>
      ReadsAgree(n, line);
      assert SpiReadAll(n, line) == SpiReadSlots(n, line);
    case AckWait =>
      RoundsStart(n, line);
      RoundsStart(n, line[4..]);
      FrontListens(n, line);
      assert SpiReadAll(n, line)[20] == SpiReadAll(n, line[4..])[0];
    case AckOther =>
      assert |SpiReadAll(n, line)| == 20;
  }

  lemma FrontListens(n: bv32, line: seq<bool>)
    requires |line| >= 37
    ensures GpioReadFront(n, line)[20] == Listen(line[4])
  {
    assert GpioReadSlots(n, line)[12] == Heard(line[..37])[4];
  }

  // The clock after that is the bit-banging driver's turnaround bit, where the other still listens.
  lemma ReadsAgree(n: bv32, line: seq<bool>)
    requires |line| >= 38 && AckOf(line) == AckOk
    ensures Answered(line, 34) && LastAnswer(line, 34) == line && Retries(n, line, 34) == []
    ensures SpiReadSlots(n, line)[..53] == GpioReadFront(n, line)
    ensures SpiReadSlots(n, line)[53..] == [Listen(line[37])] && GpioReadSlots(n, line)[45..46] == [Drive(true)]
  {
    hide Driven, Heard, SpiFrame;
    HeardAll(line);
    var front, end := Driven(Zeros(8)) + Driven(SpiFrame(n, 8)) + Heard(line[..37]), Driven([true] + Zeros(8));
    var start := Driven(Zeros(8)) + Driven(SpiFrame(n, 8));
    assert SpiReadSlots(n, line) == start + (Heard(line[..4]) + Heard(line[4..38]));
    assert SpiReadSlots(n, line) == front + [Listen(line[37])];
    assert Driven(Zeros(8)) + GpioReadSlots(n, line) == front + end;
    TurnaroundDriven();
    assert GpioReadSlots(n, line)[45] == end[0];
  }

  lemma HeardAll(line: seq<bool>)
    requires |line| >= 38
    ensures Heard(line[..4]) + Heard(line[4..38]) == Heard(line[..37]) + [Listen(line[37])]
  {
  }

  lemma TurnaroundDriven()
    ensures Driven([true] + Zeros(8))[0] == Drive(true)
  {
  }

  // ----- the request -----

  // The request byte of each register operation: bit 0 of op set for a write, bit 1 for an AP register, and the
  // register address in bits 2 and 3.
  function OpTable(op: nat): bv32
    requires op < 16
  {
    match op
    case 0 => 0xA5
    case 1 => 0x81
    case 2 => 0xE1
    case 3 => 0xC5
    case 4 => 0xB1
    case 5 => 0x95
    case 6 => 0xF5
    case 7 => 0xD1
    case 8 => 0xA9
    case 9 => 0x8D
    case 10 => 0xED
    case 11 => 0xC9
    case 12 => 0xBD
    case 13 => 0x99
    case 14 => 0xF9
    case _ => 0xDD
  }

  // The packet request of ADIv5, section B4.2: start, APnDP, RnW, A[2:3], parity, stop, park.
  function PacketRequest(op: nat): seq<bool> {
    var ap, rd, a2, a3 := op / 2 % 2 == 1, op % 2 == 0, op / 4 % 2 == 1, op / 8 % 2 == 1;
    [true, ap, rd, a2, a3, (ap != rd) != (a2 != a3), false, true]
  }

  lemma FrameBit(h: bv32, k: nat)
    requires k < 8
    ensures Idx(7 - k) < 32 && SpiFrame(h, 8)[k] == Bit(h, Idx(7 - k))
  {
    hide BitAt, Bit;
    SpiFrameAt(h, 8, k);
    BitAtIs(h, 7 - k);
  }

  lemma ByteFrame(h: bv32)
    ensures SpiFrame(h, 8)
         == [Bit(h, 7), Bit(h, 6), Bit(h, 5), Bit(h, 4), Bit(h, 3), Bit(h, 2), Bit(h, 1), Bit(h, 0)]
  {
    hide BitAt, Bit, SpiFrame;
    IdxValues();
    FrameBit(h, 0);
    FrameBit(h, 1);
    FrameBit(h, 2);
    FrameBit(h, 3);
    FrameBit(h, 4);
    FrameBit(h, 5);
    FrameBit(h, 6);
    FrameBit(h, 7);
  }

  /** Every request byte in the table is the packet request of its operation, parity included. */
  lemma OpTableRequests(op: nat)
    requires op < 16
    ensures SpiFrame(OpTable(op), 8) == PacketRequest(op)
  {
    hide BitAt, SpiFrame;
    ByteFrame(OpTable(op));
  }
}
