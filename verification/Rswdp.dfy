/** The message words of the remote serial wire debug protocol (include/protocol/rswdp.h). */
module Rswdp {
  import opened Words

  const CMD_NULL: byte := 0x00
  const CMD_SWD_WRITE: byte := 0x01
  const CMD_SWD_READ: byte := 0x02
  const CMD_SWD_DISCARD: byte := 0x03
  const CMD_ATTACH: byte := 0x04
  const CMD_RESET: byte := 0x05
  const CMD_DOWNLOAD: byte := 0x06
  const CMD_EXECUTE: byte := 0x07
  const CMD_TRACE: byte := 0x08
  const CMD_BOOTLOADER: byte := 0x09
  const CMD_SET_CLOCK: byte := 0x0A
  const CMD_STATUS: byte := 0x10
  const CMD_SWD_DATA: byte := 0x11

  // Register selectors: bit 0 write, bit 1 access port, bits 2-3 address.
  const OP_RD: nat := 0
  const OP_WR: nat := 1
  const OP_AP: nat := 2
  const DP_ABORT: nat := 0x0
  const DP_DPCTRL: nat := 0x4
  const DP_SELECT: nat := 0x8
  const DP_BUFFER: nat := 0xC

  const AHB_CSW: u32 := 0x00
  const AHB_TAR: u32 := 0x04
  const AHB_DRW: u32 := 0x0C

  // AHB_CSW_MDEBUG | AHB_CSW_PRIV | AHB_CSW_DBG_EN | AHB_CSW_32BIT, without and with AHB_CSW_INC_SINGLE.
  const CSW_PLAIN: u32 := 0x2200_0042
  const CSW_INCREMENT: u32 := 0x2200_0052

  function Header(cmd: byte, op: byte, n: u16): (w: u32)
  {
    (cmd * 0x100 + op) * 0x1_0000 + n
  }

  function Cmd(w: u32): byte { w / 0x1_0000 / 0x100 }

  function Op(w: u32): byte { w / 0x1_0000 % 0x100 }

  function Arg(w: u32): u16 { w % 0x1_0000 }

  function TxnStart(seqno: nat): (w: u32)
  {
    0xAA77_0000 + seqno % 0x1_0000
  }

  const TXN_ASYNC: u32 := 0xAA00_1111

  /** None of the next 0xffff transactions has the same id, and none has that of an asynchronous packet. */
  lemma IdsDiffer(sequence: u16, k: nat)
    requires 0 < k < 0x1_0000
    ensures TxnStart((sequence + k) % 0x1_0000) != TxnStart(sequence) && TxnStart(sequence) != TXN_ASYNC
    ensures TxnStart(sequence) / 0x1_0000 == 0xAA77 && TxnStart(sequence) % 0x1_0000 == sequence
  {
  }

  lemma HeaderFields(cmd: byte, op: byte, n: u16)
    ensures Cmd(Header(cmd, op, n)) == cmd
    ensures Op(Header(cmd, op, n)) == op
    ensures Arg(Header(cmd, op, n)) == n
  {
    var high := cmd * 0x100 + op;
    assert (high * 0x1_0000 + n) / 0x1_0000 == high;
    assert (high * 0x1_0000 + n) % 0x1_0000 == n;
    assert high / 0x100 == cmd && high % 0x100 == op;
  }

  type ReadOp = o: nat | o < 16 && o % 2 == OP_RD
  type WriteOp = o: nat | o < 16 && o % 2 == OP_WR witness 1
  // The words behind one header, whose count field has sixteen bits.
  type Block = s: seq<u32> | |s| < 0x1_0000
  // Codes past the ones the probe knows.
  type UnknownCode = c: byte | c > CMD_SET_CLOCK witness 0xFF

  // Messages that neither carry a payload nor touch a debug register.
  datatype ControlKind = Attach | Reset | Trace | Bootloader | SetClock
  {
    function Code(): byte {
      match this
      case Attach => CMD_ATTACH
      case Reset => CMD_RESET
      case Trace => CMD_TRACE
      case Bootloader => CMD_BOOTLOADER
      case SetClock => CMD_SET_CLOCK
    }
  }

  /** One message of a host transaction. */
  datatype Msg =
    | Null
    | Write(wop: WriteOp, data: Block)
    | Read(rop: ReadOp, n: u16)
    | Discard(rop: ReadOp, n: u16)
    | Control(kind: ControlKind, cop: byte, arg: u16)
    | Unknown(code: UnknownCode, cop: byte, arg: u16)
  {
    // The three fields of the header word.
    function Code(): byte {
      match this
      case Null => CMD_NULL
      case Write(_, _) => CMD_SWD_WRITE
      case Read(_, _) => CMD_SWD_READ
      case Discard(_, _) => CMD_SWD_DISCARD
      case Control(kind, _, _) => kind.Code()
      case Unknown(code, _, _) => code
    }

    function Selector(): byte {
      match this
      case Null => 0
      case Write(op, _) => op
      case Read(op, _) => op
      case Discard(op, _) => op
      case Control(_, cop, _) => cop
      case Unknown(_, cop, _) => cop
    }

    function Count(): u16 {
      match this
      case Null => 0
      case Write(_, data) => |data|
      case Read(_, n) => n
      case Discard(_, n) => n
      case Control(_, _, arg) => arg
      case Unknown(_, _, arg) => arg
    }

    function Payload(): seq<u32> {
      if Write? then data else []
    }

    function Head(): u32 {
      Header(Code(), Selector(), Count())
    }

    function Encode(): seq<u32> {
      [Head()] + Payload()
    }

    // Words of the reply this message asks for, the header of its data block included.
    function ReplyRoom(): nat {
      if Read? then 1 + n else 0
    }
  }

  function EncodeAll(ms: seq<Msg>): seq<u32> {
    if ms == [] then [] else ms[0].Encode() + EncodeAll(ms[1..])
  }

  function ReplyRoom(ms: seq<Msg>): nat {
    if ms == [] then 0 else ms[0].ReplyRoom() + ReplyRoom(ms[1..])
  }

  lemma {:induction false} EncodeAllAppend(a: seq<Msg>, b: seq<Msg>)
    ensures EncodeAll(a + b) == EncodeAll(a) + EncodeAll(b)
  {
    if a == [] {
      assert a + b == b;
    } else {
      assert (a + b)[1..] == a[1..] + b;
      EncodeAllAppend(a[1..], b);
    }
  }

  // Reading the first word tells the message apart, whatever its data words are.
  lemma HeadFields(m: Msg)
    ensures Cmd(m.Head()) == m.Code() && Op(m.Head()) == m.Selector() && Arg(m.Head()) == m.Count()
  {
    HeaderFields(m.Code(), m.Selector(), m.Count());
  }

  // The words from position i on are the messages ms.
  ghost predicate Parses(rx: seq<u32>, i: nat, ms: seq<Msg>)
    decreases |ms|
  {
    if ms == [] then i == |rx|
    else
      var next := i + 1 + |ms[0].Payload()|;
      && next <= |rx|
      && rx[i] == ms[0].Head()
      && rx[i + 1..next] == ms[0].Payload()
      && Parses(rx, next, ms[1..])
  }

  // A header and its payload, between what comes before and what follows.
  lemma OneInFront(before: seq<u32>, head: u32, payload: seq<u32>, after: seq<u32>)
    ensures var all, next := before + ([head] + payload + after), |before| + 1 + |payload|;
      && all == before + ([head] + payload) + after
      && next == |before + ([head] + payload)| <= |all|
      && all[|before|] == head && all[|before| + 1..next] == payload
  {
  }

  lemma NothingParses(before: seq<u32>)
    ensures Parses(before + EncodeAll([]), |before|, [])
  {
    assert before + [] == before;
  }

  lemma FirstEncodes(ms: seq<Msg>)
    requires ms != []
    ensures EncodeAll(ms) == ms[0].Encode() + EncodeAll(ms[1..])
  {
  }

  lemma FirstParses(rx: seq<u32>, i: nat, ms: seq<Msg>)
    requires ms != []
    requires var next := i + 1 + |ms[0].Payload()|;
      && next <= |rx| && rx[i] == ms[0].Head() && rx[i + 1..next] == ms[0].Payload()
      && Parses(rx, next, ms[1..])
    ensures Parses(rx, i, ms)
  {
  }

  lemma {:induction false} EncodingParses(before: seq<u32>, ms: seq<Msg>)
    ensures Parses(before + EncodeAll(ms), |before|, ms)
    decreases |ms|
  {
    if ms == [] {
      NothingParses(before);
    } else {
      hide Parses, EncodeAll;
      var m, rest := ms[0], EncodeAll(ms[1..]);
      EncodingParses(before + m.Encode(), ms[1..]);
      OneInFront(before, m.Head(), m.Payload(), rest);
      FirstParses(before + (m.Encode() + rest), |before|, ms);
      FirstEncodes(ms);
    }
  }

  // The word stream determines the messages: no data word can be taken for a header.
  lemma {:induction false} ParseUnique(rx: seq<u32>, i: nat, a: seq<Msg>, b: seq<Msg>)
    requires Parses(rx, i, a) && Parses(rx, i, b)
    ensures a == b
    decreases |a|
  {
    if a != [] && b != [] {
      HeadFields(a[0]);
      HeadFields(b[0]);
      FieldsInjective(a[0], b[0]);
      ParseUnique(rx, i + 1 + |a[0].Payload()|, a[1..], b[1..]);
      assert a == [a[0]] + a[1..] && b == [b[0]] + b[1..];
    }
  }

  lemma FieldsInjective(m: Msg, m': Msg)
    requires m.Code() == m'.Code() && m.Selector() == m'.Selector() && m.Count() == m'.Count()
    requires m.Write? && m'.Write? ==> m.data == m'.data
    ensures m == m'
  {
  }
}
