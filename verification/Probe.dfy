/** The probe firmware's transaction interpreter (m3debug/main.c), running against any target, which may refuse
    any access. */
module Probe {
  import opened Words
  import opened Rswdp
  import opened Swd

  // The target and the number of accesses attempted so far.
  datatype Dev<T> = Dev(target: T, clock: nat)

  // How the target answers: ok(i) says whether it acknowledges access number i.
  datatype Wire<!T> = Wire(bus: Bus<T>, ok: nat -> bool)

  const STATUS_OK: byte := 0
  const STATUS_UNKNOWN: byte := 1
  const STATUS_IO: byte := 3
  const READ_FAULT: u32 := 0xFFFF_FFFF
  const READ_FILL: u32 := 0xFEFE_FEFE

  // ----- what one message does, access by access -----

  // The target after a run of accesses with one selector, the words to send back, and whether all succeeded.
  datatype Burst<T> = Burst(dev: Dev<T>, words: seq<u32>, good: bool)

  function WriteBurst<T>(w: Wire<T>, d: Dev<T>, op: nat, data: seq<u32>): Burst<T>
    decreases |data|
  {
    if data == [] then Burst(d, [], true)
    else if !w.ok(d.clock) then Burst(d.(clock := d.clock + 1), [], false)
    else WriteBurst(w, Dev(w.bus.write(d.target, op, data[0]), d.clock + 1), op, data[1..])
  }

  function ReadBurst<T>(w: Wire<T>, d: Dev<T>, op: nat, n: nat): (r: Burst<T>)
    ensures |r.words| == n
    decreases n
  {
    if n == 0 then Burst(d, [], true)
    else if !w.ok(d.clock) then Burst(d.(clock := d.clock + 1), [READ_FAULT] + Fill(n - 1), false)
    else
      var (t, x) := w.bus.read(d.target, op);
      AfterWords([x], ReadBurst(w, Dev(t, d.clock + 1), op, n - 1))
  }

  function AfterWords<T>(xs: seq<u32>, r: Burst<T>): Burst<T> {
    r.(words := xs + r.words)
  }

  function Fill(n: nat): (s: seq<u32>)
    ensures |s| == n
  {
    seq(n, _ => READ_FILL)
  }

  datatype Step<T> = Step(dev: Dev<T>, blocks: seq<Block>, status: byte)

  function RunMsg<T>(w: Wire<T>, d: Dev<T>, m: Msg): Step<T>
  {
    match m
    case Null => Step(d, [], STATUS_OK)
    case Control(_, _, _) => Step(d, [], STATUS_OK)
    case Unknown(_, _, _) => Step(d, [], STATUS_UNKNOWN)
    case Write(op, data) =>
      var b := WriteBurst(w, d, op, data);
      Step(b.dev, [], if b.good then STATUS_OK else STATUS_IO)
    case Read(op, n) =>
      var b := ReadBurst(w, d, op, n);
      Step(b.dev, [b.words], if b.good then STATUS_OK else STATUS_IO)
    case Discard(op, n) =>
      var b := ReadBurst(w, d, op, n);
      Step(b.dev, [], if b.good then STATUS_OK else STATUS_IO)
  }

  /** A whole transaction: it ends at the first message that fails, whose number is counted too. */
  datatype Outcome<T> = Outcome(dev: Dev<T>, blocks: seq<Block>, status: byte, count: nat)

  function Run<T>(w: Wire<T>, d: Dev<T>, ms: seq<Msg>): Outcome<T>
    decreases |ms|
  {
    if ms == [] then Outcome(d, [], STATUS_OK, 0)
    else
      var s := RunMsg(w, d, ms[0]);
      if s.status != STATUS_OK then Outcome(s.dev, s.blocks, s.status, 1)
      else After(s.blocks, 1, Run(w, s.dev, ms[1..]))
  }

  function After<T>(blocks: seq<Block>, count: nat, o: Outcome<T>): Outcome<T> {
    o.(blocks := blocks + o.blocks, count := count + o.count)
  }

  lemma AfterAfter<T>(a: seq<Block>, m: nat, b: seq<Block>, n: nat, o: Outcome<T>)
    ensures After(a, m, After(b, n, o)) == After(a + b, m + n, o)
  {
    assert a + (b + o.blocks) == a + b + o.blocks;
  }

  // ----- the reply -----

  function EncodeBlock(b: Block): seq<u32> {
    [Header(CMD_SWD_DATA, 0, |b|)] + b
  }

  function EncodeBlocks(bs: seq<Block>): seq<u32> {
    if bs == [] then [] else EncodeBlock(bs[0]) + EncodeBlocks(bs[1..])
  }

  function Flat(bs: seq<Block>): seq<u32> {
    if bs == [] then [] else bs[0] + Flat(bs[1..])
  }

  // The STATUS message, and a NULL word when the reply would otherwise fill its last 64-byte packet.
  function Trailer(status: byte, count: nat, words: nat): seq<u32> {
    [Header(CMD_STATUS, status, count % 0x1_0000)]
      + if (words + 1) % 16 == 0 then [Header(CMD_NULL, 0, 0)] else []
  }

  function Reply<T>(txnid: u32, o: Outcome<T>): seq<u32> {
    var body := [txnid] + EncodeBlocks(o.blocks);
    body + Trailer(o.status, o.count, |body|)
  }

  /** The reply to a transaction of c messages that read one word: the id, a data header for one word, the word, and
      the status with the count. */
  lemma ReplyOnWire<T>(txnid: u32, d: Dev<T>, x: u32, c: u16)
    ensures Reply(txnid, Outcome(d, [[x]], STATUS_OK, c)) == [txnid, 0x1100_0001, x, 0x1000_0000 + c]
  {
    var b: Block := [x];
    assert EncodeBlocks([b]) == EncodeBlock(b) + EncodeBlocks([]) == [Header(CMD_SWD_DATA, 0, 1), x];
  }

  // A reply never ends on a full packet, so the host always sees its end.
  lemma ReplyEndsShort<T>(txnid: u32, o: Outcome<T>)
    ensures |Reply(txnid, o)| % 16 != 0
  {
    var body := [txnid] + EncodeBlocks(o.blocks);
    if (|body| + 1) % 16 == 0 {
      assert |Reply(txnid, o)| == |body| + 2;
    } else {
      assert |Reply(txnid, o)| == |body| + 1;
    }
  }

  lemma {:induction false} EncodeBlocksAppend(a: seq<Block>, b: seq<Block>)
    ensures EncodeBlocks(a + b) == EncodeBlocks(a) + EncodeBlocks(b)
  {
    if a == [] {
      assert a + b == b;
    } else {
      assert (a + b)[1..] == a[1..] + b;
      EncodeBlocksAppend(a[1..], b);
    }
  }

  // ----- the interpreter itself -----

  // txbuffer holds 512 + 1 words.
  const TX_WORDS: nat := 513

  class M3Debug<T> {
    const w: Wire<T>
    var target: T
    var clock: nat
    // The words put in txbuffer so far: tx[txc++] = x appends x.
    var tx: seq<u32>

    constructor (w: Wire<T>, target: T)
      ensures this.w == w && this.target == target && clock == 0
    {
      this.w := w;
      this.target := target;
      clock, tx := 0, [];
    }

    ghost function State(): Dev<T>
      reads this
    {
      Dev(target, clock)
    }

    method Put(x: u32)
      requires |tx| < TX_WORDS
      modifies this`tx
      ensures tx == old(tx) + [x]
    {
      tx := tx + [x];
    }

    method SwdpWrite(op: nat, v: u32) returns (r: int)
      modifies this`target, this`clock
      ensures r == if w.ok(old(clock)) then 0 else -1
      ensures clock == old(clock) + 1
      ensures target == if r == 0 then w.bus.write(old(target), op, v) else old(target)
    {
      if w.ok(clock) {
        target := w.bus.write(target, op, v);
        r := 0;
      } else {
        r := -1;
      }
      clock := clock + 1;
    }

    method SwdpRead(op: nat) returns (r: int, x: u32)
      modifies this`target, this`clock
      ensures r == if w.ok(old(clock)) then 0 else -1
      ensures clock == old(clock) + 1
      ensures r == 0 ==> (target, x) == w.bus.read(old(target), op)
      ensures r != 0 ==> target == old(target) && x == READ_FAULT
    {
      if w.ok(clock) {
        var (t, v) := w.bus.read(target, op);
        target, x := t, v;
        r := 0;
      } else {
        x := READ_FAULT;
        r := -1;
      }
      clock := clock + 1;
    }

    // The payload loop of CMD_SWD_WRITE.
    method WriteWords(op: nat, data: seq<u32>) returns (good: bool)
      modifies this`target, this`clock
      ensures var b := WriteBurst(w, old(State()), op, data); State() == b.dev && good == b.good
    {
      var i := 0;
      while i < |data|
        invariant 0 <= i <= |data|
        invariant WriteBurst(w, old(State()), op, data) == WriteBurst(w, State(), op, data[i..])
      {
        assert data[i..][1..] == data[i + 1..];
        var r := SwdpWrite(op, data[i]);
        if r != 0 {
          return false;
        }
        i := i + 1;
      }
      good := true;
    }

    // The payload loop of CMD_SWD_READ; after a fault the words still owed are filled in.
    method ReadWords(op: nat, n: nat) returns (good: bool)
      requires |tx| + n <= TX_WORDS
      modifies this`target, this`clock, this`tx
      ensures var b := ReadBurst(w, old(State()), op, n);
        State() == b.dev && good == b.good && tx == old(tx) + b.words
    {
      var i := 0;
      while i < n
        invariant 0 <= i <= n && |tx| + n - i <= TX_WORDS
        invariant var all, rest := ReadBurst(w, old(State()), op, n), ReadBurst(w, State(), op, n - i);
          all.dev == rest.dev && all.good == rest.good && old(tx) + all.words == tx + rest.words
      {
        var r, x := SwdpRead(op);
        ghost var before, after := tx, ReadBurst(w, State(), op, n - i - 1).words;
        Put(x);
        i := i + 1;
        assert before + ([x] + after) == tx + after;
        if r != 0 {
          assert before + ([x] + Fill(n - i)) == tx + Fill(n - i);
          FillWords(n - i);
          return false;
        }
      }
      good := true;
    }

    method FillWords(n: nat)
      requires |tx| + n <= TX_WORDS
      modifies this`tx
      ensures tx == old(tx) + Fill(n)
    {
      for j := 0 to n
        invariant tx == old(tx) + Fill(j)
      {
        Put(READ_FILL);
      }
    }

    // The loop of CMD_SWD_DISCARD.
    method DiscardWords(op: nat, n: nat) returns (good: bool)
      modifies this`target, this`clock
      ensures var b := ReadBurst(w, old(State()), op, n); State() == b.dev && good == b.good
    {
      var i := 0;
      while i < n
        invariant 0 <= i <= n
        invariant var all, rest := ReadBurst(w, old(State()), op, n), ReadBurst(w, State(), op, n - i);
          all.dev == rest.dev && all.good == rest.good
      {
        var r, _ := SwdpRead(op);
        if r != 0 {
          return false;
        }
        i := i + 1;
      }
      good := true;
    }

    // What the transaction loop does with one message, whose payload is data.
    method ProcessMsg(msg: u32, data: seq<u32>, ghost m: Msg) returns (status: byte)
      requires msg == m.Head() && data == m.Payload()
      requires |tx| + m.ReplyRoom() <= TX_WORDS
      modifies this`target, this`clock, this`tx
      ensures var s := RunMsg(w, old(State()), m);
        State() == s.dev && status == s.status && tx == old(tx) + EncodeBlocks(s.blocks)
      ensures |tx| == |old(tx)| + m.ReplyRoom()
    {
      HeadFields(m);
      var cmd, op, n := Cmd(msg), Op(msg), Arg(msg);
      status := STATUS_OK;
      if cmd == CMD_SWD_WRITE {
        var good := WriteWords(op, data);
        status := if good then STATUS_OK else STATUS_IO;
      } else if cmd == CMD_SWD_READ {
        ghost var b: Block := ReadBurst(w, State(), op, n).words;
        Put(Header(CMD_SWD_DATA, 0, n));
        var good := ReadWords(op, n);
        assert EncodeBlocks([b]) == EncodeBlock(b) + EncodeBlocks([]);
        status := if good then STATUS_OK else STATUS_IO;
      } else if cmd == CMD_SWD_DISCARD {
        var good := DiscardWords(op, n);
        status := if good then STATUS_OK else STATUS_IO;
      } else if cmd != CMD_NULL && cmd !in {CMD_ATTACH, CMD_RESET, CMD_TRACE, CMD_BOOTLOADER, CMD_SET_CLOCK} {
        status := STATUS_UNKNOWN;
      }
    }

    // One turn of the transaction loop, on the message at rx[i].  whole is the outcome of the transaction.
    method Turn(rx: seq<u32>, i: nat, ghost left: seq<Msg>, ghost count: nat, ghost whole: Outcome<T>)
      returns (i': nat, status: byte)
      requires i < |rx| && Parses(rx, i, left)
      requires |tx| + left[0].ReplyRoom() <= TX_WORDS
      requires Sofar(rx[0], tx, count, whole, Run(w, State(), left))
      modifies this`target, this`clock, this`tx
      ensures i < i' && Parses(rx, i', left[1..])
      ensures |tx| == |old(tx)| + left[0].ReplyRoom()
      ensures Sofar(rx[0], tx, count + 1, whole, Rest(w, State(), status, left[1..]))
    {
      SofarNext(rx[0], tx, count, whole, State(), left, w);
      HeadFields(left[0]);
      i' := i + 1 + if Cmd(rx[i]) == CMD_SWD_WRITE then Arg(rx[i]) else 0;
      status := ProcessMsg(rx[i], rx[i + 1..i'], left[0]);
    }

    // The end of the transaction: STATUS, and the padding that makes the last packet a short one.
    method FinishReply(status: byte, count: nat)
      requires |tx| + 2 <= TX_WORDS
      modifies this`tx
      ensures tx == old(tx) + Trailer(status, count, |old(tx)|)
    {
      Put(Header(CMD_STATUS, status, count % 0x1_0000));
      if |tx| % 16 == 0 {
        Put(Header(CMD_NULL, 0, 0));
      }
    }

    /** The transaction loop.  rx is the transaction, its id word first; ms is what the words after that say. */
    method ProcessTxn(rx: seq<u32>, ghost ms: seq<Msg>)
      requires rx != [] && Parses(rx, 1, ms)
      requires 1 + ReplyRoom(ms) + 2 <= TX_WORDS
      modifies this`target, this`clock, this`tx
      ensures State() == Run(w, old(State()), ms).dev
      ensures |tx| <= TX_WORDS
      ensures tx == Reply(rx[0], Run(w, old(State()), ms))
    {
      hide Run, Reply, Sofar;
      ghost var whole, left := Run(w, State(), ms), ms;
      var i, count, status := 1, 0, STATUS_OK;
      tx := [rx[0]];
      SofarNone(rx[0], whole);
      while i < |rx| && status == STATUS_OK
        invariant 1 <= i && Parses(rx, i, left)
        invariant |tx| + ReplyRoom(left) + 2 <= TX_WORDS
        invariant Sofar(rx[0], tx, count, whole, Rest(w, State(), status, left))
        decreases |rx| - i
      {
        i, status := Turn(rx, i, left, count, whole);
        count := count + 1;
        left := left[1..];
      }
      RestDone(w, State(), status, left);
      SofarDone(rx[0], tx, count, whole, State(), status);
      FinishReply(status, count);
    }
  }

  // What is still to come: nothing once a message has failed.
  ghost function Rest<T>(w: Wire<T>, d: Dev<T>, status: byte, left: seq<Msg>): Outcome<T> {
    if status == STATUS_OK then Run(w, d, left) else Outcome(d, [], status, 0)
  }

  // The reply words sent and messages counted so far, followed by the outcome of the rest, make up the whole outcome.
  ghost predicate Sofar<T>(txnid: u32, sent: seq<u32>, count: nat, whole: Outcome<T>, rest: Outcome<T>) {
    exists blocks: seq<Block> :: whole == After(blocks, count, rest) && sent == [txnid] + EncodeBlocks(blocks)
  }

  lemma SofarNone<T>(txnid: u32, o: Outcome<T>)
    ensures Sofar(txnid, [txnid], 0, o, o)
  {
    assert o == After([], 0, o) && [txnid] == [txnid] + EncodeBlocks([]);
  }

  lemma SofarNext<T>(txnid: u32, sent: seq<u32>, count: nat, whole: Outcome<T>, d: Dev<T>, left: seq<Msg>, w: Wire<T>)
    requires left != [] && Sofar(txnid, sent, count, whole, Run(w, d, left))
    ensures var s := RunMsg(w, d, left[0]);
      Sofar(txnid, sent + EncodeBlocks(s.blocks), count + 1, whole, Rest(w, s.dev, s.status, left[1..]))
  {
    var s := RunMsg(w, d, left[0]);
    var rest := Rest(w, s.dev, s.status, left[1..]);
    RunNext(w, d, left);
    var blocks: seq<Block> :| whole == After(blocks, count, Run(w, d, left)) && sent == [txnid] + EncodeBlocks(blocks);
    SofarExtend(txnid, blocks, count, s.blocks, rest);
  }

  lemma RunNext<T>(w: Wire<T>, d: Dev<T>, left: seq<Msg>)
    requires left != []
    ensures var s := RunMsg(w, d, left[0]);
      Run(w, d, left) == After(s.blocks, 1, Rest(w, s.dev, s.status, left[1..]))
  {
    var s := RunMsg(w, d, left[0]);
    assert s.blocks + [] == s.blocks;
  }

  lemma SofarExtend<T>(txnid: u32, a: seq<Block>, count: nat, b: seq<Block>, rest: Outcome<T>)
    ensures (
      var sent := [txnid] + EncodeBlocks(a) + EncodeBlocks(b);
      Sofar(txnid, sent, count + 1, After(a, count, After(b, 1, rest)), rest))
  {
    AfterAfter(a, count, b, 1, rest);
    EncodeBlocksAppend(a, b);
    assert [txnid] + EncodeBlocks(a) + EncodeBlocks(b) == [txnid] + EncodeBlocks(a + b);
  }

  lemma RestDone<T>(w: Wire<T>, d: Dev<T>, status: byte, left: seq<Msg>)
    requires status != STATUS_OK || left == []
    ensures Rest(w, d, status, left) == Outcome(d, [], status, 0)
  {
  }

  lemma SofarDone<T>(txnid: u32, sent: seq<u32>, count: nat, whole: Outcome<T>, d: Dev<T>, status: byte)
    requires Sofar(txnid, sent, count, whole, Outcome(d, [], status, 0))
    ensures whole.dev == d && Reply(txnid, whole) == sent + Trailer(status, count, |sent|)
  {
    var blocks: seq<Block> :|
      whole == After(blocks, count, Outcome(d, [], status, 0)) && sent == [txnid] + EncodeBlocks(blocks);
    assert blocks + [] == blocks;
  }
}
