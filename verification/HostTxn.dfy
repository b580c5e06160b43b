/** Host side of a transaction (tools/rswdp.c): queueing messages, exchanging them with the probe, and
    scattering the reply. */
module HostTxn {
  import opened Words
  import opened Rswdp
  import opened Probe
  import opened ProbeRuns
  import opened AhbCode

  const MAXWORDS: nat := 2048
  const TXN_MAGIC: u32 := 0x1234_5678

  // ----- struct txn -----

  class Txn {
    // Words to transmit, the id word first: t->tx[t->txc++] = x appends x.
    var tx: seq<u32>
    // For each reply word, the place in the caller's buffer it goes to.
    var rx: seq<nat>
    var cache: Cache
    var magic: u32
    // What has been queued after the id word.
    ghost var msgs: seq<Msg>

    // q_init
    constructor ()
      ensures Valid() && Armed() && |tx| == 1 && rx == [] && msgs == [] && cache == EMPTY
    {
      magic := TXN_MAGIC;
      tx, rx, msgs := [0], [], [];
      cache := EMPTY;
    }

    ghost predicate Valid()
      reads this
    {
      && 1 <= |tx| <= MAXWORDS
      && tx[1..] == EncodeAll(msgs)
      && |rx| == ReadTotal(msgs)
    }

    ghost predicate Armed()
      reads this
    {
      magic == TXN_MAGIC
    }

    // The words of message m have been appended.
    ghost method Commit(m: Msg)
      requires 1 <= |tx| <= MAXWORDS && tx[1..] == EncodeAll(msgs) + m.Encode()
      requires |rx| == ReadTotal(msgs) + ReadTotal([m])
      modifies this`msgs
      ensures Valid() && msgs == old(msgs) + [m]
    {
      EncodeAllAppend(msgs, [m]);
      ReadTotalAppend(msgs, [m]);
      assert EncodeAll([m]) == m.Encode() + EncodeAll([]) == m.Encode();
      msgs := msgs + [m];
    }

    method Push(x: u32)
      requires 1 <= |tx| < MAXWORDS
      modifies this`tx
      ensures tx == old(tx) + [x] && tx[1..] == old(tx[1..]) + [x]
    {
      tx := tx + [x];
    }

    // A header and its payload.
    method PushMsg(m: Msg)
      requires Valid() && !m.Read? && |tx| + |m.Encode()| <= MAXWORDS
      modifies this`tx, this`msgs
      ensures Valid() && msgs == old(msgs) + [m] && |tx| == |old(tx)| + |m.Encode()|
    {
      ghost var queued := tx[1..];
      Push(m.Head());
      var data := m.Payload();
      for i := 0 to |data|
        invariant |tx| == |old(tx)| + 1 + i && tx[1..] == queued + [m.Head()] + data[..i] && msgs == old(msgs)
      {
        Push(data[i]);
      }
      assert data[..|data|] == data;
      assert queued + [m.Head()] + data == queued + m.Encode();
      assert ReadTotal([m]) == 0 + ReadTotal([]);
      Commit(m);
    }

    // A read message, with the places its words go to.
    method PushRead(op: ReadOp, slots: seq<nat>)
      requires Valid() && |tx| < MAXWORDS && |slots| < 0x1_0000
      modifies this`tx, this`rx, this`msgs
      ensures Valid() && msgs == old(msgs) + [Read(op, |slots|)] && |tx| == |old(tx)| + 1
      ensures rx == old(rx) + slots
    {
      Push(Header(CMD_SWD_READ, op, |slots|));
      rx := rx + slots;
      assert ReadTotal([Read(op, |slots|)]) == |slots| + ReadTotal([]);
      Commit(Read(op, |slots|));
    }

    // What each q_* routine queues is Code k.
    ghost predicate Queued(before: seq<Msg>, k: Code)
      reads this
    {
      Valid() && msgs == before + k.msgs && cache == k.cache
    }

    method QApSelect(addr: u32)
      requires Valid() && |tx| + 2 <= MAXWORDS
      modifies this`tx, this`msgs, this`cache
      ensures Queued(old(msgs), ApSelect(old(cache), addr)) && |tx| <= |old(tx)| + 2
    {
      var bank := Bank(addr);
      if cache.apaddr != bank {
        PushMsg(Write(WR_SELECT, [bank]));
        cache := cache.(apaddr := bank);
      }
    }

    // q_check makes running out of room fatal, so it is a demand on the callers.
    method QApWrite(addr: u32, value: u32)
      requires Valid() && |tx| + 4 <= MAXWORDS
      modifies this`tx, this`msgs, this`cache
      ensures Queued(old(msgs), ApWrite(old(cache), addr, value)) && |tx| <= |old(tx)| + 4
    {
      QApSelect(addr);
      PushMsg(Write(ApWriteOp(addr), [value]));
    }

    method QApRead(addr: u32, slot: nat)
      requires Valid() && |tx| + 4 <= MAXWORDS
      modifies this`tx, this`rx, this`msgs, this`cache
      ensures Queued(old(msgs), ApRead(old(cache), addr)) && |tx| <= |old(tx)| + 4
      ensures rx == old(rx) + [slot]
    {
      QApSelect(addr);
      PushMsg(Discard(ApReadOp(addr), 1));
      PushRead(RD_BUFFER, [slot]);
    }

    method QSetTar(addr: u32)
      requires Valid() && |tx| + 4 <= MAXWORDS
      modifies this`tx, this`msgs, this`cache
      ensures Queued(old(msgs), SetTar(old(cache), addr)) && |tx| <= |old(tx)| + 4
    {
      if cache.ahbtar != addr {
        QApWrite(AHB_TAR, addr);
        cache := cache.(ahbtar := addr);
      }
    }

    method QAhbWrite(addr: u32, value: u32)
      requires Valid() && |tx| + 8 <= MAXWORDS
      modifies this`tx, this`msgs, this`cache
      ensures Queued(old(msgs), CompileOp(old(cache), AhbWrite(addr, value))) && |tx| <= |old(tx)| + 8
    {
      QSetTar(addr);
      QApWrite(AHB_DRW, value);
    }

    method QAhbRead(addr: u32, slot: nat)
      requires Valid() && |tx| + 8 <= MAXWORDS
      modifies this`tx, this`rx, this`msgs, this`cache
      ensures Queued(old(msgs), CompileOp(old(cache), AhbRead(addr))) && |tx| <= |old(tx)| + 8
      ensures rx == old(rx) + [slot]
    {
      QSetTar(addr);
      QApRead(AHB_DRW, slot);
    }
  }

  // ----- process_reply -----

  // A reply after its id word: what each header says.
  datatype Item =
    | Data(b: Block)
    | Skip(clock: bool, arg: u16)
    | Status(op: byte, n: u16)
    | Strange(code: StrangeCode, op: byte, n: u16)

  const CMD_CLOCK_KHZ: byte := 0x34

  // Codes process_reply does not know.
  type StrangeCode = c: byte | c !in {CMD_NULL, CMD_SWD_DATA, CMD_STATUS, CMD_CLOCK_KHZ} witness 0xFF

  function ItemHead(x: Item): u32 {
    match x
    case Data(b) => Header(CMD_SWD_DATA, 0, |b|)
    case Skip(clock, arg) => Header(if clock then CMD_CLOCK_KHZ else CMD_NULL, 0, arg)
    case Status(op, n) => Header(CMD_STATUS, op, n)
    case Strange(code, op, n) => Header(code, op, n)
  }

  lemma ItemHeadFields(x: Item)
    ensures var w := ItemHead(x);
      match x
      case Data(b) => Cmd(w) == CMD_SWD_DATA && Arg(w) == |b|
      case Skip(clock, _) => Cmd(w) == if clock then CMD_CLOCK_KHZ else CMD_NULL
      case Status(op, _) => Cmd(w) == CMD_STATUS && Op(w) == op
      case Strange(code, _, _) => Cmd(w) == code
  {
    match x
    case Data(b) => HeaderFields(CMD_SWD_DATA, 0, |b|);
    case Skip(clock, arg) => HeaderFields(if clock then CMD_CLOCK_KHZ else CMD_NULL, 0, arg);
    case Status(op, n) => HeaderFields(CMD_STATUS, op, n);
    case Strange(code, op, n) => HeaderFields(code, op, n);
  }

  // The words from position i on start with these items, of which only the last one ends the reply.
  ghost predicate ReplyParses(data: seq<u32>, i: nat, items: seq<Item>)
    decreases |items|
  {
    && items != []
    && i < |data|
    && data[i] == ItemHead(items[0])
    && (items[0].Data? ==> i + 1 + |items[0].b| <= |data| && data[i + 1..i + 1 + |items[0].b|] == items[0].b)
    && (items[0].Status? || items[0].Strange? ||
        ReplyParses(data, i + 1 + (if items[0].Data? then |items[0].b| else 0), items[1..]))
  }

  // Every place is inside the caller's buffer.
  ghost predicate Within(slots: seq<nat>, size: nat) {
    forall i :: 0 <= i < |slots| ==> slots[i] < size
  }

  ghost function Scatter(out: seq<u32>, slots: seq<nat>, words: seq<u32>): (r: seq<u32>)
    requires |words| <= |slots| && Within(slots, |out|)
    ensures |r| == |out|
    decreases |words|
  {
    if words == [] then out else Scatter(out[slots[0] := words[0]], slots[1..], words[1..])
  }

  // The caller's buffer afterwards, and the value returned.
  ghost function Deliver(out: seq<u32>, slots: seq<nat>, items: seq<Item>): (r: (seq<u32>, int))
    requires Within(slots, |out|)
    ensures |r.0| == |out|
    decreases |items|
  {
    if items == [] then (out, 0)
    else match items[0]
      case Skip(_, _) => Deliver(out, slots, items[1..])
      case Status(op, _) => (out, 0 - op)
      case Strange(_, _, _) => (out, -1)
      case Data(b) =>
        if |b| > |slots| then (out, -1)
        else Deliver(Scatter(out, slots[..|b|], b), slots[|b|..], items[1..])
  }

  // Nothing has changed but at the places given.
  ghost predicate OnlyAt(was: seq<u32>, now: seq<u32>, slots: seq<nat>) {
    |was| == |now| && forall i :: 0 <= i < |was| && i !in slots ==> now[i] == was[i]
  }

  lemma {:induction false} ScatterOnlyAt(out: seq<u32>, slots: seq<nat>, words: seq<u32>)
    requires |words| <= |slots| && Within(slots, |out|)
    ensures OnlyAt(out, Scatter(out, slots, words), slots)
    decreases |words|
  {
    if words != [] {
      ScatterOnlyAt(out[slots[0] := words[0]], slots[1..], words[1..]);
    }
  }

  /** Whatever the reply says, and wherever it stops, it can only change the words that were asked for. */
  lemma {:induction false} DeliverOnlyAt(out: seq<u32>, slots: seq<nat>, items: seq<Item>)
    requires Within(slots, |out|)
    ensures OnlyAt(out, Deliver(out, slots, items).0, slots)
    decreases |items|
  {
    if items != [] {
      match items[0]
      case Skip(_, _) => DeliverOnlyAt(out, slots, items[1..]);
      case Status(_, _) =>
      case Strange(_, _, _) =>
      case Data(b) =>
        if |b| <= |slots| {
          ScatterOnlyAt(out, slots[..|b|], b);
          DeliverOnlyAt(Scatter(out, slots[..|b|], b), slots[|b|..], items[1..]);
        }
    }
  }

  // The inner loop of CMD_SWD_DATA.
  method ScatterWords(slots: seq<nat>, words: seq<u32>, out: array<u32>)
    requires |words| <= |slots| && Within(slots, out.Length)
    modifies out
    ensures out[..] == Scatter(old(out[..]), slots, words)
  {
    var i := 0;
    while i < |words|
      invariant 0 <= i <= |words|
      invariant Scatter(old(out[..]), slots, words) == Scatter(out[..], slots[i..], words[i..])
    {
      ghost var before := out[..];
      assert slots[i..][1..] == slots[i + 1..] && words[i..][1..] == words[i + 1..];
      out[slots[i]] := words[i];
      assert out[..] == before[slots[i] := words[i]];
      i := i + 1;
    }
  }

  /** The count it is given bounds the headers, not the words, so it relies on the reply to say where it ends. */
  method ProcessReply(slots: seq<nat>, data: seq<u32>, out: array<u32>, ghost items: seq<Item>) returns (r: int)
    requires data != [] && ReplyParses(data, 1, items)
    requires Within(slots, out.Length)
    modifies out
    ensures (out[..], r) == Deliver(old(out[..]), slots, items)
  {
    ghost var left := items;
    var i, rxp, count := 1, 0, |data| - 1;
    while count > 0
      invariant 1 <= i < |data| && rxp <= |slots| && count >= |data| - i
      invariant ReplyParses(data, i, left)
      invariant Deliver(old(out[..]), slots, items) == Deliver(out[..], slots[rxp..], left)
      decreases |left|
    {
      ItemHeadFields(left[0]);
      count := count - 1;
      var cmd, n := Cmd(data[i]), Arg(data[i]);
      var op: int := Op(data[i]);
      i := i + 1;
      if cmd == CMD_SWD_DATA {
        if n > |slots| - rxp {
          return -1;
        }
        assert slots[rxp..][..n] == slots[rxp..rxp + n] && slots[rxp..][n..] == slots[rxp + n..];
        ScatterWords(slots[rxp..rxp + n], data[i..i + n], out);
        i, rxp := i + n, rxp + n;
      } else if cmd == CMD_STATUS {
        return -op;
      } else if cmd != CMD_NULL && cmd != CMD_CLOCK_KHZ {
        return -1;
      }
      left := left[1..];
    }
    r := 0;
  }

  // ----- the probe's replies, as the host reads them -----

  function Items(blocks: seq<Block>, end: Item): seq<Item> {
    if blocks == [] then [end] else [Data(blocks[0])] + Items(blocks[1..], end)
  }

  function ItemsOf<T>(o: Outcome<T>): seq<Item> {
    Items(o.blocks, Status(o.status, o.count % 0x1_0000))
  }

  lemma {:induction false} BlocksParse(before: seq<u32>, blocks: seq<Block>, end: Item, tail: seq<u32>)
    requires end.Status? && tail != [] && tail[0] == ItemHead(end)
    ensures ReplyParses(before + (EncodeBlocks(blocks) + tail), |before|, Items(blocks, end))
    decreases |blocks|
  {
    hide EncodeBlock, EncodeBlocks, ItemHead;
    BlocksStep(before, blocks, tail);
    if blocks != [] {
      BlocksParse(before + EncodeBlock(blocks[0]), blocks[1..], end, tail);
      assert Items(blocks, end)[1..] == Items(blocks[1..], end);
    }
  }

  lemma BlocksStep(before: seq<u32>, blocks: seq<Block>, tail: seq<u32>)
    ensures blocks == [] ==> before + (EncodeBlocks(blocks) + tail) == before + tail
    ensures blocks != [] ==>
      var b, data, next := blocks[0], before + (EncodeBlocks(blocks) + tail), before + EncodeBlock(blocks[0]);
      && |next| == |before| + 1 + |b| <= |data|
      && data == next + (EncodeBlocks(blocks[1..]) + tail)
      && data[|before|] == ItemHead(Data(b))
      && data[|before| + 1..|before| + 1 + |b|] == b
  {
    if blocks == [] {
      assert [] + tail == tail;
    } else {
      var b, rest := blocks[0], EncodeBlocks(blocks[1..]);
      assert EncodeBlocks(blocks) + tail == [ItemHead(Data(b))] + b + (rest + tail);
      OneInFront(before, ItemHead(Data(b)), b, rest + tail);
    }
  }

  /** Every reply parses: each header is followed by exactly the words it declares, fault fill included, so
      the host reaches STATUS without ever reading data as a header. */
  lemma ReplyReadsBack<T>(txnid: u32, o: Outcome<T>)
    ensures ReplyParses(Reply(txnid, o), 1, ItemsOf(o))
  {
    var end := Status(o.status, o.count % 0x1_0000);
    var head := [txnid] + EncodeBlocks(o.blocks);
    var trailer := Trailer(o.status, o.count, |head|);
    BlocksParse([txnid], o.blocks, end, trailer);
    assert Reply(txnid, o) == [txnid] + (EncodeBlocks(o.blocks) + trailer);
  }

  lemma {:induction false} ScatterAppend(out: seq<u32>, slots: seq<nat>, a: seq<u32>, b: seq<u32>)
    requires |a| + |b| <= |slots| && Within(slots, |out|)
    ensures Scatter(out, slots, a + b) == Scatter(Scatter(out, slots, a), slots[|a|..], b)
    decreases |a|
  {
    if a == [] {
      assert a + b == b && slots[0..] == slots;
    } else {
      assert (a + b)[1..] == a[1..] + b;
      ScatterAppend(out[slots[0] := a[0]], slots[1..], a[1..], b);
      assert slots[1..][|a[1..]|..] == slots[|a|..];
    }
  }

  lemma {:induction false} ScatterPrefix(out: seq<u32>, slots: seq<nat>, words: seq<u32>, k: nat)
    requires |words| <= k <= |slots| && Within(slots, |out|)
    ensures Scatter(out, slots[..k], words) == Scatter(out, slots, words)
    decreases |words|
  {
    if words != [] {
      assert slots[..k][1..] == slots[1..][..k - 1];
      ScatterPrefix(out[slots[0] := words[0]], slots[1..], words[1..], k - 1);
    }
  }

  /** The reply never overruns the places queued for it: its words land there in order. */
  lemma {:induction false} DeliverBlocks(out: seq<u32>, slots: seq<nat>, blocks: seq<Block>, end: Item)
    requires end.Status? && Within(slots, |out|) && |Flat(blocks)| <= |slots|
    ensures Deliver(out, slots, Items(blocks, end)) == (Scatter(out, slots, Flat(blocks)), -(end.op as int))
    decreases |blocks|
  {
    if blocks != [] {
      var b := blocks[0];
      assert Items(blocks, end)[1..] == Items(blocks[1..], end);
      DeliverBlocks(Scatter(out, slots[..|b|], b), slots[|b|..], blocks[1..], end);
      ScatterPrefix(out, slots, b, |b|);
      ScatterAppend(out, slots, b, Flat(blocks[1..]));
    }
  }

  lemma {:induction false} ReadTotalAppend(a: seq<Msg>, b: seq<Msg>)
    ensures ReadTotal(a + b) == ReadTotal(a) + ReadTotal(b)
  {
    if a == [] {
      assert a + b == b;
    } else {
      assert (a + b)[1..] == a[1..] + b;
      ReadTotalAppend(a[1..], b);
    }
  }
}
