/** How long the transactions of the word loops and of the bulk transfers are. */
module BatchSizes {
  import opened Words
  import opened Rswdp
  import opened AhbCode
  import opened AhbSemantics
  import opened BulkCode
  import opened Session
  import opened Ahb
  import opened Bulk
  import opened WordLoop

  function Length(ms: seq<Msg>): nat {
    1 + |EncodeAll(ms)|
  }

  lemma SelectedOpLength(c: Cache, op: AhbOp)
    requires c.apaddr == 0 && c.ahbtar != op.addr
    ensures |EncodeAll(CompileOp(c, op).msgs)| == 4 && CompileOp(c, op).cache == Cache(0, op.addr)
  {
    SelectorReaches(AHB_TAR);
    SelectorReaches(AHB_DRW);
    var tar := Write(ApWriteOp(AHB_TAR), [op.addr]);
    if op.AhbWrite? {
      var drw := Write(ApWriteOp(AHB_DRW), [op.value]);
      assert CompileOp(c, op).msgs == [tar] + [drw];
      EncodeAllAppend([tar], [drw]);
      LengthOfOne(tar);
      LengthOfOne(drw);
    } else {
      var kick, fetch := Discard(ApReadOp(AHB_DRW), 1), Read(RD_BUFFER, 1);
      assert CompileOp(c, op).msgs == [tar] + ([kick] + [fetch]);
      EncodeAllAppend([tar], [kick] + [fetch]);
      EncodeAllAppend([kick], [fetch]);
      LengthOfOne(tar);
      LengthOfOne(kick);
      LengthOfOne(fetch);
    }
  }

  lemma {:induction false} SelectedWritesLength(c: Cache, addr: u32, data: seq<u32>)
    requires c.apaddr == 0 && addr % 4 == 0 && c.ahbtar != addr
    ensures |EncodeAll(Compile(c, Writes(addr, data)).msgs)| == 4 * |data|
    decreases |data|
  {
    if data != [] {
      var first := CompileOp(c, AhbWrite(addr, data[0]));
      SelectedOpLength(c, AhbWrite(addr, data[0]));
      SelectedWritesLength(first.cache, Add32(addr, 4), data[1..]);
      assert Writes(addr, data)[1..] == Writes(Add32(addr, 4), data[1..]);
      EncodeAllAppend(first.msgs, Compile(first.cache, Writes(addr, data)[1..]).msgs);
    }
  }

  /** A transaction of the word loop fits the probe's 512-word buffer if and only if it has at most 127 words;
      a full chunk of 128 words takes 515. */
  lemma SimpleBatchFits(addr: u32, data: seq<u32>)
    requires addr % 4 == 0 && data != []
    ensures Length(Compile(EMPTY, Writes(addr, data)).msgs) == 3 + 4 * |data|
    ensures Length(Compile(EMPTY, Writes(addr, data)).msgs) <= RX_WORDS <==> |data| <= 127
  {
    hide CompileOp, Length;
    var op := AhbWrite(addr, data[0]);
    var rest := Compile(Cache(0, addr), Writes(addr, data)[1..]).msgs;
    FirstOpLength(op);
    SelectedWritesLength(Cache(0, addr), Add32(addr, 4), data[1..]);
    assert Writes(addr, data)[1..] == Writes(Add32(addr, 4), data[1..]);
    EncodeAllAppend(CompileOp(EMPTY, op).msgs, rest);
    LengthIs(CompileOp(EMPTY, op).msgs + rest);
  }

  lemma {:induction false} SelectedReadsLength(c: Cache, addr: u32, n: nat)
    requires c.apaddr == 0 && addr % 4 == 0 && c.ahbtar != addr
    ensures |EncodeAll(Compile(c, Reads(addr, n)).msgs)| == 4 * n
    decreases n
  {
    if n > 0 {
      var first := CompileOp(c, AhbRead(addr));
      SelectedOpLength(c, AhbRead(addr));
      SelectedReadsLength(first.cache, Add32(addr, 4), n - 1);
      assert Reads(addr, n)[1..] == Reads(Add32(addr, 4), n - 1);
      EncodeAllAppend(first.msgs, Compile(first.cache, Reads(addr, n)[1..]).msgs);
    }
  }

  lemma {:induction false} ReadsRoom(c: Cache, addr: u32, n: nat)
    ensures ReplyRoom(Compile(c, Reads(addr, n)).msgs) == 2 * n
    decreases n
  {
    hide CompileOp;
    if n > 0 {
      var first := CompileOp(c, AhbRead(addr));
      assert Reads(addr, n)[1..] == Reads(Add32(addr, 4), n - 1);
      ReadsRoom(first.cache, Add32(addr, 4), n - 1);
      OpRoom(c, AhbRead(addr));
      ReplyRoomAppend(first.msgs, Compile(first.cache, Reads(addr, n)[1..]).msgs);
    }
  }

  /** The same for the reads of the loop, whose reply, with its id and its status, has two words for each. */
  lemma SimpleReadFits(addr: u32, n: nat)
    requires addr % 4 == 0 && n > 0
    ensures Length(Compile(EMPTY, Reads(addr, n)).msgs) == 3 + 4 * n
    ensures Length(Compile(EMPTY, Reads(addr, n)).msgs) <= RX_WORDS <==> n <= 127
    ensures 1 + ReplyRoom(Compile(EMPTY, Reads(addr, n)).msgs) + 1 == 2 * n + 2
  {
    hide CompileOp, Length;
    ReadsRoom(EMPTY, addr, n);
    var op := AhbRead(addr);
    var rest := Compile(Cache(0, addr), Reads(addr, n)[1..]).msgs;
    FirstOpLength(op);
    SelectedReadsLength(Cache(0, addr), Add32(addr, 4), n - 1);
    assert Reads(addr, n)[1..] == Reads(Add32(addr, 4), n - 1);
    EncodeAllAppend(CompileOp(EMPTY, op).msgs, rest);
    LengthIs(CompileOp(EMPTY, op).msgs + rest);
  }

  lemma LengthIs(ms: seq<Msg>)
    ensures Length(ms) == 1 + |EncodeAll(ms)|
  {
  }

  // The first access of a transaction selects the access port as well.
  lemma FirstOpLength(op: AhbOp)
    requires op.addr % 4 == 0
    ensures |EncodeAll(CompileOp(EMPTY, op).msgs)| == 6 && CompileOp(EMPTY, op).cache == Cache(0, op.addr)
  {
    SelectorReaches(AHB_TAR);
    var select, selected := Write(WR_SELECT, [0]), Cache(0, UNKNOWN);
    assert CompileOp(EMPTY, op).msgs == [select] + CompileOp(selected, op).msgs;
    SelectedOpLength(selected, op);
    EncodeAllAppend([select], CompileOp(selected, op).msgs);
    LengthOfOne(select);
  }

  lemma SetupLength(addr: u32)
    ensures |EncodeAll(Setup(addr).msgs)| == 6
  {
    SelectorReaches(AHB_CSW);
    SelectorReaches(AHB_TAR);
    var select, mode, tar := Write(WR_SELECT, [0]), Write(ApWriteOp(AHB_CSW), [CSW_INCREMENT]),
      Write(ApWriteOp(AHB_TAR), [addr]);
    assert Setup(addr).msgs == [select] + ([mode] + [tar]);
    EncodeAllAppend([mode], [tar]);
    EncodeAllAppend([select], [mode] + [tar]);
    LengthOfOne(select);
    LengthOfOne(mode);
    LengthOfOne(tar);
  }

  lemma RestoreLength(addr: u32, last: bool)
    ensures |EncodeAll(Restore(Setup(addr).cache, last).msgs)| == if last then 2 else 0
  {
    SelectorReaches(AHB_CSW);
    SelectorReaches(AHB_TAR);
    if last {
      assert Restore(Setup(addr).cache, true).msgs == [Write(ApWriteOp(AHB_CSW), [CSW_PLAIN])];
      LengthOfOne(Write(ApWriteOp(AHB_CSW), [CSW_PLAIN]));
    }
  }

  /** Every bulk batch fits in the probe's buffer, a padding word included, and so does its reply. */
  lemma WriteBatchFits(addr: u32, data: Block, last: bool, maxwords: u32)
    requires maxwords >= 17 && addr % 4 == 0 && |data| > 0 && |data| <= Xfer(addr, |data|, maxwords)
    ensures Length(WriteBatch(addr, data, last)) == |data| + if last then 10 else 8
    ensures Length(WriteBatch(addr, data, last)) + 1 <= maxwords
  {
    XferProgress(addr, |data|, maxwords);
    var s := Setup(addr);
    var burst := [Write(WR_DRW, data)];
    SetupLength(addr);
    RestoreLength(addr, last);
    LengthOfOne(Write(WR_DRW, data));
    EncodeAllAppend(s.msgs, burst);
    EncodeAllAppend(s.msgs + burst, Restore(s.cache, last).msgs);
  }

  lemma ReadBatchFits(addr: u32, n: u16, last: bool, maxwords: u32)
    requires maxwords >= 17 && addr % 4 == 0 && 0 < n <= Xfer(addr, n, maxwords)
    ensures Length(ReadBatch(addr, n, last)) == if last then 12 else 10
    ensures Length(ReadBatch(addr, n, last)) + 1 <= maxwords
    ensures 1 + ReplyRoom(ReadBatch(addr, n, last)) + 2 == n + 5 && n + 5 <= maxwords
  {
    XferProgress(addr, n, maxwords);
    ReadBatchRoom(addr, n, last);
    var s := Setup(addr);
    var kick, stream, fetch := Discard(RD_DRW, 1), Read(RD_DRW, n - 1), Read(RD_BUFFER, 1);
    SetupLength(addr);
    RestoreLength(addr, last);
    LengthOfOne(kick);
    LengthOfOne(stream);
    LengthOfOne(fetch);
    EncodeAllAppend([stream], [fetch]);
    EncodeAllAppend([kick], [stream] + [fetch]);
    assert [kick, stream, fetch] == [kick] + ([stream] + [fetch]);
    EncodeAllAppend(s.msgs, [kick, stream, fetch]);
    EncodeAllAppend(s.msgs + [kick, stream, fetch], Restore(s.cache, last).msgs);
  }
}
