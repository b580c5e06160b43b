/** The batches of swdp_ahb_read32 and swdp_ahb_write32 (tools/rswdp.c): one transaction each, which switches
    the MEM-AP to auto-increment, streams the words, and switches back after the last batch. */
module BulkCode {
  import opened Words
  import opened Rswdp
  import opened Swd
  import opened MemAp
  import opened ProbeRuns
  import opened AhbCode
  import opened AhbSemantics

  const WR_DRW: WriteOp := ApWriteOp(AHB_DRW)
  const RD_DRW: ReadOp := ApReadOp(AHB_DRW)

  // Storing and loading consecutive words, one at a time; addresses wrap at 32 bits.
  function StoreWords(m: Memory, addr: u32, data: seq<u32>): Memory
    decreases |data|
  {
    if data == [] then m else StoreWords(Store(m, addr, data[0]), Add32(addr, 4), data[1..])
  }

  function LoadWords(m: Memory, addr: u32, n: nat): (xs: seq<u32>)
    ensures |xs| == n
    decreases n
  {
    if n == 0 then [] else [Load(m, addr)] + LoadWords(m, Add32(addr, 4), n - 1)
  }

  // The address n words on, stepping word by word.
  function Onward(addr: u32, n: nat): u32
    decreases n
  {
    if n == 0 then addr else Onward(Add32(addr, 4), n - 1)
  }

  lemma {:induction false} OnwardAdds(addr: u32, n: nat)
    ensures Onward(addr, n) == Add32(addr, 4 * n)
    decreases n
  {
    hide Add32;
    Add32None(addr);
    if n > 0 {
      OnwardAdds(Add32(addr, 4), n - 1);
      Add32Twice(addr, 4, 4 * (n - 1));
    }
  }

  // How many words the next batch moves: up to the end of the page, and what the probe's buffer takes. MAXDATAWORDS
  // is an unsigned difference.
  function Xfer(addr: u32, count: nat, maxwords: u32): nat {
    var page := (PAGE - addr % PAGE) / 4;
    var limited := if page > count then count else page;
    if limited > Sub32(maxwords, 16) then Sub32(maxwords, 16) else limited
  }

  /** Every batch stays in one 4 KB page, is as long as page, buffer and count allow, and moves a word unless the buffer
      holds exactly 16 words or less than a word is left of the page. */
  lemma XferProgress(addr: u32, count: nat, maxwords: u32)
    requires count > 0
    ensures var x := Xfer(addr, count, maxwords);
      && x <= count
      && addr % PAGE + 4 * x <= PAGE
      && (x == 0 <==> maxwords == 16 || addr % PAGE > PAGE - 4)
      && (maxwords >= 16 ==> x <= maxwords - 16)
      && (x == count || x == Sub32(maxwords, 16) || addr % PAGE + 4 * (x + 1) > PAGE)
  {
  }

  // A batch gets further and leaves room for its 16 words of overhead.
  predicate Sound(addr: u32, count: nat, maxwords: u32) {
    0 < Xfer(addr, count, maxwords) <= maxwords - 16
  }

  /** All batches from word addresses do, if and only if the buffer holds at least 17 words: with 16 a write moves
      nothing for ever, a read asks for one word less than none, and below the difference wraps and no longer limits
      anything. */
  lemma SoundExactly(maxwords: u32)
    ensures (forall addr: u32, count: nat | addr % 4 == 0 && count > 0 :: Sound(addr, count, maxwords))
        <==> maxwords >= 17
  {
    if maxwords >= 17 {
      forall addr: u32, count: nat | addr % 4 == 0 && count > 0
        ensures Sound(addr, count, maxwords)
      {
        XferProgress(addr, count, maxwords);
      }
    } else {
      assert !Sound(0, 1024, maxwords);
    }
  }

  // The header's count of a read of none, and what a small buffer lets through.
  lemma SmallBuffers()
    ensures (Xfer(0, 1, 16) - 1) % 0x1_0000 == 0xFFFF
    ensures forall maxwords: u32 :: maxwords < 16 ==> Xfer(0, 1024, maxwords) == 1024
  {
  }

  function Setup(addr: u32): Code {
    var mode := ApWrite(EMPTY, AHB_CSW, CSW_INCREMENT);
    var tar := ApWrite(mode.cache, AHB_TAR, addr);
    Code(mode.msgs + tar.msgs, tar.cache)
  }

  function Restore(c: Cache, last: bool): Code {
    if last then ApWrite(c, AHB_CSW, CSW_PLAIN) else Code([], c)
  }

  function WriteBatch(addr: u32, data: Block, last: bool): seq<Msg> {
    var s := Setup(addr);
    s.msgs + [Write(WR_DRW, data)] + Restore(s.cache, last).msgs
  }

  // The first read's result is thrown away: the word shows up at the next read.
  function ReadBatch(addr: u32, n: u16, last: bool): seq<Msg>
    requires n > 0
  {
    var s := Setup(addr);
    s.msgs + [Discard(RD_DRW, 1), Read(RD_DRW, n - 1), Read(RD_BUFFER, 1)] + Restore(s.cache, last).msgs
  }

  // The same batches as accesses.
  function SetupAccesses(addr: u32): seq<Access> {
    [Wr(WR_SELECT, 0), Wr(ApWriteOp(AHB_CSW), CSW_INCREMENT), Wr(ApWriteOp(AHB_TAR), addr)]
  }

  function RestoreAccesses(last: bool): seq<Access> {
    if last then [Wr(ApWriteOp(AHB_CSW), CSW_PLAIN)] else []
  }

  lemma OneWrite(op: WriteOp, v: u32)
    ensures Accesses([Write(op, [v])]) == [Wr(op, v)]
  {
    assert Accesses([Write(op, [v])]) == WriteAccesses(op, [v]) + Accesses([]);
    assert WriteAccesses(op, [v]) == [Wr(op, v)] + WriteAccesses(op, []);
  }

  lemma SetupRuns(addr: u32)
    ensures Accesses(Setup(addr).msgs) == SetupAccesses(addr)
    ensures NoUnknown(Setup(addr).msgs) && Setup(addr).cache == Cache(0, UNKNOWN)
  {
    var mode, tar := ApWrite(EMPTY, AHB_CSW, CSW_INCREMENT), [Write(ApWriteOp(AHB_TAR), [addr])];
    SelectorReaches(AHB_CSW);
    SelectorReaches(AHB_TAR);
    assert Setup(addr).msgs == mode.msgs + tar;
    assert mode.msgs == [Write(WR_SELECT, [0])] + [Write(ApWriteOp(AHB_CSW), [CSW_INCREMENT])];
    AccessesAppend([Write(WR_SELECT, [0])], [Write(ApWriteOp(AHB_CSW), [CSW_INCREMENT])]);
    AccessesAppend(mode.msgs, tar);
    OneWrite(WR_SELECT, 0);
    OneWrite(ApWriteOp(AHB_CSW), CSW_INCREMENT);
    OneWrite(ApWriteOp(AHB_TAR), addr);
  }

  lemma RestoreRuns(last: bool)
    ensures Accesses(Restore(Cache(0, UNKNOWN), last).msgs) == RestoreAccesses(last)
    ensures NoUnknown(Restore(Cache(0, UNKNOWN), last).msgs)
  {
    SelectorReaches(AHB_CSW);
    if last {
      assert Restore(Cache(0, UNKNOWN), true).msgs == [Write(ApWriteOp(AHB_CSW), [CSW_PLAIN])];
      OneWrite(ApWriteOp(AHB_CSW), CSW_PLAIN);
    }
  }

  lemma WriteBatchAccesses(addr: u32, data: Block, last: bool)
    ensures Accesses(WriteBatch(addr, data, last)) ==
      SetupAccesses(addr) + WriteAccesses(WR_DRW, data) + RestoreAccesses(last)
    ensures NoUnknown(WriteBatch(addr, data, last))
  {
    var s := Setup(addr);
    var burst := [Write(WR_DRW, data)];
    SetupRuns(addr);
    RestoreRuns(last);
    AccessesAppend(s.msgs, burst);
    AccessesAppend(s.msgs + burst, Restore(s.cache, last).msgs);
    assert Accesses(burst) == WriteAccesses(WR_DRW, data) + Accesses([]) == WriteAccesses(WR_DRW, data);
  }

  function ReadBurstAccesses(n: nat): seq<Access>
    requires n > 0
  {
    [Rd(RD_DRW, false)] + (ReadAccesses(RD_DRW, n - 1, true) + [Rd(RD_BUFFER, true)])
  }

  lemma ReadBatchAccesses(addr: u32, n: u16, last: bool)
    requires n > 0
    ensures Accesses(ReadBatch(addr, n, last)) ==
      SetupAccesses(addr) + ReadBurstAccesses(n) + RestoreAccesses(last)
    ensures NoUnknown(ReadBatch(addr, n, last))
  {
    var s := Setup(addr);
    var burst := [Discard(RD_DRW, 1), Read(RD_DRW, n - 1), Read(RD_BUFFER, 1)];
    SetupRuns(addr);
    RestoreRuns(last);
    StreamAccesses(n);
    AccessesAppend(s.msgs, burst);
    AccessesAppend(s.msgs + burst, Restore(s.cache, last).msgs);
  }

  lemma StreamAccesses(n: u16)
    requires n > 0
    ensures Accesses([Discard(RD_DRW, 1), Read(RD_DRW, n - 1), Read(RD_BUFFER, 1)]) == ReadBurstAccesses(n)
  {
    hide Accesses;
    var kick, stream, fetch := Discard(RD_DRW, 1), Read(RD_DRW, n - 1), Read(RD_BUFFER, 1);
    assert [kick, stream, fetch] == [kick] + ([stream] + [fetch]);
    AccessesAppend([kick], [stream] + [fetch]);
    AccessesAppend([stream], [fetch]);
    OneRead(kick);
    OneRead(stream);
    OneRead(fetch);
    assert ReadAccesses(RD_DRW, 1, false) == [Rd(RD_DRW, false)] + ReadAccesses(RD_DRW, 0, false);
    assert ReadAccesses(RD_BUFFER, 1, true) == [Rd(RD_BUFFER, true)] + ReadAccesses(RD_BUFFER, 0, true);
  }

  lemma OneRead(m: Msg)
    requires m.Read? || m.Discard?
    ensures Accesses([m]) == ReadAccesses(m.rop, m.n, m.Read?)
  {
    assert Accesses([m]) == AccessesOf(m) + Accesses([]);
  }
}
