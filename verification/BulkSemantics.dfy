/** What a bulk batch does to the target: the same as storing or loading its words one at a time. */
module BulkSemantics {
  import opened Words
  import opened Rswdp
  import opened Swd
  import opened MemAp
  import opened ProbeRuns
  import opened AhbCode
  import opened AhbSemantics
  import opened BulkCode

  function RunAccesses(t: Target, accs: seq<Access>): (Target, seq<u32>) {
    PerformAll(DEBUG_PORT, t, accs)
  }

  // The state a batch streams in.
  ghost predicate Streaming(t: Target) {
    t.select == 0 && t.csw == CSW_INCREMENT
  }

  lemma StreamRegister()
    ensures WordSize(CSW_INCREMENT) && Increments(CSW_INCREMENT)
    ensures WordSize(CSW_PLAIN) && !Increments(CSW_PLAIN)
    ensures IsAp(WR_DRW) && ApRegister(0, WR_DRW) == Drw
    ensures IsAp(RD_DRW) && ApRegister(0, RD_DRW) == Drw
  {
    SelectorReaches(AHB_DRW);
  }

  lemma NextInPage(tar: u32)
    requires tar % PAGE + 4 < PAGE
    ensures NextTar(tar) == tar + 4 == Add32(tar, 4) && (tar + 4) % PAGE == tar % PAGE + 4
  {
  }

  lemma StreamedWrite(t: Target, v: u32)
    requires Streaming(t)
    ensures WriteReg(t, WR_DRW, v) == t.(mem := Store(t.mem, t.tar, v), tar := NextTar(t.tar))
  {
    StreamRegister();
  }

  // Auto-increment keeps TAR in step with the address, as long as the page lasts.
  lemma {:induction false} BurstWrites(t: Target, data: seq<u32>)
    requires Streaming(t) && t.tar % PAGE + 4 * |data| <= PAGE
    ensures var (t', xs) := RunAccesses(t, WriteAccesses(WR_DRW, data));
      t'.mem == StoreWords(t.mem, t.tar, data) && Streaming(t') && xs == []
    decreases |data|
  {
    if data != [] {
      var t1 := WriteReg(t, WR_DRW, data[0]);
      StreamedWrite(t, data[0]);
      PerformCons(DEBUG_PORT, t, Wr(WR_DRW, data[0]), WriteAccesses(WR_DRW, data[1..]));
      if |data| > 1 {
        NextInPage(t.tar);
        BurstWrites(t1, data[1..]);
      } else {
        assert data[1..] == [];
      }
    }
  }

  lemma {:induction false} BurstPrefix(op: nat, data: seq<u32>, k: nat)
    requires k <= |data|
    ensures WriteAccesses(op, data)[..k] == WriteAccesses(op, data[..k])
    decreases |data|
  {
    if k > 0 {
      BurstPrefix(op, data[1..], k - 1);
      TakeCons(Wr(op, data[0]), WriteAccesses(op, data[1..]), k - 1);
      assert data[..k][1..] == data[1..][..k - 1];
    }
  }

  lemma StreamedRead(t: Target)
    requires Streaming(t)
    ensures ReadReg(t, RD_DRW) == (t.(posted := Load(t.mem, t.tar), tar := NextTar(t.tar)), t.posted)
  {
    StreamRegister();
  }

  // The posted word is always one behind: the reads return the words before it, RDBUFF the last one.
  lemma {:induction false} PipelinedReads(t: Target, addr: u32, n: nat)
    requires Streaming(t) && n > 0 && addr % PAGE + 4 * n <= PAGE
    requires t.posted == Load(t.mem, addr) && (n > 1 ==> t.tar == Add32(addr, 4))
    ensures var (t', xs) := RunAccesses(t, ReadAccesses(RD_DRW, n - 1, true));
      xs + [t'.posted] == LoadWords(t.mem, addr, n) && Streaming(t') && t'.mem == t.mem
    decreases n
  {
    if n > 1 {
      var (t1, x) := ReadReg(t, RD_DRW);
      StreamedRead(t);
      NextInPage(addr);
      if n > 2 {
        NextInPage(t.tar);
      }
      PipelinedReads(t1, Add32(addr, 4), n - 1);
      PerformCons(DEBUG_PORT, t, Rd(RD_DRW, true), ReadAccesses(RD_DRW, n - 2, true));
      var (t', xs) := RunAccesses(t1, ReadAccesses(RD_DRW, n - 2, true));
      assert [x] + xs + [t'.posted] == [x] + (xs + [t'.posted]);
    } else {
      assert LoadWords(t.mem, addr, 1) == [Load(t.mem, addr)] + LoadWords(t.mem, Add32(addr, 4), 0);
    }
  }

  lemma BurstReads(t: Target, n: nat)
    requires Streaming(t) && n > 0 && t.tar % PAGE + 4 * n <= PAGE
    ensures var (t', xs) := RunAccesses(t, ReadBurstAccesses(n));
      xs == LoadWords(t.mem, t.tar, n) && Streaming(t') && t'.mem == t.mem
  {
    var t1 := ReadReg(t, RD_DRW).0;
    StreamedRead(t);
    if n > 1 {
      NextInPage(t.tar);
    }
    PipelinedReads(t1, t.tar, n);
    var stream := ReadAccesses(RD_DRW, n - 1, true);
    var (t2, xs) := RunAccesses(t1, stream);
    PerformCons(DEBUG_PORT, t, Rd(RD_DRW, false), stream + [Rd(RD_BUFFER, true)]);
    PerformAllAppend(DEBUG_PORT, t1, stream, [Rd(RD_BUFFER, true)]);
    PerformOne(t2, Rd(RD_BUFFER, true));
    assert ReadReg(t2, RD_BUFFER) == (t2, t2.posted);
    assert [] + (xs + [t2.posted]) == xs + [t2.posted];
  }

  // ----- whole batches -----

  lemma RunTwo(t: Target, a: Access, rest: seq<Access>)
    ensures RunAccesses(t, [a] + rest) ==
      (var (t1, xs) := Perform(DEBUG_PORT, t, a);
       var (t2, ys) := RunAccesses(t1, rest);
       (t2, xs + ys))
  {
    PerformCons(DEBUG_PORT, t, a, rest);
  }

  lemma SetupDoes(t: Target, addr: u32)
    ensures RunAccesses(t, SetupAccesses(addr)) == (t.(select := 0, csw := CSW_INCREMENT, tar := addr), [])
  {
    SelectorReaches(AHB_CSW);
    SelectorReaches(AHB_TAR);
    var select, mode, tar := Wr(WR_SELECT, 0), Wr(ApWriteOp(AHB_CSW), CSW_INCREMENT), Wr(ApWriteOp(AHB_TAR), addr);
    var t1 := t.(select := 0);
    var t2 := t1.(csw := CSW_INCREMENT);
    assert SetupAccesses(addr) == [select] + ([mode] + [tar]);
    RunTwo(t, select, [mode] + [tar]);
    RunTwo(t1, mode, [tar]);
    PerformOne(t2, tar);
  }

  lemma RestoreDoes(t: Target, last: bool)
    requires t.select == 0
    ensures RunAccesses(t, RestoreAccesses(last)) == (if last then t.(csw := CSW_PLAIN) else t, [])
  {
    SelectorReaches(AHB_CSW);
    if last {
      PerformOne(t, Wr(ApWriteOp(AHB_CSW), CSW_PLAIN));
    }
  }

  function ModeAfter(last: bool): u32 {
    if last then CSW_PLAIN else CSW_INCREMENT
  }

  lemma WriteBatchDoes(t: Target, addr: u32, data: Block, last: bool)
    requires addr % PAGE + 4 * |data| <= PAGE
    ensures var (t', xs) := Effect(t, WriteBatch(addr, data, last));
      t'.mem == StoreWords(t.mem, addr, data) && t'.csw == ModeAfter(last) && t'.select == 0 && xs == []
  {
    WriteBatchAccesses(addr, data, last);
    var t1 := t.(select := 0, csw := CSW_INCREMENT, tar := addr);
    SetupDoes(t, addr);
    BurstWrites(t1, data);
    RestoreDoes(RunAccesses(t1, WriteAccesses(WR_DRW, data)).0, last);
    PerformAllAppend(DEBUG_PORT, t, SetupAccesses(addr), WriteAccesses(WR_DRW, data));
    PerformAllAppend(DEBUG_PORT, t, SetupAccesses(addr) + WriteAccesses(WR_DRW, data), RestoreAccesses(last));
  }

  lemma ReadBatchDoes(t: Target, addr: u32, n: u16, last: bool)
    requires n > 0 && addr % PAGE + 4 * n <= PAGE
    ensures var (t', xs) := Effect(t, ReadBatch(addr, n, last));
      xs == LoadWords(t.mem, addr, n) && t'.mem == t.mem && t'.csw == ModeAfter(last) && t'.select == 0
  {
    hide LoadWords, ReadBatch, Accesses, PerformAll, ReadBurstAccesses, SetupAccesses, RestoreAccesses;
    ReadBatchAccesses(addr, n, last);
    var t1 := t.(select := 0, csw := CSW_INCREMENT, tar := addr);
    SetupDoes(t, addr);
    BurstReads(t1, n);
    RestoreDoes(RunAccesses(t1, ReadBurstAccesses(n)).0, last);
    PerformAllAppend(DEBUG_PORT, t, SetupAccesses(addr), ReadBurstAccesses(n));
    PerformAllAppend(DEBUG_PORT, t, SetupAccesses(addr) + ReadBurstAccesses(n), RestoreAccesses(last));
    var xs := LoadWords(t.mem, addr, n);
    assert [] + xs + [] == xs;
  }

  // ----- batches that stop part way -----

  // A batch only ever selects two modes.
  predicate SetsMode(a: Access) {
    LeavesMode(a) || a.v == CSW_INCREMENT || a.v == CSW_PLAIN
  }

  predicate BulkMode(before: u32, csw: u32) {
    csw == before || csw == CSW_INCREMENT || csw == CSW_PLAIN
  }

  lemma {:induction false} ModesSet(t: Target, accs: seq<Access>)
    requires forall i :: 0 <= i < |accs| ==> SetsMode(accs[i])
    ensures BulkMode(t.csw, RunAccesses(t, accs).0.csw)
    decreases |accs|
  {
    if accs != [] {
      OneSetsMode(t, accs[0]);
      ModesSet(Perform(DEBUG_PORT, t, accs[0]).0, accs[1..]);
    }
  }

  lemma OneSetsMode(t: Target, a: Access)
    requires SetsMode(a)
    ensures BulkMode(t.csw, Perform(DEBUG_PORT, t, a).0.csw)
  {
  }

  lemma {:induction false} WritesLeaveMode(data: seq<u32>)
    ensures forall i :: 0 <= i < |data| ==> LeavesMode(WriteAccesses(WR_DRW, data)[i])
  {
    SelectorReaches(AHB_DRW);
    if data != [] {
      WritesLeaveMode(data[1..]);
    }
  }

  lemma BatchPrefixModes(t: Target, addr: u32, data: Block, last: bool, k: nat)
    requires k <= |Accesses(WriteBatch(addr, data, last))|
    ensures BulkMode(t.csw, RunAccesses(t, Accesses(WriteBatch(addr, data, last))[..k]).0.csw)
  {
    WriteBatchAccesses(addr, data, last);
    SelectorReaches(AHB_CSW);
    SelectorReaches(AHB_TAR);
    WritesLeaveMode(data);
    ModesSet(t, Accesses(WriteBatch(addr, data, last))[..k]);
  }

  lemma ReadPrefixKeepsMemory(t: Target, addr: u32, n: u16, last: bool, k: nat)
    requires n > 0 && k <= |Accesses(ReadBatch(addr, n, last))|
    ensures RunAccesses(t, Accesses(ReadBatch(addr, n, last))[..k]).0.mem == t.mem
  {
    ReadBatchAccesses(addr, n, last);
    SelectorReaches(AHB_CSW);
    SelectorReaches(AHB_TAR);
    ReadsAreReads(RD_DRW, n - 1, true);
    MemoryKept(t, Accesses(ReadBatch(addr, n, last))[..k]);
  }

  lemma {:induction false} ReadsAreReads(op: nat, n: nat, keep: bool)
    ensures forall i :: 0 <= i < n ==> ReadAccesses(op, n, keep)[i].Rd?
  {
    if n > 0 {
      ReadsAreReads(op, n - 1, keep);
    }
  }

  // Memory m1 is m0 with some first words of data stored from addr on.
  ghost predicate StoredPart(m0: Memory, m1: Memory, addr: u32, data: seq<u32>) {
    exists j :: 0 <= j <= |data| && m1 == StoreWords(m0, addr, data[..j])
  }

  // How many of n words are stored after k accesses of a write batch.
  function StoredCount(k: nat, n: nat): (j: nat)
    ensures j <= n
  {
    if k <= 3 then 0 else if k - 3 > n then n else k - 3
  }

  /** A write batch that stops anywhere has stored the first words of its data it came to, and nothing else. */
  lemma WritePrefixStores(t: Target, addr: u32, data: Block, last: bool, k: nat)
    requires addr % PAGE + 4 * |data| <= PAGE && k <= |Accesses(WriteBatch(addr, data, last))|
    ensures var mem := RunAccesses(t, Accesses(WriteBatch(addr, data, last))[..k]).0.mem;
      mem == StoreWords(t.mem, addr, data[..StoredCount(k, |data|)]) && StoredPart(t.mem, mem, addr, data)
    ensures |Accesses(WriteBatch(addr, data, last))| == 3 + |data| + if last then 1 else 0
  {
    hide StoreWords, WriteAccesses, Accesses, WriteBatch, RunAccesses;
    WriteBatchAccesses(addr, data, last);
    PrefixStoresExactly(t, addr, data, last, k);
    assert StoreWords(t.mem, addr, data[..StoredCount(k, |data|)])
        == RunAccesses(t, Accesses(WriteBatch(addr, data, last))[..k]).0.mem;
  }

  lemma PrefixStoresExactly(t: Target, addr: u32, data: Block, last: bool, k: nat)
    requires addr % PAGE + 4 * |data| <= PAGE && k <= |Accesses(WriteBatch(addr, data, last))|
    ensures RunAccesses(t, Accesses(WriteBatch(addr, data, last))[..k]).0.mem
         == StoreWords(t.mem, addr, data[..StoredCount(k, |data|)])
  {
    hide StoreWords, RestoreAccesses, RestoreAccesses, WriteAccesses, Accesses, WriteBatch, RunAccesses;
    WriteBatchAccesses(addr, data, last);
    assert data[..|data|] == data;
    var setup, burst, restore := SetupAccesses(addr), WriteAccesses(WR_DRW, data), RestoreAccesses(last);
    TakeAppend(setup + burst, restore, k);
    if k <= |setup| {
      TakeAppend(setup, burst, k);
      PrefixInSetup(t, addr, data, k);
    } else {
      PrefixInBurst(t, addr, data, last, k);
    }
  }

  lemma PrefixInSetup(t: Target, addr: u32, data: seq<u32>, k: nat)
    requires k <= |SetupAccesses(addr)|
    ensures RunAccesses(t, SetupAccesses(addr)[..k]).0.mem == StoreWords(t.mem, addr, data[..0])
  {
    SelectorReaches(AHB_CSW);
    SelectorReaches(AHB_TAR);
    MemoryKept(t, SetupAccesses(addr)[..k]);
  }

  lemma BurstSoFar(t: Target, addr: u32, data: Block, j: nat)
    requires addr % PAGE + 4 * |data| <= PAGE && j <= |data|
    ensures var setup, burst := SetupAccesses(addr), WriteAccesses(WR_DRW, data);
      |burst| == |data| && RunAccesses(t, setup + burst[..j]).0.mem == StoreWords(t.mem, addr, data[..j])
  {
    hide StoreWords, SetupAccesses, WriteAccesses;
    SetupDoes(t, addr);
    BurstPrefix(WR_DRW, data, j);
    BurstWrites(t.(select := 0, csw := CSW_INCREMENT, tar := addr), data[..j]);
    PerformAllAppend(DEBUG_PORT, t, SetupAccesses(addr), WriteAccesses(WR_DRW, data)[..j]);
  }

  lemma PrefixInBurst(t: Target, addr: u32, data: Block, last: bool, k: nat)
    requires addr % PAGE + 4 * |data| <= PAGE
    requires var setup, burst, restore := SetupAccesses(addr), WriteAccesses(WR_DRW, data), RestoreAccesses(last);
      |setup| < k <= |setup + burst + restore|
    ensures var setup, burst, restore := SetupAccesses(addr), WriteAccesses(WR_DRW, data), RestoreAccesses(last);
      RunAccesses(t, (setup + burst + restore)[..k]).0.mem
        == StoreWords(t.mem, addr, data[..StoredCount(k, |data|)])
  {
    hide StoreWords, WriteAccesses;
    assert data[..|data|] == data;
    var setup, burst, restore := SetupAccesses(addr), WriteAccesses(WR_DRW, data), RestoreAccesses(last);
    BurstSoFar(t, addr, data, |data|);
    TakeAppend(setup + burst, restore, k);
    if k <= |setup| + |data| {
      BurstSoFar(t, addr, data, k - |setup|);
      TakeAppend(setup, burst, k);
    } else {
      assert burst[..|data|] == burst;
      SelectorReaches(AHB_CSW);
      PerformAllAppend(DEBUG_PORT, t, setup + burst, restore[..k - |setup| - |data|]);
      MemoryKept(RunAccesses(t, setup + burst).0, restore[..k - |setup| - |data|]);
    }
  }

  lemma {:induction false} StoreWordsAppend(m: Memory, addr: u32, a: seq<u32>, b: seq<u32>)
    ensures StoreWords(m, addr, a + b) == StoreWords(StoreWords(m, addr, a), Onward(addr, |a|), b)
    decreases |a|
  {
    if a == [] {
      assert a + b == b;
    } else {
      assert (a + b)[1..] == a[1..] + b;
      StoreWordsAppend(Store(m, addr, a[0]), Add32(addr, 4), a[1..], b);
    }
  }

  lemma {:induction false} LoadWordsAppend(m: Memory, addr: u32, i: nat, j: nat)
    ensures LoadWords(m, addr, i + j) == LoadWords(m, addr, i) + LoadWords(m, Onward(addr, i), j)
    decreases i
  {
    if i > 0 {
      var first, rest := [Load(m, addr)], LoadWords(m, Add32(addr, 4), i - 1);
      LoadWordsAppend(m, Add32(addr, 4), i - 1, j);
      assert first + (rest + LoadWords(m, Onward(addr, i), j)) == first + rest + LoadWords(m, Onward(addr, i), j);
    }
  }
}
