/** The word loops kept in tools/rswdp.c as the simple form of the bulk transfers, what they do to memory. */
module WordLoop {
  import opened Words
  import opened MemAp
  import opened AhbCode
  import opened AhbSemantics
  import opened BulkCode
  import opened BulkSemantics

  const CHUNK: nat := 128

  function Writes(addr: u32, data: seq<u32>): (ops: seq<AhbOp>)
    ensures |ops| == |data|
    decreases |data|
  {
    if data == [] then [] else [AhbWrite(addr, data[0])] + Writes(Add32(addr, 4), data[1..])
  }

  function Reads(addr: u32, n: nat): (ops: seq<AhbOp>)
    ensures |ops| == n
    decreases n
  {
    if n == 0 then [] else [AhbRead(addr)] + Reads(Add32(addr, 4), n - 1)
  }

  // One transaction of queued accesses, on a target that refuses nothing.
  function Transact(t: Target, ops: seq<AhbOp>): (Target, seq<u32>) {
    Effect(t, Compile(EMPTY, ops).msgs)
  }

  // The loop of swdp_ahb_write32, 128 words to a transaction.
  function SimpleWrite32(t: Target, addr: u32, data: seq<u32>): Target
    decreases |data|
  {
    if data == [] then t
    else
      var n := if |data| > CHUNK then CHUNK else |data|;
      SimpleWrite32(Transact(t, Writes(addr, data[..n])).0, Onward(addr, n), data[n..])
  }

  function SimpleRead32(t: Target, addr: u32, count: nat): (Target, seq<u32>)
    decreases count
  {
    if count == 0 then (t, [])
    else
      var n := if count > CHUNK then CHUNK else count;
      var (t1, xs) := Transact(t, Reads(addr, n));
      var (t2, ys) := SimpleRead32(t1, Onward(addr, n), count - n);
      (t2, xs + ys)
  }

  lemma {:induction false} WritesMean(m: Memory, addr: u32, data: seq<u32>)
    requires addr % 4 == 0
    ensures Sequential(m, Writes(addr, data)) == (StoreWords(m, addr, data), [])
    decreases |data|
  {
    if data != [] {
      WritesMean(Store(m, addr, data[0]), Add32(addr, 4), data[1..]);
      assert Writes(addr, data)[1..] == Writes(Add32(addr, 4), data[1..]);
    }
  }

  lemma {:induction false} ReadsMean(m: Memory, addr: u32, n: nat)
    requires addr % 4 == 0
    ensures Sequential(m, Reads(addr, n)) == (m, LoadWords(m, addr, n))
    decreases n
  {
    if n > 0 {
      ReadsMean(m, Add32(addr, 4), n - 1);
      assert Reads(addr, n)[1..] == Reads(Add32(addr, 4), n - 1);
    }
  }

  // Consecutive words: no address is repeated.
  lemma {:induction false} WritesStep(cached: u32, addr: u32, data: seq<u32>)
    requires addr % 4 == 0 && addr != cached
    ensures NoRepeats(cached, Writes(addr, data))
    decreases |data|
  {
    if data != [] {
      var rest := Writes(Add32(addr, 4), data[1..]);
      WritesStep(addr, Add32(addr, 4), data[1..]);
      assert Writes(addr, data)[1..] == rest;
    }
  }

  lemma {:induction false} ReadsStep(cached: u32, addr: u32, n: nat)
    requires addr % 4 == 0 && addr != cached
    ensures NoRepeats(cached, Reads(addr, n))
    decreases n
  {
    if n > 0 {
      ReadsStep(addr, Add32(addr, 4), n - 1);
      assert Reads(addr, n)[1..] == Reads(Add32(addr, 4), n - 1);
    }
  }

  lemma {:induction false} OnwardAligned(addr: u32, n: nat)
    requires addr % 4 == 0
    ensures Onward(addr, n) % 4 == 0
    decreases n
  {
    if n > 0 {
      OnwardAligned(Add32(addr, 4), n - 1);
    }
  }

  // One transaction of the loop.
  lemma TransactWrites(t: Target, addr: u32, data: seq<u32>)
    requires WordSize(t.csw) && addr % 4 == 0
    ensures var t' := Transact(t, Writes(addr, data)).0;
      t'.mem == StoreWords(t.mem, addr, data) && t'.csw == t.csw
  {
    WritesMean(t.mem, addr, data);
    CompileCorrect(t, EMPTY, Writes(addr, data));
    WritesStep(UNKNOWN, addr, data);
    NoRepeatsLand(t.tar, Increments(t.csw), UNKNOWN, Writes(addr, data));
  }

  lemma TransactReads(t: Target, addr: u32, n: nat)
    requires WordSize(t.csw) && addr % 4 == 0
    ensures var (t', xs) := Transact(t, Reads(addr, n));
      xs == LoadWords(t.mem, addr, n) && t'.mem == t.mem && t'.csw == t.csw
  {
    ReadsMean(t.mem, addr, n);
    CompileCorrect(t, EMPTY, Reads(addr, n));
    ReadsStep(UNKNOWN, addr, n);
    NoRepeatsLand(t.tar, Increments(t.csw), UNKNOWN, Reads(addr, n));
  }

  /** The word loop stores exactly the data, for every aligned address and length. */
  lemma {:induction false} LoopStores(t: Target, addr: u32, data: seq<u32>)
    requires WordSize(t.csw) && addr % 4 == 0
    ensures var t' := SimpleWrite32(t, addr, data);
      t'.mem == StoreWords(t.mem, addr, data) && t'.csw == t.csw
    decreases |data|
  {
    hide Transact;
    if data != [] {
      var n := if |data| > CHUNK then CHUNK else |data|;
      TransactWrites(t, addr, data[..n]);
      OnwardAligned(addr, n);
      var t1 := Transact(t, Writes(addr, data[..n])).0;
      LoopStores(t1, Onward(addr, n), data[n..]);
      StoreWordsAppend(t.mem, addr, data[..n], data[n..]);
      assert data[..n] + data[n..] == data;
    }
  }

  /** The word loop reads exactly the memory's words. */
  lemma {:induction false} LoopLoads(t: Target, addr: u32, count: nat)
    requires WordSize(t.csw) && addr % 4 == 0
    ensures var (t', xs) := SimpleRead32(t, addr, count);
      xs == LoadWords(t.mem, addr, count) && t'.mem == t.mem && t'.csw == t.csw
    decreases count
  {
    hide Transact, LoadWords, SimpleRead32, Onward;
    SimpleReadStep(t, addr, count);
    if count > 0 {
      var n := if count > CHUNK then CHUNK else count;
      TransactReads(t, addr, n);
      OnwardAligned(addr, n);
      LoopLoads(Transact(t, Reads(addr, n)).0, Onward(addr, n), count - n);
      LoadWordsAppend(t.mem, addr, n, count - n);
    }
  }

  lemma SimpleReadStep(t: Target, addr: u32, count: nat)
    ensures count == 0 ==> SimpleRead32(t, addr, count) == (t, LoadWords(t.mem, addr, count))
    ensures count > 0 ==>
      var n := if count > CHUNK then CHUNK else count;
      var (t1, xs) := Transact(t, Reads(addr, n));
      var (t2, ys) := SimpleRead32(t1, Onward(addr, n), count - n);
      SimpleRead32(t, addr, count) == (t2, xs + ys)
  {
    hide Transact;
  }
}
