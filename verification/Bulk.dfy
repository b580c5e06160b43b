/** swdp_ahb_write32 and swdp_ahb_read32 (tools/rswdp.c), end to end: queued, sent, interpreted by the probe,
    answered and scattered, batch after batch. */
module Bulk {
  import opened Words
  import opened Rswdp
  import opened Swd
  import opened MemAp
  import opened Probe
  import opened ProbeRuns
  import opened AhbCode
  import opened BulkCode
  import opened BulkSemantics
  import opened HostTxn
  import opened Session
  import opened WordLoop

  lemma {:induction false} OnwardTwice(addr: u32, i: nat, j: nat)
    ensures Onward(Onward(addr, i), j) == Onward(addr, i + j)
    decreases i
  {
    if i > 0 {
      OnwardTwice(Add32(addr, 4), i - 1, j);
    }
  }

  lemma StoredPartExtends(m0: Memory, m1: Memory, m2: Memory, addr: u32, data: seq<u32>, i: nat, x: nat)
    requires i + x <= |data| && m1 == StoreWords(m0, addr, data[..i])
    requires StoredPart(m1, m2, Onward(addr, i), data[i..i + x])
    ensures StoredPart(m0, m2, addr, data)
  {
    var j :| 0 <= j <= x && m2 == StoreWords(m1, Onward(addr, i), data[i..i + x][..j]);
    StoreWordsAppend(m0, addr, data[..i], data[i..i + x][..j]);
    assert data[i..i + x][..j] == data[i..i + j];
    assert data[..i + j] == data[..i] + data[i..i + j];
  }

  method QueueSetup(t: Txn, addr: u32)
    requires t.Valid() && t.msgs == [] && t.cache == EMPTY && |t.tx| == 1
    modifies t
    ensures t.Queued([], Setup(addr)) && t.Armed() == old(t.Armed()) && t.rx == old(t.rx) && |t.tx| <= 9
  {
    t.QApWrite(AHB_CSW, CSW_INCREMENT);
    t.QApWrite(AHB_TAR, addr);
  }

  method QueueRestore(t: Txn, last: bool)
    requires t.Valid() && |t.tx| + 4 <= MAXWORDS
    modifies t
    ensures t.Queued(old(t.msgs), Restore(old(t.cache), last)) && t.Armed() == old(t.Armed()) && t.rx == old(t.rx)
    ensures |t.tx| <= |old(t.tx)| + 4
  {
    if last {
      t.QApWrite(AHB_CSW, CSW_PLAIN);
    }
  }

  // One round of swdp_ahb_write32, queued.
  method QueueWrites(addr: u32, data: Block, last: bool) returns (t: Txn)
    requires |data| + 14 <= MAXWORDS
    ensures fresh(t) && t.Valid() && t.Armed()
    ensures t.msgs == WriteBatch(addr, data, last) && t.rx == [] && |t.tx| <= |data| + 14
  {
    t := new Txn();
    QueueSetup(t, addr);
    t.PushMsg(Write(WR_DRW, data));
    QueueRestore(t, last);
  }

  function BatchAttempts(n: nat, last: bool): nat {
    3 + n + if last then 1 else 0
  }

  // How many words of a batch are stored, and the clock after it.
  function BatchStores(ok: nat -> bool, fate: Delivery, clock: nat, n: nat, last: bool): (j: nat)
    ensures j <= n
  {
    if fate == RequestLost then 0 else StoredCount(Acked(ok, clock, BatchAttempts(n, last)), n)
  }

  function BatchClock(ok: nat -> bool, fate: Delivery, clock: nat, n: nat, last: bool): nat {
    clock + if fate == RequestLost then 0 else Spent(ok, clock, BatchAttempts(n, last))
  }

  predicate BatchSucceeds(ok: nat -> bool, fate: Delivery, clock: nat, n: nat, last: bool) {
    fate == Delivered && Acked(ok, clock, BatchAttempts(n, last)) == BatchAttempts(n, last)
  }

  // One round of swdp_ahb_write32.
  method WriteBatchExec(link: Link, addr: u32, data: Block, last: bool) returns (r: int)
    requires link.Valid() && addr % PAGE + 4 * |data| <= PAGE && |data| + 14 <= link.maxwords
    modifies link, link.probe
    ensures link.exchanges == old(link.exchanges) + 1
    ensures r == 0 ==>
      link.Target().mem == StoreWords(old(link.Target().mem), addr, data) && link.Target().csw == ModeAfter(last)
    ensures StoredPart(old(link.Target().mem), link.Target().mem, addr, data)
    ensures BulkMode(old(link.Target().csw), link.Target().csw)
    ensures (
      var ok, fate, clock := link.probe.w.ok, link.fate(old(link.exchanges)), old(link.Clock());
      && (r == 0 <==> BatchSucceeds(ok, fate, clock, |data|, last))
      && link.Clock() == BatchClock(ok, fate, clock, |data|, last)
      && link.Target().mem
           == StoreWords(old(link.Target().mem), addr, data[..BatchStores(ok, fate, clock, |data|, last)]))
    ensures Undisturbed(link) ==> r == 0
  {
    var t := QueueWrites(addr, data, last);
    WriteBatchAccesses(addr, data, last);
    WriteBatchRoom(addr, data, last);
    ghost var d0, t0 := link.probe.State(), link.Target();
    var none := new u32[0];
    r := QExec(t, link, none);
    WriteBatchDoes(t0, addr, data, last);
    PrefixStores(t0, link.Target(), addr, data, last);
    BatchOutcome(link.probe.w, d0, link.probe.State(), link.fate(old(link.exchanges)), addr, data, last);
  }

  lemma BatchOutcome(w: Wire<Target>, d0: Dev<Target>, d1: Dev<Target>, fate: Delivery, addr: u32, data: Block,
                     last: bool)
    requires addr % PAGE + 4 * |data| <= PAGE
    requires if fate == RequestLost then d1 == d0 else RanUpTo(w, d0, d1, WriteBatch(addr, data, last))
    ensures |Accesses(WriteBatch(addr, data, last))| == BatchAttempts(|data|, last)
    ensures d1.clock == BatchClock(w.ok, fate, d0.clock, |data|, last)
    ensures d1.target.mem
         == StoreWords(d0.target.mem, addr, data[..BatchStores(w.ok, fate, d0.clock, |data|, last)])
  {
    hide Accesses, WriteBatch;
    var k := Acked(w.ok, d0.clock, |Accesses(WriteBatch(addr, data, last))|);
    WritePrefixStores(d0.target, addr, data, last, k);
  }

  // ----- which batches have to arrive -----

  // From exchange k on, count words at address at are all stored: every request arrives and its words are
  // acknowledged, and every reply arrives but for the last.
  predicate WritesLand(ok: nat -> bool, fate: nat -> Delivery, maxwords: nat, k: nat, clock: nat, at: u32, count: nat)
    requires at % 4 == 0 && 17 <= maxwords <= RX_WORDS
    decreases count
  {
    count == 0 ||
    (XferProgress(at, count, maxwords);
     OnwardAligned(at, Xfer(at, count, maxwords));
     var n := Xfer(at, count, maxwords);
     && Acked(ok, clock, 3 + n) == 3 + n
     && if n == count then fate(k) != RequestLost
        else fate(k) == Delivered
             && WritesLand(ok, fate, maxwords, k + 1, clock + 3 + n, Onward(at, n), count - n))
  }

  // The exchanges made and the clock after them.
  function WritesEnd(ok: nat -> bool, fate: nat -> Delivery, maxwords: nat, k: nat, clock: nat, at: u32, count: nat)
    : (nat, nat)
    requires at % 4 == 0 && 17 <= maxwords <= RX_WORDS
    decreases count
  {
    if count == 0 then (k, clock)
    else
      XferProgress(at, count, maxwords);
      OnwardAligned(at, Xfer(at, count, maxwords));
      var n := Xfer(at, count, maxwords);
      var after := BatchClock(ok, fate(k), clock, n, n == count);
      if BatchSucceeds(ok, fate(k), clock, n, n == count)
      then WritesEnd(ok, fate, maxwords, k + 1, after, Onward(at, n), count - n)
      else (k + 1, after)
  }

  lemma LandStep(ok: nat -> bool, fate: nat -> Delivery, maxwords: nat, k: nat, clock: nat, at: u32, count: nat)
    requires at % 4 == 0 && 17 <= maxwords <= RX_WORDS && count > 0
    ensures var n := Xfer(at, count, maxwords);
      0 < n <= count && Onward(at, n) % 4 == 0
    ensures var n := Xfer(at, count, maxwords);
      var last := n == count;
      var land := WritesLand(ok, fate, maxwords, k, clock, at, count);
      var after := BatchClock(ok, fate(k), clock, n, last);
      if BatchSucceeds(ok, fate(k), clock, n, last) then
        && BatchStores(ok, fate(k), clock, n, last) == n
        && land == WritesLand(ok, fate, maxwords, k + 1, after, Onward(at, n), count - n)
        && WritesEnd(ok, fate, maxwords, k, clock, at, count)
             == WritesEnd(ok, fate, maxwords, k + 1, after, Onward(at, n), count - n)
      else
        && (land <==> last && BatchStores(ok, fate(k), clock, n, last) == n)
        && WritesEnd(ok, fate, maxwords, k, clock, at, count) == (k + 1, after)
  {
    hide Xfer, Onward, Acked;
    var n := Xfer(at, count, maxwords);
    XferProgress(at, count, maxwords);
    OnwardAligned(at, n);
    AckedSplit(ok, clock, 3 + n, 1);
  }

  // Some first words are stored, and all of them exactly if all is true.
  ghost predicate StoredAll(m0: Memory, m1: Memory, addr: u32, data: seq<u32>, all: bool) {
    exists j :: 0 <= j <= |data| && m1 == StoreWords(m0, addr, data[..j]) && (all <==> j == |data|)
  }

  lemma BatchStoresAll(m0: Memory, m1: Memory, m2: Memory, addr: u32, data: seq<u32>, i: nat, x: nat, j: nat, all: bool)
    requires i + x <= |data| && j <= x && m1 == StoreWords(m0, addr, data[..i])
    requires m2 == StoreWords(m1, Onward(addr, i), data[i..i + x][..j]) && (all <==> i + j == |data|)
    ensures StoredAll(m0, m2, addr, data, all)
  {
    StoreWordsAppend(m0, addr, data[..i], data[i..i + x][..j]);
    assert data[i..i + x][..j] == data[i..i + j];
    assert data[..i + j] == data[..i] + data[i..i + j];
  }

  // Whether the rest of the words is stored, and where it ends.
  ghost function Plan(link: Link, at: u32, count: nat): (bool, (nat, nat))
    requires link.Valid() && at % 4 == 0 && 17 <= link.maxwords
    reads link, link.probe
  {
    var ok, fate, k, clock := link.probe.w.ok, link.fate, link.exchanges, link.Clock();
    (WritesLand(ok, fate, link.maxwords, k, clock, at, count), WritesEnd(ok, fate, link.maxwords, k, clock, at, count))
  }

  // One round of the loop of swdp_ahb_write32, with i words stored.
  method WriteRound(link: Link, addr: u32, data: seq<u32>, i: nat, at: u32, ghost m0: Memory)
    returns (xfer: nat, failed: int)
    requires link.Valid() && 17 <= link.maxwords && i < |data| && at == Onward(addr, i) && at % 4 == 0
    requires link.Target().mem == StoreWords(m0, addr, data[..i])
    modifies link, link.probe
    ensures 0 < xfer <= |data| - i && Onward(at, xfer) == Onward(addr, i + xfer) && Onward(at, xfer) % 4 == 0
    ensures StoredPart(m0, link.Target().mem, addr, data)
    ensures BulkMode(old(link.Target().csw), link.Target().csw)
    ensures failed == 0 ==>
      && link.Target().mem == StoreWords(m0, addr, data[..i + xfer])
      && link.Target().csw == ModeAfter(i + xfer == |data|)
      && Plan(link, Onward(at, xfer), |data| - i - xfer) == old(Plan(link, at, |data| - i))
    ensures failed != 0 ==>
      && StoredAll(m0, link.Target().mem, addr, data, old(Plan(link, at, |data| - i)).0)
      && (link.exchanges, link.Clock()) == old(Plan(link, at, |data| - i)).1
    ensures Undisturbed(link) ==> failed == 0
  {
    hide Xfer, BatchStores, BatchSucceeds, BatchClock, WritesLand, WritesEnd, StoredAll, StoredPart, BulkMode, Onward,
      StoreWords, Undisturbed;
    ghost var count, m1 := |data| - i, link.Target().mem;
    ghost var ok, fate, clock := link.probe.w.ok, link.fate(link.exchanges), link.Clock();
    ghost var plan := Plan(link, at, count);
    xfer := NextBatch(at, |data| - i, link.maxwords);
    LandStep(ok, link.fate, link.maxwords, link.exchanges, clock, at, count);
    ghost var stored := BatchStores(ok, fate, clock, xfer, xfer == count);
    failed := WriteBatchExec(link, at, data[i..i + xfer], xfer == |data| - i);
    StoredPartExtends(m0, m1, link.Target().mem, addr, data, i, xfer);
    OnwardTwice(addr, i, xfer);
    StoredNext(m0, addr, data, i, xfer);
    if failed != 0 {
      BatchStoresAll(m0, m1, link.Target().mem, addr, data, i, xfer, stored, plan.0);
    }
  }

  /** swdp_ahb_write32.  Success means that memory is what storing the words one at a time leaves, with
      auto-increment off again; a failure means that some first words were stored, and nothing else, but it may
      leave auto-increment on.  All words are stored, reported or not, exactly if WritesLand says so. */
  method AhbWrite32(link: Link, addr: u32, data: seq<u32>) returns (r: int)
    requires link.Valid() && addr % 4 == 0 && 17 <= link.maxwords
    modifies link, link.probe
    ensures r == 0 || r == -1
    ensures r == 0 ==> link.Target().mem == StoreWords(old(link.Target().mem), addr, data)
    ensures r == 0 ==> old(Plan(link, addr, |data|)).0
    ensures r == 0 ==> link.Target().csw == if data == [] then old(link.Target().csw) else CSW_PLAIN
    ensures r == 0 && WordSize(old(link.Target().csw)) ==>
      link.Target().mem == SimpleWrite32(old(link.Target()), addr, data).mem
    ensures StoredPart(old(link.Target().mem), link.Target().mem, addr, data)
    ensures BulkMode(old(link.Target().csw), link.Target().csw)
    ensures (link.exchanges, link.Clock()) == old(Plan(link, addr, |data|)).1
    ensures StoredAll(old(link.Target().mem), link.Target().mem, addr, data, old(Plan(link, addr, |data|)).0)
    ensures Undisturbed(link) ==> r == 0
  {
    hide Plan, StoredAll, StoredPart, Onward, Undisturbed;
    ghost var m0 := link.Target().mem;
    var at, i, count := addr, 0, |data|;
    NoneStored(m0, addr, data);
    while count > 0
      invariant count == |data| - i && i <= |data|
      invariant at == Onward(addr, i) && at % 4 == 0
      invariant link.Target().mem == StoreWords(m0, addr, data[..i])
      invariant link.Target().csw == if i == 0 then old(link.Target().csw) else ModeAfter(count == 0)
      invariant Plan(link, at, count) == old(Plan(link, addr, |data|))
    {
      var xfer, failed := WriteRound(link, addr, data, i, at, m0);
      count := count - xfer;
      if failed != 0 {
        return -1;
      }
      at := Advance(at, xfer);
      i := i + xfer;
    }
    LandsAll(link.probe.w.ok, link.fate, link.maxwords, link.exchanges, link.Clock(), at);
    AllStored(link, m0, at, addr, data);
    if WordSize(old(link.Target().csw)) {
      LoopStores(old(link.Target()), addr, data);
    }
    r := 0;
  }

  lemma NoneStored(m0: Memory, addr: u32, data: seq<u32>)
    ensures StoreWords(m0, addr, data[..0]) == m0 && Onward(addr, 0) == addr
  {
  }

  lemma AllStored(link: Link, m0: Memory, at: u32, addr: u32, data: seq<u32>)
    requires link.Valid() && at % 4 == 0 && 17 <= link.maxwords
    requires link.Target().mem == StoreWords(m0, addr, data[..|data|])
    ensures data[..|data|] == data && Plan(link, at, 0) == (true, (link.exchanges, link.Clock()))
    ensures StoredPart(m0, link.Target().mem, addr, data) && StoredAll(m0, link.Target().mem, addr, data, true)
  {
    assert data[..|data|] == data;
  }

  lemma LandsAll(ok: nat -> bool, fate: nat -> Delivery, maxwords: nat, k: nat, clock: nat, at: u32)
    requires at % 4 == 0 && 17 <= maxwords <= RX_WORDS
    ensures WritesLand(ok, fate, maxwords, k, clock, at, 0)
    ensures WritesEnd(ok, fate, maxwords, k, clock, at, 0) == (k, clock)
  {
  }

  lemma StoredNext(m0: Memory, addr: u32, data: seq<u32>, i: nat, x: nat)
    requires i + x <= |data|
    ensures StoreWords(StoreWords(m0, addr, data[..i]), Onward(addr, i), data[i..i + x]) ==
      StoreWords(m0, addr, data[..i + x])
  {
    StoreWordsAppend(m0, addr, data[..i], data[i..i + x]);
    assert data[..i] + data[i..i + x] == data[..i + x];
  }

  // The size of the next batch: at most a page, at most what fits in a transaction, and at least one word.
  method NextBatch(at: u32, count: nat, maxwords: nat) returns (xfer: nat)
    requires at % 4 == 0 && count > 0 && 17 <= maxwords <= RX_WORDS
    ensures xfer == Xfer(at, count, maxwords)
    ensures 1 <= xfer <= count && at % PAGE + 4 * xfer <= PAGE && xfer + 16 <= maxwords
  {
    xfer := Xfer(at, count, maxwords);
    XferProgress(at, count, maxwords);
  }

  method Advance(at: u32, xfer: nat) returns (next: u32)
    requires at % 4 == 0
    ensures next == Onward(at, xfer) && next % 4 == 0
  {
    OnwardAdds(at, xfer);
    next := Add32(at, xfer * 4);
  }

  // ----- reading -----

  // One round of swdp_ahb_read32, queued; the words go to consecutive places.
  method QueueReads(addr: u32, n: u16, last: bool, place: nat) returns (t: Txn)
    requires n > 0 && 17 <= MAXWORDS
    ensures fresh(t) && t.Valid() && t.Armed()
    ensures t.msgs == ReadBatch(addr, n, last) && t.rx == Places(place, n) && |t.tx| <= 16
  {
    hide Setup, Restore, Places;
    PlacesOneMore(place, n);
    t := new Txn();
    QueueSetup(t, addr);
    t.PushMsg(Discard(RD_DRW, 1));
    t.PushRead(RD_DRW, Places(place, n - 1));
    t.PushRead(RD_BUFFER, [place + n - 1]);
    QueueRestore(t, last);
  }

  lemma PlacesOneMore(from: nat, n: nat)
    requires n > 0
    ensures Places(from, n - 1) + [from + n - 1] == Places(from, n)
  {
  }

  function Places(from: nat, n: nat): (s: seq<nat>)
    ensures |s| == n
  {
    seq(n, i requires 0 <= i < n => from + i)
  }

  lemma OnlyInPlaces(was: seq<u32>, now: seq<u32>, place: nat, n: nat)
    requires OnlyAt(was, now, Places(place, n)) && place + n <= |was|
    ensures now[..place] == was[..place] && now[place + n..] == was[place + n..]
  {
  }

  lemma {:induction false} ScatterPlaces(out: seq<u32>, from: nat, words: seq<u32>)
    requires from + |words| <= |out| && Within(Places(from, |words|), |out|)
    ensures Scatter(out, Places(from, |words|), words) == out[..from] + words + out[from + |words|..]
    decreases |words|
  {
    if words != [] {
      var next := out[from := words[0]];
      assert Places(from, |words|)[1..] == Places(from + 1, |words| - 1);
      ScatterPlaces(next, from + 1, words[1..]);
      assert next[..from + 1] == out[..from] + [words[0]];
      assert next[from + |words|..] == out[from + |words|..];
      assert out[..from] + [words[0]] + words[1..] == out[..from] + words;
    }
  }

  lemma StreamRoom(n: u16)
    requires n > 0
    ensures ReplyRoom([Discard(RD_DRW, 1), Read(RD_DRW, n - 1), Read(RD_BUFFER, 1)]) == n + 2
  {
    var kick, stream, fetch := Discard(RD_DRW, 1), Read(RD_DRW, n - 1), Read(RD_BUFFER, 1);
    assert [kick, stream, fetch] == [kick] + ([stream] + [fetch]);
    ReplyRoomAppend([kick], [stream] + [fetch]);
    ReplyRoomAppend([stream], [fetch]);
    RoomOfOne(kick);
    RoomOfOne(stream);
    RoomOfOne(fetch);
  }

  lemma RoomOfOne(m: Msg)
    ensures ReplyRoom([m]) == m.ReplyRoom()
  {
    assert ReplyRoom([m]) == m.ReplyRoom() + ReplyRoom([]);
  }

  lemma ReadBatchRoom(addr: u32, n: u16, last: bool)
    requires n > 0
    ensures ReplyRoom(ReadBatch(addr, n, last)) == n + 2
  {
    var s := Setup(addr);
    var stream := [Discard(RD_DRW, 1), Read(RD_DRW, n - 1), Read(RD_BUFFER, 1)];
    NoReads(s.msgs);
    NoReads(Restore(s.cache, last).msgs);
    StreamRoom(n);
    ReplyRoomAppend(s.msgs, stream);
    ReplyRoomAppend(s.msgs + stream, Restore(s.cache, last).msgs);
  }

  // One round of swdp_ahb_read32.
  method ReadBatchExec(link: Link, addr: u32, n: u16, last: bool, out: array<u32>, place: nat) returns (r: int)
    requires link.Valid() && n > 0 && addr % PAGE + 4 * n <= PAGE && n + 16 <= link.maxwords
    requires place + n <= out.Length
    modifies link, link.probe, out
    ensures link.exchanges == old(link.exchanges) + 1
    ensures link.Target().mem == old(link.Target().mem)
    ensures r == 0 ==> link.Target().csw == ModeAfter(last)
    ensures r == 0 ==>
      out[..] == old(out[..])[..place] + LoadWords(old(link.Target().mem), addr, n) + old(out[..])[place + n..]
    ensures out[..place] == old(out[..place]) && out[place + n..] == old(out[place + n..])
    ensures Undisturbed(link) ==> r == 0
  {
    var t := QueueReads(addr, n, last, place);
    ReadBatchAccesses(addr, n, last);
    ReadBatchRoom(addr, n, last);
    ghost var t0 := link.Target();
    ghost var before := out[..];
    r := QExec(t, link, out);
    OnlyInPlaces(before, out[..], place, n);
    ReadBatchDoes(t0, addr, n, last);
    ReadPrefixKeeps(t0, link.Target(), addr, n, last);
    ScatterPlaces(before, place, LoadWords(t0.mem, addr, n));
  }

  lemma ReadPrefixKeeps(t0: Target, t1: Target, addr: u32, n: u16, last: bool)
    requires n > 0 && PrefixRan(t0, t1, ReadBatch(addr, n, last))
    ensures t1.mem == t0.mem
  {
    var accs := Accesses(ReadBatch(addr, n, last));
    var k :| 0 <= k <= |accs| && t1 == PerformAll(DEBUG_PORT, t0, accs[..k]).0;
    ReadPrefixKeepsMemory(t0, addr, n, last, k);
  }

  /** swdp_ahb_read32.  Success means that the caller's buffer holds the words, and nothing else in it changed;
      memory is never changed, whatever happens. */
  method AhbRead32(link: Link, addr: u32, out: array<u32>, count: nat) returns (r: int)
    requires link.Valid() && addr % 4 == 0 && 17 <= link.maxwords && count <= out.Length
    modifies link, link.probe, out
    ensures r == 0 || r == -1
    ensures link.Target().mem == old(link.Target().mem)
    ensures r == 0 ==> out[..] == LoadWords(old(link.Target().mem), addr, count) + old(out[..])[count..]
    ensures r == 0 ==> link.Target().csw == if count == 0 then old(link.Target().csw) else CSW_PLAIN
    ensures r == 0 && WordSize(old(link.Target().csw)) ==>
      out[..count] == SimpleRead32(old(link.Target()), addr, count).1
    ensures out[count..] == old(out[count..])
    ensures Undisturbed(link) ==> r == 0
  {
    ghost var m, before := link.Target().mem, out[..];
    var at, i, left := addr, 0, count;
    while left > 0
      invariant left == count - i && i <= count
      invariant at == Onward(addr, i) && at % 4 == 0
      invariant link.Target().mem == m
      invariant link.Target().csw == if i == 0 then old(link.Target().csw) else ModeAfter(left == 0)
      invariant out[..] == LoadWords(m, addr, i) + before[i..]
    {
      var xfer := NextBatch(at, left, link.maxwords);
      left := left - xfer;
      ghost var now := out[..];
      var failed := ReadBatchExec(link, at, xfer, left == 0, out, i);
      BehindIsKept(now, before, i, xfer, count);
      assert out[count..] == out[i + xfer..][count - i - xfer..];
      if failed != 0 {
        return -1;
      }
      LoadWordsAppend(m, addr, i, xfer);
      assert now[..i] == LoadWords(m, addr, i) && now[i + xfer..] == before[i + xfer..];
      OnwardTwice(addr, i, xfer);
      at := Advance(at, xfer);
      i := i + xfer;
    }
    if WordSize(old(link.Target().csw)) {
      LoopLoads(old(link.Target()), addr, count);
    }
    assert out[..count] == LoadWords(m, addr, count);
    assert out[count..] == before[count..];
    r := 0;
  }

  lemma BehindIsKept(now: seq<u32>, before: seq<u32>, i: nat, n: nat, count: nat)
    requires i + n <= count <= |before| == |now| && now[i..] == before[i..]
    ensures now[i + n..][count - i - n..] == before[count..]
  {
    assert now[i + n..] == now[i..][n..] == before[i..][n..];
  }

  lemma PrefixStores(t0: Target, t1: Target, addr: u32, data: Block, last: bool)
    requires addr % PAGE + 4 * |data| <= PAGE && PrefixRan(t0, t1, WriteBatch(addr, data, last))
    ensures StoredPart(t0.mem, t1.mem, addr, data) && BulkMode(t0.csw, t1.csw)
  {
    var accs := Accesses(WriteBatch(addr, data, last));
    var k :| 0 <= k <= |accs| && t1 == PerformAll(DEBUG_PORT, t0, accs[..k]).0;
    WritePrefixStores(t0, addr, data, last, k);
    BatchPrefixModes(t0, addr, data, last, k);
  }

  lemma WriteBatchRoom(addr: u32, data: Block, last: bool)
    ensures ReplyRoom(WriteBatch(addr, data, last)) == 0
  {
    NoReads(WriteBatch(addr, data, last));
  }
}
