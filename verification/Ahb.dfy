/** Queued memory accesses and the exchange that runs them: one (swdp_ahb_read, swdp_ahb_write) or several to a
    transaction. */
module Ahb {
  import opened Words
  import opened Rswdp
  import opened Swd
  import opened MemAp
  import opened Probe
  import opened ProbeRuns
  import opened AhbCode
  import opened AhbSemantics
  import opened HostTxn
  import opened Session

  // What a single access takes on the wire: SELECT, TAR, and DRW, after a read of which RDBUFF has the word.
  function Attempts(op: AhbOp): nat {
    if op.AhbWrite? then 3 else 4
  }

  lemma OpAttempts(op: AhbOp)
    requires op.addr != UNKNOWN
    ensures |Accesses(CompileOp(EMPTY, op).msgs)| == Attempts(op)
  {
    hide Accesses;
    OpMessages(EMPTY, op);
    var ms := CompileOp(EMPTY, op).msgs;
    assert forall i :: 0 <= i < |ms| - 1 ==> ms[i] == ms[..|ms| - 1][i];
    UnitAccesses(ms);
  }

  // The clock after a single access.
  function ClockAfter(ok: nat -> bool, fate: Delivery, clock: nat, op: AhbOp): nat {
    clock + if fate == RequestLost then 0 else Spent(ok, clock, Attempts(op))
  }

  // It reaches the target, and nothing of it is refused.
  predicate Arrives(ok: nat -> bool, fate: Delivery, clock: nat, op: AhbOp) {
    fate != RequestLost && Acked(ok, clock, Attempts(op)) == Attempts(op)
  }

  // One queued access, as an exchange leaves the target.
  lemma OpExchanged(w: Wire<Target>, d0: Dev<Target>, d1: Dev<Target>, op: AhbOp, fate: Delivery)
    requires WordSize(d0.target.csw) && op.addr != UNKNOWN
    requires if fate == RequestLost then d1 == d0 else RanUpTo(w, d0, d1, CompileOp(EMPTY, op).msgs)
    ensures d1.target.csw == d0.target.csw && d1.clock == ClockAfter(w.ok, fate, d0.clock, op)
    ensures var mem := d0.target.mem;
      d1.target.mem == if Arrives(w.ok, fate, d0.clock, op) then Sequential(mem, [op]).0 else mem
  {
    hide Accesses, CompileOp, Sequential;
    OpAttempts(op);
    if fate != RequestLost {
      var accs := Accesses(CompileOp(EMPTY, op).msgs);
      var k := Acked(w.ok, d0.clock, |accs|);
      FirstOpPrefix(d0.target, op, k);
    }
  }

  // swdp_ahb_write
  method AhbWriteWord(link: Link, addr: u32, value: u32) returns (r: int)
    requires link.Valid() && 17 <= link.maxwords && WordSize(link.Target().csw) && addr != UNKNOWN
    modifies link, link.probe
    ensures link.Target().csw == old(link.Target().csw) && link.exchanges == old(link.exchanges) + 1
    ensures (
      var ok, fate, clock := link.probe.w.ok, link.fate(old(link.exchanges)), old(link.Clock());
      var op, mem := AhbWrite(addr, value), old(link.Target().mem);
      && link.Clock() == ClockAfter(ok, fate, clock, op)
      && link.Target().mem == (if Arrives(ok, fate, clock, op) then Store(mem, addr, value) else mem)
      && (r == 0 <==> fate == Delivered && Arrives(ok, fate, clock, op)))
    ensures Undisturbed(link) ==> r == 0
  {
    ghost var d0, op := link.probe.State(), AhbWrite(addr, value);
    var t := new Txn();
    t.QAhbWrite(addr, value);
    assert t.msgs == CompileOp(EMPTY, op).msgs;
    FirstOpCorrect(d0.target, op);
    OpRoom(EMPTY, op);
    OpAttempts(op);
    SequentialOne(d0.target.mem, op);
    var none := new u32[0];
    r := QExec(t, link, none);
    OpExchanged(link.probe.w, d0, link.probe.State(), op, link.fate(old(link.exchanges)));
  }

  // swdp_ahb_read; the word goes to out[place].
  method AhbReadWord(link: Link, addr: u32, out: array<u32>, place: nat) returns (r: int)
    requires link.Valid() && 17 <= link.maxwords && WordSize(link.Target().csw) && addr != UNKNOWN
    requires place < out.Length
    modifies link, link.probe, out
    ensures link.Target().csw == old(link.Target().csw) && link.Target().mem == old(link.Target().mem)
    ensures link.exchanges == old(link.exchanges) + 1
    ensures r == 0 ==> out[..] == old(out[..])[place := Load(link.Target().mem, addr)]
    ensures r != 0 ==> out[place] == old(out[place]) || out[place] == READ_FAULT
    ensures forall i :: 0 <= i < out.Length && i != place ==> out[i] == old(out[i])
    ensures (
      var ok, fate, clock, op := link.probe.w.ok, link.fate(old(link.exchanges)), old(link.Clock()), AhbRead(addr);
      && link.Clock() == ClockAfter(ok, fate, clock, op)
      && (r == 0 <==> fate == Delivered && Arrives(ok, fate, clock, op)))
    ensures Undisturbed(link) ==> r == 0
  {
    ghost var d0, before, op := link.probe.State(), out[..], AhbRead(addr);
    var t := new Txn();
    t.QAhbRead(addr, place);
    assert t.msgs == CompileOp(EMPTY, op).msgs;
    FirstOpCorrect(d0.target, op);
    OpRoom(EMPTY, op);
    OpAttempts(op);
    SequentialOne(d0.target.mem, op);
    ScatterOne(before, place, Load(d0.target.mem, addr));
    ScatterOne(before, place, READ_FAULT);
    RefusedRead(link.probe.w, d0, addr);
    r := QExec(t, link, out);
    OpExchanged(link.probe.w, d0, link.probe.State(), op, link.fate(old(link.exchanges)));
  }

  // The word of a read that is refused.
  lemma RefusedRead(w: Wire<Target>, d: Dev<Target>, addr: u32)
    ensures var ms := CompileOp(EMPTY, AhbRead(addr)).msgs;
      AllAcked(w, d, ms) || WordsBack(w, d, ms) == [] || WordsBack(w, d, ms) == [READ_FAULT]
  {
    hide CompileOp, Run, AllAcked;
    OpMessages(EMPTY, AhbRead(addr));
    var ms := CompileOp(EMPTY, AhbRead(addr)).msgs;
    var front := ms[..|ms| - 1];
    assert ms == front + [Read(RD_BUFFER, 1)];
    LastReads(w, d, front, RD_BUFFER);
    OkMeansAcked(w, d, ms);
  }

  lemma OkMeansAcked(w: Wire<Target>, d: Dev<Target>, ms: seq<Msg>)
    ensures Run(w, d, ms).status == STATUS_OK ==> AllAcked(w, d, ms)
  {
    RunIsPrefix(w, d, ms);
  }

  lemma {:induction false} LastReads(w: Wire<Target>, d: Dev<Target>, front: seq<Msg>, op: ReadOp)
    requires forall i :: 0 <= i < |front| ==> !front[i].Read?
    ensures var o := Run(w, d, front + [Read(op, 1)]);
      o.status == STATUS_OK || Flat(o.blocks) == [] || Flat(o.blocks) == [READ_FAULT]
    decreases |front|
  {
    if front == [] {
      assert front + [Read(op, 1)] == [Read(op, 1)];
      OneRead(w, d, op);
    } else {
      assert (front + [Read(op, 1)])[1..] == front[1..] + [Read(op, 1)];
      var s := RunMsg(w, d, front[0]);
      assert s.blocks == [];
      LastReads(w, s.dev, front[1..], op);
      assert [] + Run(w, s.dev, front[1..] + [Read(op, 1)]).blocks == Run(w, s.dev, front[1..] + [Read(op, 1)]).blocks;
    }
  }

  lemma OneRead(w: Wire<Target>, d: Dev<Target>, op: ReadOp)
    ensures var o := Run(w, d, [Read(op, 1)]); o.status == STATUS_OK || Flat(o.blocks) == [READ_FAULT]
  {
    var m := Read(op, 1);
    var b := ReadBurst(w, d, op, 1);
    assert [m][1..] == [];
    if !b.good {
      assert b.words == [READ_FAULT] + Fill(0) == [READ_FAULT];
      var words: Block := b.words;
      assert Run(w, d, [m]).blocks == [words];
      assert Flat([words]) == words + Flat([]) == words;
    } else {
      assert Run(w, RunMsg(w, d, m).dev, []).status == STATUS_OK;
    }
  }

  lemma ScatterOne(out: seq<u32>, place: nat, x: u32)
    requires place < |out|
    ensures Within([place], |out|) && Scatter(out, [place], []) == out
    ensures Scatter(out, [place], [x]) == out[place := x]
  {
    assert [x][1..] == [];
  }

  // The reply to one queued access fits.
  lemma OpRoom(c: Cache, op: AhbOp)
    ensures ReplyRoom(CompileOp(c, op).msgs) == if op.AhbRead? then 2 else 0
  {
    OpMessages(c, op);
    var ms := CompileOp(c, op).msgs;
    var front, end := ms[..|ms| - 1], ms[|ms| - 1];
    assert ms == front + [end];
    NoReads(front);
    ReplyRoomAppend(front, [end]);
    assert ReplyRoom([end]) == end.ReplyRoom() + ReplyRoom([]);
  }

  /** What a single write and a single read are on the wire, behind the id: each header has the command, the register
      and a count of one. */
  lemma OpOnWire(addr: u32, value: u32)
    requires addr != UNKNOWN
    ensures EncodeAll(CompileOp(EMPTY, AhbWrite(addr, value)).msgs)
         == [0x0109_0001, 0, 0x0107_0001, addr, 0x010F_0001, value]
    ensures EncodeAll(CompileOp(EMPTY, AhbRead(addr)).msgs)
         == [0x0109_0001, 0, 0x0107_0001, addr, 0x030E_0001, 0x020C_0001]
  {
    hide EncodeAll;
    var select, tar := Write(WR_SELECT, [0]), Write(ApWriteOp(AHB_TAR), [addr]);
    var drw := Write(ApWriteOp(AHB_DRW), [value]);
    var kick, fetch := Discard(ApReadOp(AHB_DRW), 1), Read(RD_BUFFER, 1);
    assert CompileOp(EMPTY, AhbWrite(addr, value)).msgs == [select] + ([tar] + ([drw] + []));
    assert CompileOp(EMPTY, AhbRead(addr)).msgs == [select] + ([tar] + ([kick] + ([fetch] + [])));
    EncodeCons(drw, []);
    EncodeCons(tar, [drw] + []);
    EncodeCons(select, [tar] + ([drw] + []));
    EncodeCons(fetch, []);
    EncodeCons(kick, [fetch] + []);
    EncodeCons(tar, [kick] + ([fetch] + []));
    EncodeCons(select, [tar] + ([kick] + ([fetch] + [])));
    EncodeNone();
  }

  lemma EncodeNone()
    ensures EncodeAll([]) == []
  {
  }

  lemma EncodeCons(m: Msg, rest: seq<Msg>)
    ensures EncodeAll([m] + rest) == m.Encode() + EncodeAll(rest)
  {
    assert ([m] + rest)[1..] == rest;
  }

  // ----- several accesses to a transaction -----

  lemma {:induction false} CompileAppend(c: Cache, a: seq<AhbOp>, b: seq<AhbOp>)
    ensures var (x, y) := (Compile(c, a), Compile(Compile(c, a).cache, b));
      Compile(c, a + b) == Code(x.msgs + y.msgs, y.cache)
    decreases |a|
  {
    hide CompileOp;
    if a == [] {
      assert a + b == b;
      var y := Compile(c, b);
      assert [] + y.msgs == y.msgs;
    } else {
      assert (a + b)[1..] == a[1..] + b;
      var first := CompileOp(c, a[0]);
      CompileAppend(first.cache, a[1..], b);
    }
  }

  lemma CompileOneMore(c: Cache, ops: seq<AhbOp>, op: AhbOp)
    ensures var x := Compile(c, ops);
      var y := CompileOp(x.cache, op);
      Compile(c, ops + [op]) == Code(x.msgs + y.msgs, y.cache)
  {
    hide CompileOp;
    CompileAppend(c, ops, [op]);
    var y := CompileOp(Compile(c, ops).cache, op);
    assert [op][1..] == [] && y.msgs + [] == y.msgs;
  }

  lemma {:induction false} ListRoom(c: Cache, ops: seq<AhbOp>)
    ensures ReplyRoom(Compile(c, ops).msgs) <= 2 * |ops|
    decreases |ops|
  {
    if ops != [] {
      var first := CompileOp(c, ops[0]);
      OpRoom(c, ops[0]);
      ListRoom(first.cache, ops[1..]);
      ReplyRoomAppend(first.msgs, Compile(first.cache, ops[1..]).msgs);
    }
  }

  // Where the words go that are read.
  function ReadPlaces(ops: seq<AhbOp>, places: seq<nat>): seq<nat>
    requires |places| == |ops|
  {
    if ops == [] then [] else (if ops[0].AhbRead? then [places[0]] else []) + ReadPlaces(ops[1..], places[1..])
  }

  lemma {:induction false} ReadPlacesOneMore(ops: seq<AhbOp>, places: seq<nat>, op: AhbOp, place: nat)
    requires |places| == |ops|
    ensures ReadPlaces(ops + [op], places + [place])
         == ReadPlaces(ops, places) + if op.AhbRead? then [place] else []
    decreases |ops|
  {
    if ops == [] {
      assert [op][1..] == [] && [place][1..] == [];
    } else {
      assert (ops + [op])[1..] == ops[1..] + [op] && (places + [place])[1..] == places[1..] + [place];
      ReadPlacesOneMore(ops[1..], places[1..], op, place);
    }
  }

  lemma LengthOfOne(m: Msg)
    ensures |EncodeAll([m])| == 1 + |m.Payload()|
  {
    assert EncodeAll([m]) == m.Encode() + EncodeAll([]);
  }

  // A queued access takes four words, and two more to select the access port.
  lemma OpLength(c: Cache, op: AhbOp)
    ensures |EncodeAll(CompileOp(c, op).msgs)| <= 4 + if c.apaddr == 0 then 0 else 2
    ensures CompileOp(c, op).cache.apaddr == 0
  {
    SelectorReaches(AHB_TAR);
    SelectorReaches(AHB_DRW);
    var s := SetTar(c, op.addr);
    var select := if c.apaddr == 0 then [] else [Write(WR_SELECT, [0])];
    var tar := if c.ahbtar == op.addr then [] else [Write(ApWriteOp(AHB_TAR), [op.addr])];
    var drw := if op.AhbWrite? then [Write(ApWriteOp(AHB_DRW), [op.value])]
               else [Discard(ApReadOp(AHB_DRW), 1)] + [Read(RD_BUFFER, 1)];
    assert CompileOp(c, op).msgs == if tar == [] then select + drw else select + tar + drw;
    EncodeAllAppend(select, drw);
    EncodeAllAppend(select, tar);
    EncodeAllAppend(select + tar, drw);
    LengthOfOne(Write(WR_SELECT, [0]));
    LengthOfOne(Write(ApWriteOp(AHB_TAR), [op.addr]));
    if op.AhbWrite? {
      LengthOfOne(Write(ApWriteOp(AHB_DRW), [op.value]));
    } else {
      EncodeAllAppend([Discard(ApReadOp(AHB_DRW), 1)], [Read(RD_BUFFER, 1)]);
      LengthOfOne(Discard(ApReadOp(AHB_DRW), 1));
      LengthOfOne(Read(RD_BUFFER, 1));
    }
  }

  lemma {:induction false} ListLength(c: Cache, ops: seq<AhbOp>)
    ensures |EncodeAll(Compile(c, ops).msgs)| <= 4 * |ops| + if c.apaddr == 0 then 0 else 2
    decreases |ops|
  {
    hide CompileOp;
    if ops != [] {
      var first := CompileOp(c, ops[0]);
      OpLength(c, ops[0]);
      ListLength(first.cache, ops[1..]);
      EncodeAllAppend(first.msgs, Compile(first.cache, ops[1..]).msgs);
    }
  }

  // q_ahb_read and q_ahb_write, one after the other.
  method QueueAll(t: Txn, ops: seq<AhbOp>, places: seq<nat>)
    requires t.Valid() && |t.tx| == 1 && t.msgs == [] && t.rx == [] && t.cache == EMPTY
    requires |places| == |ops| && 4 * |ops| + 3 <= RX_WORDS
    modifies t`tx, t`rx, t`msgs, t`cache
    ensures t.Valid() && |t.tx| <= 4 * |ops| + 3
    ensures t.msgs == Compile(EMPTY, ops).msgs && t.rx == ReadPlaces(ops, places)
  {
    hide CompileOp;
    var i := 0;
    while i < |ops|
      invariant 0 <= i <= |ops| && t.Valid() && |t.tx| <= 4 * i + 3
      invariant t.msgs == Compile(EMPTY, ops[..i]).msgs && t.cache == Compile(EMPTY, ops[..i]).cache
      invariant t.rx == ReadPlaces(ops[..i], places[..i])
    {
      CompileOneMore(EMPTY, ops[..i], ops[i]);
      ReadPlacesOneMore(ops[..i], places[..i], ops[i], places[i]);
      assert ops[..i] + [ops[i]] == ops[..i + 1] && places[..i] + [places[i]] == places[..i + 1];
      match ops[i] {
        case AhbWrite(addr, value) => t.QAhbWrite(addr, value);
        case AhbRead(addr) => t.QAhbRead(addr, places[i]);
      }
      i := i + 1;
      ListLength(EMPTY, ops[..i]);
    }
    assert ops[..i] == ops && places[..i] == places;
  }

  lemma ListExchanged(t0: Target, t1: Target, ops: seq<AhbOp>)
    requires WordSize(t0.csw) && PrefixRan(t0, t1, Compile(EMPTY, ops).msgs)
    ensures t1.csw == t0.csw && RanSome(t0.mem, t1.mem, Meant(t0, EMPTY, ops))
  {
    var accs := Accesses(Compile(EMPTY, ops).msgs);
    var k :| 0 <= k <= |accs| && t1 == PerformAll(DEBUG_PORT, t0, accs[..k]).0;
    CompilePrefix(t0, EMPTY, ops, k);
  }

  /** A transaction of several accesses, as swdp_core_read_all and swdp_watchpoint queue them: on success memory and
      the caller's words are as after the accesses one by one; otherwise some first accesses were done. */
  method AhbAccesses(link: Link, ops: seq<AhbOp>, out: array<u32>, places: seq<nat>) returns (r: int)
    requires link.Valid() && 4 * |ops| + 3 <= link.maxwords && WordSize(link.Target().csw)
    requires |places| == |ops| && Within(ReadPlaces(ops, places), out.Length)
    modifies link, link.probe, out
    ensures link.Target().csw == old(link.Target().csw)
    ensures (
      var meant := Meant(old(link.Target()), EMPTY, ops);
      var (mem, xs) := Sequential(old(link.Target()).mem, meant);
      && (r == 0 ==> link.Target().mem == mem)
      && (r == 0 ==> |xs| == |ReadPlaces(ops, places)|
                     && out[..] == Scatter(old(out[..]), ReadPlaces(ops, places), xs))
      && RanSome(old(link.Target()).mem, link.Target().mem, meant))
    ensures OnlyAt(old(out[..]), out[..], ReadPlaces(ops, places))
    ensures Undisturbed(link) ==> r == 0
  {
    hide ReadPlaces, Compile, Meant, Sequential;
    ghost var t0 := link.Target();
    var t := new Txn();
    QueueAll(t, ops, places);
    CompileCorrect(t0, EMPTY, ops);
    ListRoom(EMPTY, ops);
    r := QExec(t, link, out);
    ListExchanged(t0, link.Target(), ops);
  }
}
