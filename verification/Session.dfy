/** One exchange between host and probe (q_exec). */
module Session {
  import opened Words
  import opened Rswdp
  import opened Swd
  import opened MemAp
  import opened Probe
  import opened ProbeRuns
  import opened AhbSemantics
  import opened HostTxn
  import opened UsbFraming

  // What the USB link does with an exchange.  A lost reply also stands for a disconnect after the request.
  datatype Delivery = Delivered | RequestLost | ReplyLost

  // The largest transaction the probe's buffer takes.
  const RX_WORDS: nat := 512

  class Link {
    const probe: M3Debug<Target>
    const fate: nat -> Delivery
    // swd_maxwords: the probe's buffer, as the host knows it.
    const maxwords: nat
    var exchanges: nat
    var sequence: u16

    constructor (probe: M3Debug<Target>, fate: nat -> Delivery, maxwords: nat)
      requires probe.w.bus == DEBUG_PORT && maxwords <= RX_WORDS
      ensures this.probe == probe && this.fate == fate && this.maxwords == maxwords && exchanges == 0 && Valid()
    {
      this.probe, this.fate, this.maxwords := probe, fate, maxwords;
      exchanges, sequence := 0, 1;
    }

    ghost predicate Valid() {
      probe.w.bus == DEBUG_PORT && maxwords <= RX_WORDS
    }

    ghost function Target(): Target
      reads this, probe
    {
      probe.target
    }

    // Accesses attempted so far.
    ghost function Clock(): nat
      reads this, probe
    {
      probe.clock
    }
  }

  // A NULL message is added unless the transaction is exactly as long as the probe's buffer.
  function PadMsgs(ms: seq<Msg>, words: nat, maxwords: nat): seq<Msg> {
    if words % 16 == 0 && words != maxwords then ms + [Null] else ms
  }

  // The target is in the state some first accesses of the messages put it in.
  ghost predicate PrefixRan(t0: Target, t1: Target, ms: seq<Msg>) {
    exists k :: 0 <= k <= |Accesses(ms)| && t1 == PerformAll(DEBUG_PORT, t0, Accesses(ms)[..k]).0
  }

  // The probe has run the messages up to the first refusal.
  ghost predicate RanUpTo(w: Wire<Target>, d0: Dev<Target>, d1: Dev<Target>, ms: seq<Msg>) {
    var accs := Accesses(ms);
    var k := Acked(w.ok, d0.clock, |accs|);
    d1 == Dev(PerformAll(DEBUG_PORT, d0.target, accs[..k]).0, d0.clock + Spent(w.ok, d0.clock, |accs|))
  }

  // The words that come back; fill stands for those behind a refusal.
  function WordsBack(w: Wire<Target>, d: Dev<Target>, ms: seq<Msg>): seq<u32> {
    Flat(Run(w, d, ms).blocks)
  }

  // All accesses are acknowledged.
  ghost predicate AllAcked(w: Wire<Target>, d: Dev<Target>, ms: seq<Msg>) {
    Acked(w.ok, d.clock, |Accesses(ms)|) == |Accesses(ms)|
  }

  // The transaction goes out with the id of the next sequence number.
  ghost predicate SentNext(t: Txn, was: u16, now: u16)
    reads t
  {
    t.tx != [] && t.tx[0] == TxnStart(was) && now == (was + 1) % 0x1_0000
  }

  // Padding and the id word; what the probe's buffer holds afterwards is what was sent.
  method Prepare(t: Txn, link: Link, ghost ms: seq<Msg>)
    requires link.Valid() && t.Valid() && |t.tx| <= link.maxwords && ms == PadMsgs(t.msgs, |t.tx|, link.maxwords)
    modifies t, link`sequence
    ensures t.tx != [] && Parses(t.tx, 1, ms) && t.rx == old(t.rx)
    ensures Carried(t.tx, link.maxwords) == t.tx
    ensures SentNext(t, old(link.sequence), link.sequence)
  {
    hide Parses, Carried;
    if |t.tx| % 16 == 0 && |t.tx| != link.maxwords {
      t.PushMsg(Null);
    }
    var id := TxnStart(link.sequence);
    link.sequence := (link.sequence + 1) % 0x1_0000;
    ghost var body := t.tx[1..];
    assert body == EncodeAll(ms);
    t.tx := [id] + t.tx[1..];
    assert t.tx == [id] + body;
    EncodingParses([id], ms);
    CarriedIntact(t.tx, link.maxwords);
  }

  // Both transfers as the packets carry them, the probe's work, and reading the reply.
  method Exchange(t: Txn, link: Link, out: array<u32>, ghost ms: seq<Msg>) returns (r: int)
    requires link.Valid() && t.Valid() && |t.tx| <= link.maxwords && ReplyRoom(t.msgs) + 3 <= TX_WORDS
    requires Within(t.rx, out.Length) && ms == PadMsgs(t.msgs, |t.tx|, link.maxwords)
    modifies t, out, link, link.probe
    ensures link.exchanges == old(link.exchanges) + 1 && SentNext(t, old(link.sequence), link.sequence)
    ensures link.fate(old(link.exchanges)) == Delivered ==> link.probe.tx != [] && link.probe.tx[0] == t.tx[0]
    ensures var d := old(link.probe.State());
      var o := Run(link.probe.w, d, ms);
      match link.fate(old(link.exchanges))
      case RequestLost => r == -1 && link.probe.State() == d && out[..] == old(out[..])
      case ReplyLost => r == -1 && link.probe.State() == o.dev && out[..] == old(out[..])
      case Delivered =>
        link.probe.State() == o.dev && (out[..], r) == Deliver(old(out[..]), old(t.rx), ItemsOf(o))
  {
    PadRoom(t.msgs);
    Prepare(t, link, ms);
    var fate := link.fate(link.exchanges);
    link.exchanges := link.exchanges + 1;
    if fate == RequestLost {
      return -1;
    }
    ghost var o := Run(link.probe.w, link.probe.State(), ms);
    link.probe.ProcessTxn(Carried(t.tx, link.maxwords), ms);
    if fate == ReplyLost {
      return -1;
    }
    ReplyReadsBack(t.tx[0], o);
    ReplyCarried(t.tx[0], o);
    r := ProcessReply(t.rx, Carried(link.probe.tx, MAXWORDS), out, ItemsOf(o));
  }

  /** q_exec.  The caller's buffer is out.  Zero means that everything ran and every result is in its place;
      otherwise some first part ran: nothing when the request was lost, and the accesses up to the first refusal when
      it was not.  Only the words asked for can change, and none without a reply. */
  method QExec(t: Txn, link: Link, out: array<u32>) returns (r: int)
    requires link.Valid() && t.Valid() && t.Armed() && |t.tx| <= link.maxwords && ReplyRoom(t.msgs) + 3 <= TX_WORDS
    requires NoUnknown(t.msgs) && Within(t.rx, out.Length)
    modifies t, out, link, link.probe
    ensures link.exchanges == old(link.exchanges) + 1 && SentNext(t, old(link.sequence), link.sequence)
    ensures link.fate(old(link.exchanges)) == Delivered ==> link.probe.tx != [] && link.probe.tx[0] == t.tx[0]
    ensures (r == 0) == (link.fate(old(link.exchanges)) == Delivered
                         && AllAcked(link.probe.w, old(link.probe.State()), old(t.msgs)))
    ensures r == 0 ==> var (t1, xs) := Effect(old(link.Target()), old(t.msgs));
      link.Target() == t1 && |xs| == |old(t.rx)| && out[..] == Scatter(old(out[..]), old(t.rx), xs)
    ensures PrefixRan(old(link.Target()), link.Target(), old(t.msgs))
    ensures if link.fate(old(link.exchanges)) == RequestLost then link.probe.State() == old(link.probe.State())
            else RanUpTo(link.probe.w, old(link.probe.State()), link.probe.State(), old(t.msgs))
    ensures (
      var words := WordsBack(link.probe.w, old(link.probe.State()), old(t.msgs));
      if link.fate(old(link.exchanges)) != Delivered then out[..] == old(out[..])
      else |words| <= |old(t.rx)| && out[..] == Scatter(old(out[..]), old(t.rx), words))
    ensures OnlyAt(old(out[..]), out[..], old(t.rx))
  {
    ghost var d, sent := link.probe.State(), t.msgs;
    ghost var ms := PadMsgs(sent, |t.tx|, link.maxwords);
    DeliverOnlyAt(out[..], t.rx, ItemsOf(Run(link.probe.w, d, ms)));
    Exchanged(link.probe.w, d, sent, ms, out[..], t.rx);
    NothingRan(d.target, sent);
    t.magic := 0;
    r := Exchange(t, link, out, ms);
  }

  lemma NothingRan(t: Target, ms: seq<Msg>)
    ensures PrefixRan(t, t, ms)
  {
    assert Accesses(ms)[..0] == [];
    assert t == PerformAll(DEBUG_PORT, t, Accesses(ms)[..0]).0;
  }

  // What an exchange that got through means, in terms of the accesses.
  lemma Exchanged(w: Wire<Target>, d: Dev<Target>, sent: seq<Msg>, ms: seq<Msg>, out: seq<u32>, slots: seq<nat>)
    requires w.bus == DEBUG_PORT && NoUnknown(sent) && (ms == sent || ms == sent + [Null])
    requires |slots| == ReadTotal(sent) && Within(slots, |out|)
    ensures var o := Run(w, d, ms);
      var (out', r) := Deliver(out, slots, ItemsOf(o));
      var (t', xs) := Effect(d.target, sent);
      && ((r == 0) == AllAcked(w, d, sent))
      && (r == 0 ==> o.dev.target == t' && |xs| == |slots| && out' == Scatter(out, slots, xs))
      && PrefixRan(d.target, o.dev.target, sent) && RanUpTo(w, d, o.dev, sent)
      && |WordsBack(w, d, sent)| <= |slots| && out' == Scatter(out, slots, WordsBack(w, d, sent))
  {
    SameWords(w, d, sent, ms);
    ExchangePrefix(w, d, sent, ms);
    ExchangeSucceeds(w, d, sent, ms);
    var o := Run(w, d, ms);
    DeliverBlocks(out, slots, o.blocks, Status(o.status, o.count % 0x1_0000));
  }

  lemma ExchangePrefix(w: Wire<Target>, d: Dev<Target>, sent: seq<Msg>, ms: seq<Msg>)
    requires w.bus == DEBUG_PORT && NoUnknown(sent) && (ms == sent || ms == sent + [Null])
    ensures PrefixRan(d.target, Run(w, d, ms).dev.target, sent) && RanUpTo(w, d, Run(w, d, ms).dev, sent)
  {
    PaddingIsHarmless(sent, ms);
    RunIsPrefix(w, d, ms);
    var k := Acked(w.ok, d.clock, |Accesses(sent)|);
    assert Run(w, d, ms).dev.target == PerformAll(DEBUG_PORT, d.target, Accesses(sent)[..k]).0;
  }

  lemma ExchangeSucceeds(w: Wire<Target>, d: Dev<Target>, sent: seq<Msg>, ms: seq<Msg>)
    requires w.bus == DEBUG_PORT && NoUnknown(sent) && (ms == sent || ms == sent + [Null])
    ensures var o, e := Run(w, d, ms), Effect(d.target, sent);
      && (o.status == STATUS_OK) == AllAcked(w, d, sent)
      && |Flat(o.blocks)| <= ReadTotal(sent)
      && (o.status == STATUS_OK ==> o.dev.target == e.0 && Flat(o.blocks) == e.1 && |e.1| == ReadTotal(sent))
  {
    PaddingIsHarmless(sent, ms);
    RunIsPrefix(w, d, ms);
    assert Accesses(sent)[..|Accesses(sent)|] == Accesses(sent);
  }

  lemma SameWords(w: Wire<Target>, d: Dev<Target>, sent: seq<Msg>, ms: seq<Msg>)
    requires ms == sent || ms == sent + [Null]
    ensures WordsBack(w, d, ms) == WordsBack(w, d, sent)
  {
    NullRuns(w, d, sent);
  }

  lemma {:induction false} NullRuns(w: Wire<Target>, d: Dev<Target>, ms: seq<Msg>)
    ensures Run(w, d, ms + [Null]).blocks == Run(w, d, ms).blocks
    decreases |ms|
  {
    hide RunMsg;
    if ms == [] {
      assert ms + [Null] == [Null] && [Null][1..] == [];
      NullRun(w, d);
    } else {
      assert (ms + [Null])[1..] == ms[1..] + [Null];
      NullRuns(w, RunMsg(w, d, ms[0]).dev, ms[1..]);
    }
  }

  lemma NullRun(w: Wire<Target>, d: Dev<Target>)
    ensures Run(w, d, [Null]).blocks == []
  {
    assert [Null][1..] == [];
  }

  lemma PaddingIsHarmless(sent: seq<Msg>, ms: seq<Msg>)
    requires NoUnknown(sent) && (ms == sent || ms == sent + [Null])
    ensures Accesses(ms) == Accesses(sent) && ReadTotal(ms) == ReadTotal(sent) && !HasUnknown(ms)
  {
    AccessesAppend(sent, [Null]);
    ReadTotalAppend(sent, [Null]);
    assert Accesses([Null]) == [] + Accesses([]) && ReadTotal([Null]) == 0 + ReadTotal([]);
    assert Accesses(sent) + [] == Accesses(sent);
  }

  lemma PadRoom(ms: seq<Msg>)
    ensures ReplyRoom(ms + [Null]) == ReplyRoom(ms)
  {
    ReplyRoomAppend(ms, [Null]);
    assert ReplyRoom([Null]) == 0 + ReplyRoom([]);
  }

  lemma {:induction false} ReplyRoomAppend(a: seq<Msg>, b: seq<Msg>)
    ensures ReplyRoom(a + b) == ReplyRoom(a) + ReplyRoom(b)
  {
    if a == [] {
      assert a + b == b;
    } else {
      assert (a + b)[1..] == a[1..] + b;
      ReplyRoomAppend(a[1..], b);
    }
  }

  // Nothing is ever lost or refused.
  ghost predicate Undisturbed(link: Link) {
    (forall i :: link.fate(i) == Delivered) && (forall i :: link.probe.w.ok(i))
  }

  lemma {:induction false} NoReads(ms: seq<Msg>)
    requires forall i :: 0 <= i < |ms| ==> !ms[i].Read?
    ensures ReplyRoom(ms) == 0
  {
    if ms != [] {
      NoReads(ms[1..]);
    }
  }
}
