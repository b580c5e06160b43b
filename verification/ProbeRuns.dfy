/** What a transaction does to the target, whatever pattern of acknowledgements the target gives: the
    accesses the messages ask for are performed in order, up to the first refused one. */
module ProbeRuns {
  import opened Words
  import opened Rswdp
  import opened Swd
  import opened Probe

  function WriteAccesses(op: nat, data: seq<u32>): (r: seq<Access>)
    ensures |r| == |data|
  {
    if data == [] then [] else [Wr(op, data[0])] + WriteAccesses(op, data[1..])
  }

  function ReadAccesses(op: nat, n: nat, keep: bool): (r: seq<Access>)
    ensures |r| == n
  {
    if n == 0 then [] else [Rd(op, keep)] + ReadAccesses(op, n - 1, keep)
  }

  function AccessesOf(m: Msg): seq<Access> {
    match m
    case Write(op, data) => WriteAccesses(op, data)
    case Read(op, n) => ReadAccesses(op, n, true)
    case Discard(op, n) => ReadAccesses(op, n, false)
    case _ => []
  }

  // The accesses of a transaction; nothing after an unknown message is executed.
  function Accesses(ms: seq<Msg>): seq<Access> {
    if ms == [] || ms[0].Unknown? then [] else AccessesOf(ms[0]) + Accesses(ms[1..])
  }

  predicate HasUnknown(ms: seq<Msg>) {
    exists i :: 0 <= i < |ms| && ms[i].Unknown?
  }

  // Data words the messages ask for.
  function ReadTotal(ms: seq<Msg>): nat {
    if ms == [] then 0 else (if ms[0].Read? then ms[0].n else 0) + ReadTotal(ms[1..])
  }

  // How many of the next n accesses are acknowledged before the first refusal.
  function Acked(ok: nat -> bool, clock: nat, n: nat): (k: nat)
    ensures k <= n
    ensures forall i :: clock <= i < clock + k ==> ok(i)
    ensures k < n ==> !ok(clock + k)
    decreases n
  {
    if n == 0 || !ok(clock) then 0 else 1 + Acked(ok, clock + 1, n - 1)
  }

  // How many accesses are attempted of n: up to the first refusal, and that one too.
  function Spent(ok: nat -> bool, clock: nat, n: nat): nat {
    var k := Acked(ok, clock, n);
    if k == n then n else k + 1
  }

  lemma AckedSplit(ok: nat -> bool, clock: nat, m: nat, n: nat)
    ensures Acked(ok, clock, m + n) ==
      if Acked(ok, clock, m) < m then Acked(ok, clock, m) else m + Acked(ok, clock + m, n)
    decreases m
  {
    if m > 0 && ok(clock) {
      AckedSplit(ok, clock + 1, m - 1, n);
    }
  }

  lemma TakeCons<A>(x: A, s: seq<A>, k: nat)
    requires k <= |s|
    ensures ([x] + s)[..k + 1] == [x] + s[..k]
  {
  }

  // A run that starts with access a, which is acknowledged.
  lemma PerformCons<T>(bus: Bus<T>, t: T, a: Access, rest: seq<Access>)
    ensures var (t1, xs) := Perform(bus, t, a);
      var (t2, ys) := PerformAll(bus, t1, rest);
      PerformAll(bus, t, [a] + rest) == (t2, xs + ys)
  {
    assert ([a] + rest)[1..] == rest;
  }

  lemma {:induction false} WriteBurstRuns<T>(w: Wire<T>, d: Dev<T>, op: nat, data: seq<u32>)
    ensures var b, accs, k := WriteBurst(w, d, op, data), WriteAccesses(op, data), Acked(w.ok, d.clock, |data|);
      && b.dev.target == PerformAll(w.bus, d.target, accs[..k]).0
      && PerformAll(w.bus, d.target, accs[..k]).1 == []
      && b.good == (k == |data|)
      && b.dev.clock == d.clock + Spent(w.ok, d.clock, |data|)
    decreases |data|
  {
    if data != [] && w.ok(d.clock) {
      var d1 := Dev(w.bus.write(d.target, op, data[0]), d.clock + 1);
      var k, rest := Acked(w.ok, d1.clock, |data| - 1), WriteAccesses(op, data[1..]);
      WriteBurstRuns(w, d1, op, data[1..]);
      TakeCons(Wr(op, data[0]), rest, k);
      PerformCons(w.bus, d.target, Wr(op, data[0]), rest[..k]);
    }
  }

  lemma {:induction false} ReadBurstRuns<T>(w: Wire<T>, d: Dev<T>, op: nat, n: nat, keep: bool)
    ensures var b, accs, k := ReadBurst(w, d, op, n), ReadAccesses(op, n, keep), Acked(w.ok, d.clock, n);
      && b.dev.target == PerformAll(w.bus, d.target, accs[..k]).0
      && PerformAll(w.bus, d.target, accs[..k]).1 == (if keep then b.words[..k] else [])
      && b.good == (k == n)
      && b.dev.clock == d.clock + Spent(w.ok, d.clock, n)
    decreases n
  {
    hide Acked;
    if n > 0 && w.ok(d.clock) {
      var (t, x) := w.bus.read(d.target, op);
      var d1 := Dev(t, d.clock + 1);
      var k, rest := Acked(w.ok, d1.clock, n - 1), ReadAccesses(op, n - 1, keep);
      ReadBurstRuns(w, d1, op, n - 1, keep);
      TakeCons(Rd(op, keep), rest, k);
      PerformCons(w.bus, d.target, Rd(op, keep), rest[..k]);
      TakeCons(x, ReadBurst(w, d1, op, n - 1).words, k);
    }
  }

  // One message: its accesses up to the first refusal, and the data words read, if nothing was refused.
  lemma MsgRuns<T>(w: Wire<T>, d: Dev<T>, m: Msg)
    requires !m.Unknown?
    ensures var s, accs, k := RunMsg(w, d, m), AccessesOf(m), Acked(w.ok, d.clock, |AccessesOf(m)|);
      && s.dev.target == PerformAll(w.bus, d.target, accs[..k]).0
      && s.status == (if k == |accs| then STATUS_OK else STATUS_IO)
      && s.dev.clock == d.clock + Spent(w.ok, d.clock, |accs|)
      && |Flat(s.blocks)| == (if m.Read? then m.n else 0)
      && (k == |accs| ==> Flat(s.blocks) == PerformAll(w.bus, d.target, accs).1)
  {
    var k := Acked(w.ok, d.clock, |AccessesOf(m)|);
    match m
    case Write(op, data) =>
      WriteBurstRuns(w, d, op, data);
      assert k == |data| ==> WriteAccesses(op, data)[..k] == WriteAccesses(op, data);
    case Read(op, n) =>
      ReadBurstRuns(w, d, op, n, true);
      assert k == n ==> ReadAccesses(op, n, true)[..k] == ReadAccesses(op, n, true);
      var words: Block := ReadBurst(w, d, op, n).words;
      assert words[..n] == words;
      assert Flat([words]) == words + Flat([]) == words;
    case Discard(op, n) =>
      ReadBurstRuns(w, d, op, n, false);
      assert k == n ==> ReadAccesses(op, n, false)[..k] == ReadAccesses(op, n, false);
    case _ =>
  }

  lemma {:induction false} FlatAppend(a: seq<Block>, b: seq<Block>)
    ensures Flat(a + b) == Flat(a) + Flat(b)
  {
    if a == [] {
      assert a + b == b;
    } else {
      assert (a + b)[1..] == a[1..] + b;
      FlatAppend(a[1..], b);
    }
  }

  ghost predicate RunsPrefix<T>(w: Wire<T>, d: Dev<T>, ms: seq<Msg>) {
    var o, accs := Run(w, d, ms), Accesses(ms);
    var k := Acked(w.ok, d.clock, |accs|);
    && o.dev == Dev(PerformAll(w.bus, d.target, accs[..k]).0, d.clock + Spent(w.ok, d.clock, |accs|))
    && o.status == (if k < |accs| then STATUS_IO else if HasUnknown(ms) then STATUS_UNKNOWN else STATUS_OK)
    && |Flat(o.blocks)| <= ReadTotal(ms)
    && (o.status == STATUS_OK ==>
          Flat(o.blocks) == PerformAll(w.bus, d.target, accs).1 && |Flat(o.blocks)| == ReadTotal(ms))
  }

  /** Every transaction, under every pattern of acknowledgements: the target ends in the state that the first
      k accesses put it in, where k is the position of the first refusal; the status tells which case it is;
      and the data words returned are the words those accesses read. */
  lemma {:induction false} RunIsPrefix<T>(w: Wire<T>, d: Dev<T>, ms: seq<Msg>)
    ensures RunsPrefix(w, d, ms)
    decreases |ms|
  {
    if ms != [] && !ms[0].Unknown? {
      var s := RunMsg(w, d, ms[0]);
      MsgRuns(w, d, ms[0]);
      AckedSplit(w.ok, d.clock, |AccessesOf(ms[0])|, |Accesses(ms[1..])|);
      if s.status != STATUS_OK {
        TakeAppend(AccessesOf(ms[0]), Accesses(ms[1..]), Acked(w.ok, d.clock, |AccessesOf(ms[0])|));
      } else {
        RunIsPrefix(w, s.dev, ms[1..]);
        PrefixExtends(w, d, ms);
      }
    }
  }

  /** The number in the status is that of the messages run, the one that failed included. */
  lemma {:induction false} StatusCounts<T>(w: Wire<T>, d: Dev<T>, ms: seq<Msg>)
    ensures var o := Run(w, d, ms);
      if o.status == STATUS_OK then o.count == |ms|
      else
        && 1 <= o.count <= |ms|
        && Run(w, d, ms[..o.count - 1]).status == STATUS_OK
        && Run(w, d, ms[..o.count]).status == o.status
    decreases |ms|
  {
    hide RunMsg;
    if ms != [] {
      var s := RunMsg(w, d, ms[0]);
      if s.status == STATUS_OK {
        StatusCounts(w, s.dev, ms[1..]);
        var n := Run(w, s.dev, ms[1..]).count;
        assert n > 0 ==> ms[..n][1..] == ms[1..][..n - 1];
        assert n < |ms| ==> ms[..n + 1][1..] == ms[1..][..n];
      } else {
        assert ms[..1] == [ms[0]];
      }
    }
  }

  /** A burst of reads that is refused sends back what was read before, all ones for the refused word, and fill for the
      words behind it. */
  lemma {:induction false} RefusedWords<T>(w: Wire<T>, d: Dev<T>, op: nat, n: nat)
    ensures var words, k := ReadBurst(w, d, op, n).words, Acked(w.ok, d.clock, n);
      k < n ==> words[k] == 0xFFFF_FFFF && forall i :: k < i < n ==> words[i] == 0xFEFE_FEFE
    decreases n
  {
    if n > 0 && w.ok(d.clock) {
      var (t, x) := w.bus.read(d.target, op);
      RefusedWords(w, Dev(t, d.clock + 1), op, n - 1);
    }
  }

  lemma TakeAppend<A>(a: seq<A>, b: seq<A>, k: nat)
    requires k <= |a| + |b|
    ensures (a + b)[..k] == if k <= |a| then a[..k] else a + b[..k - |a|]
    ensures k == |a| ==> (a + b)[..k] == a + b[..0]
  {
  }

  lemma RunCons<T>(w: Wire<T>, d: Dev<T>, ms: seq<Msg>)
    requires ms != [] && !ms[0].Unknown? && RunMsg(w, d, ms[0]).status == STATUS_OK
    ensures var s := RunMsg(w, d, ms[0]); Run(w, d, ms) == After(s.blocks, 1, Run(w, s.dev, ms[1..]))
    ensures Accesses(ms) == AccessesOf(ms[0]) + Accesses(ms[1..])
    ensures ReadTotal(ms) == (if ms[0].Read? then ms[0].n else 0) + ReadTotal(ms[1..])
  {
  }

  // A transaction whose first message succeeds, given that the theorem holds of the others.
  lemma PrefixExtends<T>(w: Wire<T>, d: Dev<T>, ms: seq<Msg>)
    requires ms != [] && !ms[0].Unknown? && RunMsg(w, d, ms[0]).status == STATUS_OK
    requires RunsPrefix(w, RunMsg(w, d, ms[0]).dev, ms[1..])
    ensures RunsPrefix(w, d, ms)
  {
    hide AccessesOf, RunMsg, HasUnknown, Acked, PerformAll, Run, Accesses, ReadTotal, Flat;
    RunCons(w, d, ms);
    var s := RunMsg(w, d, ms[0]);
    var a, b := AccessesOf(ms[0]), Accesses(ms[1..]);
    MsgRuns(w, d, ms[0]);
    assert a[..|a|] == a;
    var j := Acked(w.ok, s.dev.clock, |b|);
    AckedSplit(w.ok, d.clock, |a|, |b|);
    assert Acked(w.ok, d.clock, |a + b|) == |a| + j;
    TakeAppend(a, b, |a| + j);
    PerformAllAppend(w.bus, d.target, a, b[..j]);
    PerformAllAppend(w.bus, d.target, a, b);
    FlatAppend(s.blocks, Run(w, s.dev, ms[1..]).blocks);
    HasUnknownTail(ms);
  }

  lemma HasUnknownTail(ms: seq<Msg>)
    requires ms != [] && !ms[0].Unknown?
    ensures HasUnknown(ms) == HasUnknown(ms[1..])
  {
    if HasUnknown(ms) {
      var i :| 0 <= i < |ms| && ms[i].Unknown?;
      assert ms[1..][i - 1].Unknown?;
    }
    if HasUnknown(ms[1..]) {
      var i :| 0 <= i < |ms[1..]| && ms[1..][i].Unknown?;
      assert ms[i + 1].Unknown?;
    }
  }
}
