/** Meaning of the compiled transactions: what they do to memory and what they read back. */
module AhbSemantics {
  import opened Words
  import opened Rswdp
  import opened Swd
  import opened MemAp
  import opened ProbeRuns
  import opened AhbCode

  // The meaning of the queued accesses themselves, one after the other.
  function Sequential(m: Memory, ops: seq<AhbOp>): (Memory, seq<u32>)
    decreases |ops|
  {
    if ops == [] then (m, [])
    else match ops[0]
      case AhbWrite(addr, value) => Sequential(Store(m, addr, value), ops[1..])
      case AhbRead(addr) => var (m', xs) := Sequential(m, ops[1..]); (m', [Load(m, addr)] + xs)
  }

  // What the messages do to the target when nothing is refused.
  function Effect(t: Target, ms: seq<Msg>): (Target, seq<u32>) {
    PerformAll(DEBUG_PORT, t, Accesses(ms))
  }

  ghost predicate NoUnknown(ms: seq<Msg>) {
    forall i :: 0 <= i < |ms| ==> !ms[i].Unknown?
  }

  lemma {:induction false} AccessesAppend(a: seq<Msg>, b: seq<Msg>)
    requires NoUnknown(a)
    ensures Accesses(a + b) == Accesses(a) + Accesses(b)
  {
    if a == [] {
      assert a + b == b;
    } else {
      assert (a + b)[1..] == a[1..] + b;
      AccessesAppend(a[1..], b);
    }
  }

  lemma EffectAppend(t: Target, a: seq<Msg>, b: seq<Msg>)
    requires NoUnknown(a)
    ensures var (t1, xs) := Effect(t, a);
      var (t2, ys) := Effect(t1, b);
      Effect(t, a + b) == (t2, xs + ys)
  {
    AccessesAppend(a, b);
    PerformAllAppend(DEBUG_PORT, t, Accesses(a), Accesses(b));
  }

  lemma EffectOne(t: Target, m: Msg)
    requires !m.Unknown?
    ensures Effect(t, [m]) == PerformAll(DEBUG_PORT, t, AccessesOf(m))
  {
    assert Accesses([m]) == AccessesOf(m) + Accesses([]) == AccessesOf(m);
  }

  lemma EffectWrite(t: Target, op: WriteOp, v: u32)
    ensures Effect(t, [Write(op, [v])]) == (WriteReg(t, op, v), [])
  {
    EffectOne(t, Write(op, [v]));
    assert WriteAccesses(op, [v]) == [Wr(op, v)];
    PerformOne(t, Wr(op, v));
  }

  lemma EffectRead(t: Target, op: ReadOp, keep: bool)
    ensures var m := if keep then Read(op, 1) else Discard(op, 1);
      Effect(t, [m]) == (ReadReg(t, op).0, if keep then [ReadReg(t, op).1] else [])
  {
    EffectOne(t, if keep then Read(op, 1) else Discard(op, 1));
    assert ReadAccesses(op, 1, keep) == [Rd(op, keep)] + ReadAccesses(op, 0, keep) == [Rd(op, keep)];
    PerformOne(t, Rd(op, keep));
  }

  lemma PerformOne(t: Target, a: Access)
    ensures PerformAll(DEBUG_PORT, t, [a]) == Perform(DEBUG_PORT, t, a)
  {
    var (t1, xs) := Perform(DEBUG_PORT, t, a);
    assert xs + [] == xs;
  }

  // ----- one access-port register -----

  // Each cached value is the unknown mark or the register's contents.
  ghost predicate Agrees(c: Cache, t: Target) {
    SelectAgrees(c, t) && (c.ahbtar == UNKNOWN || c.ahbtar == t.tar)
  }

  ghost predicate SelectAgrees(c: Cache, t: Target) {
    c.apaddr == UNKNOWN || c.apaddr == t.select
  }

  function RegisterAt(addr: u32): ApReg {
    if addr == AHB_CSW then Csw else if addr == AHB_TAR then Tar else if addr == AHB_DRW then Drw else Other
  }

  predicate IsAhbRegister(addr: u32) {
    addr == AHB_CSW || addr == AHB_TAR || addr == AHB_DRW
  }

  // The selectors of the three registers reach them once SELECT is zero.
  lemma SelectorReaches(addr: u32)
    requires IsAhbRegister(addr)
    ensures Bank(addr) == 0
    ensures IsAp(ApWriteOp(addr)) && ApRegister(0, ApWriteOp(addr)) == RegisterAt(addr)
    ensures IsAp(ApReadOp(addr)) && ApRegister(0, ApReadOp(addr)) == RegisterAt(addr)
  {
  }

  lemma SelectDoes(t: Target, c: Cache, addr: u32)
    requires IsAhbRegister(addr) && SelectAgrees(c, t)
    ensures var s := ApSelect(c, addr);
      && Effect(t, s.msgs) == (t.(select := 0), [])
      && NoUnknown(s.msgs)
      && s.cache == c.(apaddr := 0)
  {
    SelectorReaches(addr);
    if c.apaddr != 0 {
      EffectWrite(t, WR_SELECT, 0);
      assert WriteReg(t, WR_SELECT, 0) == t.(select := 0);
    } else {
      assert Accesses([]) == [];
    }
  }

  lemma ApWriteDoes(t: Target, c: Cache, addr: u32, v: u32)
    requires IsAhbRegister(addr) && SelectAgrees(c, t)
    ensures var w := ApWrite(c, addr, v);
      && Effect(t, w.msgs) == (WriteAp(t.(select := 0), RegisterAt(addr), v), [])
      && NoUnknown(w.msgs)
      && w.cache == c.(apaddr := 0)
  {
    SelectorReaches(addr);
    SelectDoes(t, c, addr);
    var s := ApSelect(c, addr);
    EffectAppend(t, s.msgs, [Write(ApWriteOp(addr), [v])]);
    EffectWrite(t.(select := 0), ApWriteOp(addr), v);
  }

  lemma ApReadDoes(t: Target, c: Cache, addr: u32)
    requires IsAhbRegister(addr) && SelectAgrees(c, t)
    ensures var r, t' := ApRead(c, addr), ReadAp(t.(select := 0), RegisterAt(addr));
      && Effect(t, r.msgs) == (t', [t'.posted])
      && NoUnknown(r.msgs)
      && r.cache == c.(apaddr := 0)
  {
    hide Effect;
    SelectorReaches(addr);
    SelectDoes(t, c, addr);
    var s, t' := ApSelect(c, addr), ReadAp(t.(select := 0), RegisterAt(addr));
    var start, fetch := Discard(ApReadOp(addr), 1), Read(RD_BUFFER, 1);
    EffectRead(t.(select := 0), ApReadOp(addr), false);
    EffectRead(t', RD_BUFFER, true);
    EffectAppend(t.(select := 0), [start], [fetch]);
    EffectAppend(t, s.msgs, [start, fetch]);
    assert [start] + [fetch] == [start, fetch];
    assert ReadReg(t', RD_BUFFER) == (t', t'.posted);
    assert [] + ([] + [t'.posted]) == [t'.posted];
  }

  // ----- queued memory accesses -----

  // 32-bit transfers without auto-increment: how swdp_reset leaves the MEM-AP.
  ghost predicate Plain(t: Target) {
    WordSize(t.csw) && !Increments(t.csw)
  }

  // Where an access goes: TAR is left alone when the cache holds its address.
  function Reached(t: Target, c: Cache, op: AhbOp): u32 {
    if c.ahbtar == op.addr then t.tar else op.addr
  }

  lemma TarReached(t: Target, c: Cache, op: AhbOp)
    requires SelectAgrees(c, t)
    ensures var s := SetTar(c, op.addr);
      var (t', xs) := Effect(t, s.msgs);
      && t'.tar == Reached(t, c, op) && t' == t.(select := t'.select, tar := t'.tar) && xs == []
      && NoUnknown(s.msgs)
      && SelectAgrees(s.cache, t') && s.cache.ahbtar == op.addr
  {
    if c.ahbtar != op.addr {
      ApWriteDoes(t, c, AHB_TAR, op.addr);
    } else {
      assert Accesses([]) == [];
    }
  }

  lemma OpDoes(t: Target, c: Cache, op: AhbOp)
    requires SelectAgrees(c, t) && WordSize(t.csw)
    ensures var code, at := CompileOp(c, op), Reached(t, c, op);
      var (t', xs) := Effect(t, code.msgs);
      && (t'.mem, xs) == Sequential(t.mem, [op.(addr := at)])
      && NoUnknown(code.msgs)
      && SelectAgrees(code.cache, t') && t'.csw == t.csw
      && code.cache.ahbtar == op.addr && t'.tar == if Increments(t.csw) then NextTar(at) else at
  {
    TarReached(t, c, op);
    var s, meant := SetTar(c, op.addr), op.(addr := Reached(t, c, op));
    var t1 := Effect(t, s.msgs).0;
    var x := if op.AhbWrite? then ApWrite(s.cache, AHB_DRW, op.value) else ApRead(s.cache, AHB_DRW);
    EffectAppend(t, s.msgs, x.msgs);
    assert [meant][1..] == [];
    assert op.AhbRead? ==> [Load(t.mem, meant.addr)] + [] == [] + [Load(t.mem, meant.addr)];
    if op.AhbWrite? {
      ApWriteDoes(t1, s.cache, AHB_DRW, op.value);
    } else {
      ApReadDoes(t1, s.cache, AHB_DRW);
    }
  }

  // A first access, unless it is to the mark, always sets TAR.
  lemma FirstOpCorrect(t: Target, op: AhbOp)
    requires WordSize(t.csw) && op.addr != UNKNOWN
    ensures var (t', xs) := Effect(t, CompileOp(EMPTY, op).msgs);
      (t'.mem, xs) == Sequential(t.mem, [op]) && t'.csw == t.csw && NoUnknown(CompileOp(EMPTY, op).msgs)
  {
    OpDoes(t, EMPTY, op);
  }

  // One queued operation that stops anywhere either happened or did not.
  lemma FirstOpPrefix(t: Target, op: AhbOp, k: nat)
    requires WordSize(t.csw) && op.addr != UNKNOWN && k <= |Accesses(CompileOp(EMPTY, op).msgs)|
    ensures var accs := Accesses(CompileOp(EMPTY, op).msgs);
      var t' := PerformAll(DEBUG_PORT, t, accs[..k]).0;
      t'.csw == t.csw && t'.mem == if k < |accs| then t.mem else Sequential(t.mem, [op]).0
  {
    var accs := Accesses(CompileOp(EMPTY, op).msgs);
    OpAccesses(EMPTY, op);
    ModeKept(t, accs[..k]);
    if k < |accs| {
      MemoryKept(t, accs[..k]);
    } else {
      FirstOpCorrect(t, op);
      assert accs[..k] == accs;
    }
  }

  lemma SequentialOne(m: Memory, op: AhbOp)
    ensures Sequential(m, [op]).0 == if op.AhbWrite? then Store(m, op.addr, op.value) else m
    ensures Sequential(m, [op]).1 == if op.AhbRead? then [Load(m, op.addr)] else []
  {
    assert [op][1..] == [];
  }

  lemma SequentialAppend(m: Memory, a: AhbOp, rest: seq<AhbOp>)
    ensures var (m1, xs) := Sequential(m, [a]);
      var (m2, ys) := Sequential(m1, rest);
      Sequential(m, [a] + rest) == (m2, xs + ys)
  {
    hide Load, Store;
    assert ([a] + rest)[1..] == rest;
    SequentialOne(m, a);
    var ys := Sequential(Sequential(m, [a]).0, rest).1;
    if a.AhbWrite? {
      assert [] + ys == ys;
    }
  }

  // Where a list of accesses goes: an access to the cached address leaves TAR alone, which with auto-increment has
  // moved on.
  function Landing(tar: u32, inc: bool, cached: u32, ops: seq<AhbOp>): (meant: seq<AhbOp>)
    ensures |meant| == |ops|
    decreases |ops|
  {
    if ops == [] then []
    else
      var at := if cached == ops[0].addr then tar else ops[0].addr;
      [ops[0].(addr := at)] + Landing(if inc then NextTar(at) else at, inc, ops[0].addr, ops[1..])
  }

  // The accesses that a compiled list stands for.
  function Meant(t: Target, c: Cache, ops: seq<AhbOp>): (meant: seq<AhbOp>)
    ensures |meant| == |ops|
  {
    Landing(t.tar, Increments(t.csw), c.ahbtar, ops)
  }

  lemma MeantNext(t: Target, c: Cache, ops: seq<AhbOp>, t1: Target, c1: Cache)
    requires ops != [] && c1.ahbtar == ops[0].addr && t1.csw == t.csw
    requires var at := Reached(t, c, ops[0]); t1.tar == if Increments(t.csw) then NextTar(at) else at
    ensures Meant(t, c, ops) == [ops[0].(addr := Reached(t, c, ops[0]))] + Meant(t1, c1, ops[1..])
  {
  }

  /** Compiler correctness: whatever the registers of the MEM-AP are to begin with, as long as it transfers words, and
      whatever the host has cached about them, the messages compiled from a list of memory accesses do to memory, and
      read back, exactly what the accesses in Meant say; without auto-increment each cache stays right. */
  lemma {:induction false} CompileCorrect(t: Target, c: Cache, ops: seq<AhbOp>)
    requires SelectAgrees(c, t) && WordSize(t.csw)
    ensures var code := Compile(c, ops);
      var (t', xs) := Effect(t, code.msgs);
      && (t'.mem, xs) == Sequential(t.mem, Meant(t, c, ops))
      && NoUnknown(code.msgs)
      && SelectAgrees(code.cache, t') && t'.csw == t.csw
      && (Agrees(c, t) && Plain(t) ==> Agrees(code.cache, t'))
    decreases |ops|
  {
    if ops == [] {
      assert Accesses([]) == [];
    } else {
      var first := CompileOp(c, ops[0]);
      OpDoes(t, c, ops[0]);
      var t1 := Effect(t, first.msgs).0;
      CompileCorrect(t1, first.cache, ops[1..]);
      var rest := Compile(first.cache, ops[1..]);
      EffectAppend(t, first.msgs, rest.msgs);
      MeantNext(t, c, ops, t1, first.cache);
      SequentialAppend(t.mem, ops[0].(addr := Reached(t, c, ops[0])), Meant(t1, first.cache, ops[1..]));
    }
  }

  // First accesses to the mark for an unknown TAR go where TAR points.
  function Redirected(ops: seq<AhbOp>, tar: u32): (meant: seq<AhbOp>)
    ensures |meant| == |ops|
  {
    if ops == [] || ops[0].addr != UNKNOWN then ops else [ops[0].(addr := tar)] + Redirected(ops[1..], tar)
  }

  lemma {:induction false} RedirectedToMark(ops: seq<AhbOp>)
    ensures Redirected(ops, UNKNOWN) == ops
  {
    if ops != [] && ops[0].addr == UNKNOWN {
      RedirectedToMark(ops[1..]);
    }
  }

  /** Without auto-increment, and with a cache that is right, that is all that can go wrong. */
  lemma {:induction false} PlainLanding(tar: u32, cached: u32, ops: seq<AhbOp>)
    requires cached == UNKNOWN || cached == tar
    ensures Landing(tar, false, cached, ops) == if cached == UNKNOWN then Redirected(ops, tar) else ops
    decreases |ops|
  {
    if ops != [] {
      var at := if cached == ops[0].addr then tar else ops[0].addr;
      PlainLanding(at, ops[0].addr, ops[1..]);
      RedirectedToMark(ops[1..]);
      assert ops == [ops[0]] + ops[1..];
    }
  }

  // ----- the address that cannot be told from an unknown one -----

  // A fresh transaction does what its list of accesses says.
  ghost predicate Means(t: Target, ops: seq<AhbOp>) {
    var (t', xs) := Effect(t, Compile(EMPTY, ops).msgs);
    (t'.mem, xs) == Sequential(t.mem, ops)
  }

  // A number that is not among the values, and no greater than their count.
  lemma {:induction false} Unused(values: set<int>, n: nat) returns (k: nat)
    requires |values| <= n
    ensures k <= n && k !in values
    decreases n
  {
    if n !in values {
      k := n;
    } else {
      k := Unused(values - {n}, n - 1);
    }
  }

  // Word numbers of the addresses, and the values written.
  function WordsUsed(ops: seq<AhbOp>): (w: set<int>)
    ensures |w| <= |ops|
    ensures forall i :: 0 <= i < |ops| ==> ops[i].addr / 4 in w
  {
    if ops == [] then {} else
      assert forall i :: 0 < i < |ops| ==> ops[i] == ops[1..][i - 1];
      WordsUsed(ops[1..]) + {ops[0].addr / 4}
  }

  function ValuesUsed(ops: seq<AhbOp>): (w: set<int>)
    ensures |w| <= |ops|
    ensures forall i :: 0 <= i < |ops| && ops[i].AhbWrite? ==> ops[i].value in w
  {
    if ops == [] then {} else
      assert forall i :: 0 < i < |ops| ==> ops[i] == ops[1..][i - 1];
      ValuesUsed(ops[1..]) + if ops[0].AhbWrite? then {ops[0].value} else {}
  }

  lemma {:induction false} WordKept(m: Memory, ops: seq<AhbOp>, a: u32)
    requires forall i :: 0 <= i < |ops| ==> WordAt(ops[i].addr) != WordAt(a)
    ensures Load(Sequential(m, ops).0, a) == Load(m, a)
    decreases |ops|
  {
    if ops != [] {
      WordKept(Sequential(m, [ops[0]]).0, ops[1..], a);
      SequentialOne(m, ops[0]);
      assert ops == [ops[0]] + ops[1..];
      SequentialAppend(m, ops[0], ops[1..]);
    }
  }

  // A value nobody writes does not come back.
  lemma {:induction false} ValueGone(m: Memory, ops: seq<AhbOp>, a: u32, v: u32)
    requires Load(m, a) != v && forall i :: 0 <= i < |ops| && ops[i].AhbWrite? ==> ops[i].value != v
    ensures Load(Sequential(m, ops).0, a) != v
    decreases |ops|
  {
    if ops != [] {
      SequentialOne(m, ops[0]);
      ValueGone(Sequential(m, [ops[0]]).0, ops[1..], a, v);
      assert ops == [ops[0]] + ops[1..];
      SequentialAppend(m, ops[0], ops[1..]);
    }
  }

  lemma {:induction false} RedirectedValues(ops: seq<AhbOp>, tar: u32)
    ensures var meant := Redirected(ops, tar);
      forall i :: 0 <= i < |ops| ==>
        && (meant[i].AhbWrite? <==> ops[i].AhbWrite?)
        && (ops[i].AhbWrite? ==> meant[i].value == ops[i].value)
  {
    if ops != [] && ops[0].addr == UNKNOWN {
      RedirectedValues(ops[1..], tar);
    }
  }

  // With TAR at a word that no access names, and a value there that none writes, the difference shows.
  lemma DifferenceShows(m: Memory, ops: seq<AhbOp>, tar: u32, v: u32)
    requires ops != [] && ops[0].addr == UNKNOWN && Load(m, tar) == v != Load(m, UNKNOWN)
    requires forall i :: 0 <= i < |ops| ==> WordAt(ops[i].addr) != WordAt(tar)
    requires forall i :: 0 <= i < |ops| && ops[i].AhbWrite? ==> ops[i].value != v
    ensures Sequential(m, Redirected(ops, tar)) != Sequential(m, ops)
  {
    var first, rest := ops[0].(addr := tar), Redirected(ops[1..], tar);
    SequentialAppend(m, first, rest);
    SequentialAppend(m, ops[0], ops[1..]);
    assert ops == [ops[0]] + ops[1..];
    SequentialOne(m, first);
    SequentialOne(m, ops[0]);
    if first.AhbRead? {
      assert Sequential(m, Redirected(ops, tar)).1[0] == v;
      assert Sequential(m, ops).1[0] == Load(m, UNKNOWN);
    } else {
      RedirectedValues(ops[1..], tar);
      ValueGone(Store(m, tar, first.value), rest, tar, v);
      WordKept(m, ops, tar);
    }
  }

  lemma WordNumbers(a: u32, k: nat)
    requires k < 0x4000_0000 && a / 4 != k
    ensures WordAt(a) != WordAt(4 * k) && WordAt(4 * k) == 4 * k
  {
  }

  lemma MarkMisled(ops: seq<AhbOp>) returns (t: Target)
    requires ops != [] && |ops| < 0x3FFF_FFFF && ops[0].addr == UNKNOWN
    ensures Plain(t) && !Means(t, ops)
  {
    var k := Unused(WordsUsed(ops), |ops|);
    var v := Unused(ValuesUsed(ops) + {0}, |ops| + 1);
    var m: Memory := map[4 * k := v];
    t := Target(0, 0, CSW_PLAIN, 4 * k, 0, m);
    forall i | 0 <= i < |ops|
      ensures WordAt(ops[i].addr) != WordAt(4 * k)
    {
      WordNumbers(ops[i].addr, k);
    }
    WordNumbers(UNKNOWN, k);
    DifferenceShows(m, ops, 4 * k, v);
    PlainLanding(4 * k, UNKNOWN, ops);
    CompileCorrect(t, EMPTY, ops);
  }

  /** The mark for an unknown TAR is a 32-bit value too.  A list of fewer accesses than memory has words means what
      it says on all targets, if and only if its first access is not to the mark; a later one is harmless. */
  lemma CorrectUnlessMark(ops: seq<AhbOp>)
    requires |ops| < 0x3FFF_FFFF
    ensures (forall t: Target | Plain(t) :: Means(t, ops)) <==> ops == [] || ops[0].addr != UNKNOWN
  {
    if ops == [] || ops[0].addr != UNKNOWN {
      forall t: Target | Plain(t)
        ensures Means(t, ops)
      {
        CompileCorrect(t, EMPTY, ops);
        PlainLanding(t.tar, UNKNOWN, ops);
      }
    } else {
      var _ := MarkMisled(ops);
    }
  }

  // ----- auto-increment mode -----

  // No access is to the address of the one before it, and the first not to the one cached.
  predicate NoRepeats(cached: u32, ops: seq<AhbOp>)
    decreases |ops|
  {
    ops == [] || (ops[0].addr != cached && NoRepeats(ops[0].addr, ops[1..]))
  }

  lemma {:induction false} NoRepeatsLand(tar: u32, inc: bool, cached: u32, ops: seq<AhbOp>)
    requires NoRepeats(cached, ops)
    ensures Landing(tar, inc, cached, ops) == ops
    decreases |ops|
  {
    if ops != [] {
      NoRepeatsLand(if inc then NextTar(ops[0].addr) else ops[0].addr, inc, ops[0].addr, ops[1..]);
      assert ops == [ops[0]] + ops[1..];
    }
  }

  // The last of them repeats the address before it.
  lemma {:induction false} RepeatLands(tar: u32, cached: u32, front: seq<AhbOp>, op: AhbOp)
    requires NoRepeats(cached, front) && op.addr == (if front == [] then cached else front[|front| - 1].addr)
    ensures Landing(tar, true, cached, front + [op])
         == front + [op.(addr := if front == [] then tar else NextTar(op.addr))]
    decreases |front|
  {
    if front == [] {
      assert [op][1..] == [];
    } else {
      assert (front + [op])[1..] == front[1..] + [op];
      RepeatLands(NextTar(front[0].addr), front[0].addr, front[1..], op);
    }
  }

  lemma {:induction false} SequentialLast(m: Memory, front: seq<AhbOp>, x: AhbOp)
    ensures var (m1, xs) := Sequential(m, front);
      var (m2, ys) := Sequential(m1, [x]);
      Sequential(m, front + [x]) == (m2, xs + ys)
    decreases |front|
  {
    if front == [] {
      assert front + [x] == [x];
      assert [] + Sequential(m, [x]).1 == Sequential(m, [x]).1;
    } else {
      var m1 := Sequential(m, [front[0]]).0;
      assert front == [front[0]] + front[1..] && front + [x] == [front[0]] + (front[1..] + [x]);
      SequentialLast(m1, front[1..], x);
      SequentialAppend(m, front[0], front[1..]);
      SequentialAppend(m, front[0], front[1..] + [x]);
      var xs := Sequential(m, [front[0]]).1;
      var (m2, ys) := Sequential(m1, front[1..]);
      assert xs + (ys + Sequential(m2, [x]).1) == xs + ys + Sequential(m2, [x]).1;
    }
  }

  // The same accesses with other values.
  predicate SameAccesses(ops: seq<AhbOp>, other: seq<AhbOp>) {
    |other| == |ops| && forall i :: 0 <= i < |ops| ==>
      other[i].addr == ops[i].addr && (other[i].AhbWrite? <==> ops[i].AhbWrite?)
  }

  // In auto-increment mode the list means what it says, at any point of it and whatever it writes.
  ghost predicate MeansThroughout(ops: seq<AhbOp>) {
    forall t: Target, other: seq<AhbOp>, k: nat |
      WordSize(t.csw) && Increments(t.csw) && SameAccesses(ops, other) && k <= |other| ::
      Means(t, other[..k])
  }

  // Each word keeps one value, but for the word of the last access.
  function Marked(ops: seq<AhbOp>, a: u32): (other: seq<AhbOp>)
    ensures SameAccesses(ops, other)
    ensures forall i :: 0 <= i < |ops| && other[i].AhbWrite? ==>
      other[i].value == if WordAt(ops[i].addr) == WordAt(a) then 1 else 2
  {
    seq(|ops|, i requires 0 <= i < |ops| =>
      if ops[i].AhbRead? then ops[i]
      else AhbWrite(ops[i].addr, if WordAt(ops[i].addr) == WordAt(a) then 1 else 2))
  }

  lemma {:induction false} MarkedKeeps(m: Memory, ops: seq<AhbOp>, a: u32, b: u32)
    requires WordAt(b) != WordAt(a) && Load(m, a) == 1 && Load(m, b) == 2
    requires forall i :: 0 <= i < |ops| && ops[i].AhbWrite? ==>
      ops[i].value == if WordAt(ops[i].addr) == WordAt(a) then 1 else 2
    ensures var m' := Sequential(m, ops).0; Load(m', a) == 1 && Load(m', b) == 2
    decreases |ops|
  {
    if ops != [] {
      SequentialOne(m, ops[0]);
      MarkedKeeps(Sequential(m, [ops[0]]).0, ops[1..], a, b);
      assert ops == [ops[0]] + ops[1..];
      SequentialAppend(m, ops[0], ops[1..]);
    }
  }

  lemma {:induction false} FirstRepeat(cached: u32, ops: seq<AhbOp>) returns (k: nat)
    requires !NoRepeats(cached, ops)
    ensures k < |ops| && NoRepeats(cached, ops[..k])
    ensures ops[k].addr == if k == 0 then cached else ops[k - 1].addr
    decreases |ops|
  {
    if ops[0].addr == cached {
      k := 0;
    } else {
      k := FirstRepeat(ops[0].addr, ops[1..]);
      assert ops[..k + 1][1..] == ops[1..][..k];
      k := k + 1;
    }
  }

  lemma {:induction false} SameRepeats(cached: u32, ops: seq<AhbOp>, other: seq<AhbOp>, k: nat)
    requires NoRepeats(cached, ops) && SameAccesses(ops, other) && k <= |ops|
    ensures NoRepeats(cached, other[..k])
    decreases k
  {
    if k > 0 {
      assert SameAccesses(ops[1..], other[1..]);
      SameRepeats(ops[0].addr, ops[1..], other[1..], k - 1);
      assert other[..k][1..] == other[1..][..k - 1];
    }
  }

  lemma NextTarMoves(a: u32)
    ensures WordAt(NextTar(a)) != WordAt(a)
  {
  }

  lemma LastDiffers(m: Memory, front: seq<AhbOp>, op: AhbOp, b: u32)
    requires WordAt(b) != WordAt(op.addr)
    requires Load(Sequential(m, front).0, op.addr) == 1 && Load(Sequential(m, front).0, b) == 2
    requires op.AhbWrite? ==> op.value == 3
    ensures Sequential(m, front + [op]) != Sequential(m, front + [op.(addr := b)])
  {
    hide Sequential;
    var (m1, xs) := Sequential(m, front);
    SequentialLast(m, front, op);
    SequentialLast(m, front, op.(addr := b));
    SequentialOne(m1, op);
    SequentialOne(m1, op.(addr := b));
    if op.AhbWrite? {
      assert Load(Store(m1, op.addr, 3), op.addr) == 3 && Load(Store(m1, b, 3), op.addr) == 1;
    } else {
      assert (xs + [1])[|xs|] == 1 && (xs + [2])[|xs|] == 2;
    }
  }

  lemma RepeatMisled(ops: seq<AhbOp>, k: nat)
    requires k < |ops| && NoRepeats(UNKNOWN, ops[..k])
    requires ops[k].addr == if k == 0 then UNKNOWN else ops[k - 1].addr
    ensures !MeansThroughout(ops)
  {
    hide Landing, Sequential, Effect, Compile;
    var a := ops[k].addr;
    var b: u32 := if k == 0 then 0 else NextTar(a);
    NextTarMoves(a);
    var other := Marked(ops, a);
    if other[k].AhbWrite? {
      other := other[k := AhbWrite(a, 3)];
    }
    var m: Memory := map[WordAt(a) := 1, WordAt(b) := 2];
    var t := Target(0, 0, CSW_INCREMENT, 0, 0, m);
    var front, op := other[..k], other[k];
    assert other[..k + 1] == front + [op];
    assert SameAccesses(ops[..k], front) && front[..k] == front;
    SameRepeats(UNKNOWN, ops[..k], front, k);
    RepeatLands(0, UNKNOWN, front, op);
    CompileCorrect(t, EMPTY, front + [op]);
    MarkedKeeps(m, front, a, b);
    LastDiffers(m, front, op, b);
    assert Meant(t, EMPTY, front + [op]) == front + [op.(addr := b)];
    assert !Means(t, other[..k + 1]);
  }

  /** With auto-increment on, as a failed bulk transfer can leave it, a list means what it says throughout, if and
      only if no access is to the same address as the one before, and the first not to the mark. */
  lemma IncrementExactly(ops: seq<AhbOp>)
    ensures MeansThroughout(ops) <==> NoRepeats(UNKNOWN, ops)
  {
    if NoRepeats(UNKNOWN, ops) {
      forall t: Target, other: seq<AhbOp>, k: nat |
        WordSize(t.csw) && Increments(t.csw) && SameAccesses(ops, other) && k <= |other|
        ensures Means(t, other[..k])
      {
        SameRepeats(UNKNOWN, ops, other, k);
        NoRepeatsLand(t.tar, true, UNKNOWN, other[..k]);
        CompileCorrect(t, EMPTY, other[..k]);
      }
    } else {
      var k := FirstRepeat(UNKNOWN, ops);
      RepeatMisled(ops, k);
    }
  }

  // ----- transactions that stop part way -----

  // Only a write whose address bits select DRW can touch memory, and only one that selects CSW the mode.
  predicate LeavesMemory(a: Access) {
    a.Rd? || a.op / 4 % 4 != 3
  }

  predicate LeavesMode(a: Access) {
    a.Rd? || a.op / 4 % 4 != 0
  }

  lemma {:induction false} MemoryKept(t: Target, accs: seq<Access>)
    requires forall i :: 0 <= i < |accs| ==> LeavesMemory(accs[i])
    ensures PerformAll(DEBUG_PORT, t, accs).0.mem == t.mem
    decreases |accs|
  {
    if accs != [] {
      OneKeepsMemory(t, accs[0]);
      MemoryKept(Perform(DEBUG_PORT, t, accs[0]).0, accs[1..]);
    }
  }

  lemma OneKeepsMemory(t: Target, a: Access)
    requires LeavesMemory(a)
    ensures Perform(DEBUG_PORT, t, a).0.mem == t.mem
  {
  }

  lemma {:induction false} ModeKept(t: Target, accs: seq<Access>)
    requires forall i :: 0 <= i < |accs| ==> LeavesMode(accs[i])
    ensures PerformAll(DEBUG_PORT, t, accs).0.csw == t.csw
    decreases |accs|
  {
    if accs != [] {
      OneKeepsMode(t, accs[0]);
      ModeKept(Perform(DEBUG_PORT, t, accs[0]).0, accs[1..]);
    }
  }

  lemma OneKeepsMode(t: Target, a: Access)
    requires LeavesMode(a)
    ensures Perform(DEBUG_PORT, t, a).0.csw == t.csw
  {
  }

  // Messages of one access each, as all q_ap_* routines queue them.
  predicate IsUnit(m: Msg) {
    match m
    case Write(_, data) => |data| == 1
    case Read(_, n) => n == 1
    case Discard(_, n) => n == 1
    case _ => false
  }

  function UnitAccess(m: Msg): Access
    requires IsUnit(m)
  {
    match m
    case Write(op, data) => Wr(op, data[0])
    case Read(op, _) => Rd(op, true)
    case Discard(op, _) => Rd(op, false)
  }

  lemma {:induction false} UnitAccesses(ms: seq<Msg>)
    requires forall i :: 0 <= i < |ms| ==> IsUnit(ms[i])
    ensures |Accesses(ms)| == |ms|
    ensures forall i :: 0 <= i < |ms| ==> Accesses(ms)[i] == UnitAccess(ms[i])
    decreases |ms|
  {
    if ms != [] {
      var m := ms[0];
      UnitAccesses(ms[1..]);
      assert AccessesOf(m) == [UnitAccess(m)] by {
        match m
        case Write(op, data) => assert WriteAccesses(op, data) == [Wr(op, data[0])] + WriteAccesses(op, data[1..]);
        case Read(op, n) => assert ReadAccesses(op, 1, true) == [Rd(op, true)] + ReadAccesses(op, 0, true);
        case Discard(op, n) => assert ReadAccesses(op, 1, false) == [Rd(op, false)] + ReadAccesses(op, 0, false);
      }
      assert Accesses(ms) == [UnitAccess(m)] + Accesses(ms[1..]);
    }
  }

  // Messages of one access that touches neither memory nor the mode, and whose result is not kept.
  ghost predicate Quiet(ms: seq<Msg>) {
    forall i :: 0 <= i < |ms| ==>
      IsUnit(ms[i]) && !ms[i].Read? && LeavesMemory(UnitAccess(ms[i])) && LeavesMode(UnitAccess(ms[i]))
  }

  lemma SetTarIsQuiet(c: Cache, addr: u32)
    ensures Quiet(SetTar(c, addr).msgs)
  {
    SelectorReaches(AHB_TAR);
    assert Quiet(ApSelect(c, AHB_TAR).msgs);
    assert Quiet([Write(ApWriteOp(AHB_TAR), [addr])]);
  }

  // What a queued operation sends ends in the one access that may change memory.
  lemma OpMessages(c: Cache, op: AhbOp)
    ensures var ms := CompileOp(c, op).msgs;
      && ms != [] && Quiet(ms[..|ms| - 1])
      && ms[|ms| - 1] == if op.AhbWrite? then Write(ApWriteOp(AHB_DRW), [op.value]) else Read(RD_BUFFER, 1)
  {
    SelectorReaches(AHB_DRW);
    SetTarIsQuiet(c, op.addr);
    var s := SetTar(c, op.addr);
    var select := ApSelect(s.cache, AHB_DRW).msgs;
    assert Quiet(select);
    var ms := CompileOp(c, op).msgs;
    if op.AhbWrite? {
      assert ms == s.msgs + select + [Write(ApWriteOp(AHB_DRW), [op.value])];
      assert ms[..|ms| - 1] == s.msgs + select;
    } else {
      assert ms == s.msgs + select + [Discard(ApReadOp(AHB_DRW), 1)] + [Read(RD_BUFFER, 1)];
      assert ms[..|ms| - 1] == s.msgs + select + [Discard(ApReadOp(AHB_DRW), 1)];
    }
  }

  // The accesses of one queued operation: none changes the mode, and only the last may change memory.
  lemma OpAccesses(c: Cache, op: AhbOp)
    ensures var accs := Accesses(CompileOp(c, op).msgs);
      && accs != []
      && (forall i :: 0 <= i < |accs| ==> LeavesMode(accs[i]))
      && (forall i :: 0 <= i < |accs| - 1 ==> LeavesMemory(accs[i]))
  {
    hide CompileOp, Accesses;
    OpMessages(c, op);
    SelectorReaches(AHB_DRW);
    var ms := CompileOp(c, op).msgs;
    var front, end := ms[..|ms| - 1], ms[|ms| - 1];
    assert IsUnit(end) && LeavesMode(UnitAccess(end));
    assert forall i :: 0 <= i < |ms| - 1 ==> ms[i] == front[i];
    UnitAccesses(ms);
  }

  /** A compiled transaction that stops anywhere has done some first operations to memory, and no others; the
      transfer mode is untouched. */
  lemma {:induction false} CompilePrefix(t: Target, c: Cache, ops: seq<AhbOp>, k: nat)
    requires SelectAgrees(c, t) && WordSize(t.csw)
    requires k <= |Accesses(Compile(c, ops).msgs)|
    ensures var t' := PerformAll(DEBUG_PORT, t, Accesses(Compile(c, ops).msgs)[..k]).0;
      t'.csw == t.csw && RanSome(t.mem, t'.mem, Meant(t, c, ops))
    decreases |ops|
  {
    hide CompileOp, Meant;
    var meant := Meant(t, c, ops);
    assert meant[..0] == [];
    if ops == [] {
      assert RanSome(t.mem, t.mem, meant);
    } else {
      var first := CompileOp(c, ops[0]);
      var rest := Compile(first.cache, ops[1..]);
      OpDoes(t, c, ops[0]);
      OpAccesses(c, ops[0]);
      AccessesAppend(first.msgs, rest.msgs);
      var a, b := Accesses(first.msgs), Accesses(rest.msgs);
      TakeAppend(a, b, k);
      if k < |a| {
        MemoryKept(t, a[..k]);
        ModeKept(t, a[..k]);
        assert t.mem == Sequential(t.mem, meant[..0]).0;
      } else {
        var t1 := Effect(t, first.msgs).0;
        ModeKept(t, a);
        MeantNext(t, c, ops, t1, first.cache);
        CompilePrefix(t1, first.cache, ops[1..], k - |a|);
        PerformAllAppend(DEBUG_PORT, t, a, b[..k - |a|]);
        RanOneMore(t.mem, t1.mem, PerformAll(DEBUG_PORT, t1, b[..k - |a|]).0.mem, meant);
      }
    }
  }

  ghost predicate RanSome(m0: Memory, m1: Memory, ops: seq<AhbOp>) {
    exists j :: 0 <= j <= |ops| && m1 == Sequential(m0, ops[..j]).0
  }

  lemma RanOneMore(m0: Memory, m1: Memory, m2: Memory, ops: seq<AhbOp>)
    requires ops != [] && m1 == Sequential(m0, [ops[0]]).0 && RanSome(m1, m2, ops[1..])
    ensures RanSome(m0, m2, ops)
  {
    var j :| 0 <= j <= |ops[1..]| && m2 == Sequential(m1, ops[1..][..j]).0;
    SequentialAppend(m0, ops[0], ops[1..][..j]);
    assert ops[..j + 1] == [ops[0]] + ops[1..][..j];
  }
}
