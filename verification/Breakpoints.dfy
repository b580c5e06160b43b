/** Hardware breakpoints (tools/gdb-bridge.c, and swdp_watchpoint in tools/rswdp.c): the tables of live
    addresses and the comparators that are supposed to agree with them. */
module Breakpoints {
  import opened Words

  datatype Slot = Free | Live(addr: u32)

  const MAXFP: nat := 16
  const MAXBP: nat := 16
  const CODE_END: u32 := 0x2000_0000
  const DWT_FN_WATCH_PC: u32 := 4
  // swdp_watchpoint refuses the others.
  const WATCHPOINTS: nat := 4

  datatype DwtComparator = DwtComparator(comp: u32, mask: u32, func: u32)

  /** The debug registers.  The comparator counts are read from ROM table and control registers. */
  datatype Hw = Hw(fpbPresent: bool, fpCtrl: u32, fpOn: bool, fpComp: seq<u32>,
                   dwtPresent: bool, dwtCtrl: u32, dwtOn: bool, dwt: seq<DwtComparator>)

  /** What becomes of the register writes of one request, whose results nobody looks at: the one to FP_CTRL, the one
      to FP_COMP, and how many first ones of the watchpoint's transaction are done. */
  datatype Fate = Fate(ctrl: bool, comp: bool, watch: nat)

  const WHOLE := Fate(true, true, 5)

  // NUM_CODE is split over FP_CTRL[7:4] and FP_CTRL[14:12].
  function FpbComparators(ctrl: u32): nat {
    ctrl / 0x10 % 0x10 + ctrl / 0x1000 % 8 * 0x10
  }

  // The count as the code puts it together: the upper part ends up four bits too far left.
  function FpbCountRead(ctrl: u32): nat {
    ctrl / 0x10 % 0x10 + ctrl / 0x1000 % 8 * 0x100
  }

  function FpCount(hw: Hw): nat {
    if !hw.fpbPresent then 0 else if FpbCountRead(hw.fpCtrl) > MAXFP then MAXFP else FpbCountRead(hw.fpCtrl)
  }

  function BpCount(hw: Hw): (n: nat)
    ensures n < MAXBP
  {
    if hw.dwtPresent then hw.dwtCtrl / 0x1000_0000 else 0
  }

  // The misplaced bits do no harm: whenever they are set, there are more comparators than the table has slots.
  lemma CountIsRight(hw: Hw)
    ensures FpCount(hw)
         == if !hw.fpbPresent then 0
            else if FpbComparators(hw.fpCtrl) > MAXFP then MAXFP else FpbComparators(hw.fpCtrl)
  {
  }

  /** The number of DWT comparators is what stands in the top four bits of DWT_CTRL. */
  lemma DwtCountIsRight(hw: Hw, n: nat)
    ensures if hw.dwtPresent
            then BpCount(hw) == n <==> n * 0x1000_0000 <= hw.dwtCtrl < (n + 1) * 0x1000_0000
            else BpCount(hw) == 0
  {
  }

  // ----- DWT comparators -----

  // What a comparator does (ARMv7-M Architecture Reference Manual, ARM DDI 0403, section C1.8, DWT_FUNCTION): the low
  // mask bits of the address do not count.
  datatype DwtEvent =
    | Off
    | Breaks(first: nat, count: nat)
    | Otherwise  // watches data, or is reserved

  // The address without its low bits, and how many addresses share it.
  function Masked(addr: nat, bits: nat): (r: (nat, nat))
    ensures bits == 0 ==> r == (addr, 1)
  {
    if bits == 0 then (addr, 1) else var (first, count) := Masked(addr / 2, bits - 1); (2 * first, 2 * count)
  }

  function DwtDecode(c: DwtComparator): DwtEvent {
    var (first, n) := Masked(c.comp, c.mask);
    match c.func
    case 0 => Off
    case 4 => Breaks(first, n)
    case _ => Otherwise
  }

  /** A comparator that is being set up does at no point break anywhere but where it did before, or where it should:
      however much of the transaction arrives, it is as it was, or off, or breaks on just the address. */
  lemma WatchpointNeverStrays(hw: Hw, n: nat, addr: u32, done: nat)
    requires n < |hw.dwt| && n < WATCHPOINTS
    ensures var hw' := Watchpoint(hw, n, addr, DWT_FN_WATCH_PC, done);
      var event := DwtDecode(hw'.dwt[n]);
      && hw' == hw.(dwtOn := hw'.dwtOn, dwt := hw.dwt[n := hw'.dwt[n]])
      && (done < 2 ==> hw'.dwt[n] == hw.dwt[n])
      && (2 <= done < 5 ==> event == Off)
      && (done == 2 ==> hw'.dwt[n] == hw.dwt[n].(func := 0))
      && (done == 3 ==> hw'.dwt[n] == hw.dwt[n].(func := 0, comp := addr))
      && (5 <= done ==> event == Breaks(addr, 1))
      && (hw'.dwtOn <==> hw.dwtOn || 1 <= done)
  {
  }

  lemma WatchpointOff(hw: Hw, n: nat, addr: u32, done: nat)
    requires n < |hw.dwt| && n < WATCHPOINTS
    ensures var hw' := Watchpoint(hw, n, addr, 0, done);
      && hw' == hw.(dwtOn := hw'.dwtOn, dwt := hw.dwt[n := hw'.dwt[n]])
      && hw'.dwt[n] == (if done < 2 then hw.dwt[n] else hw.dwt[n].(func := 0))
      && (done >= 2 ==> DwtDecode(hw'.dwt[n]) == Off)
      && (hw'.dwtOn <==> hw.dwtOn || 1 <= done)
  {
  }

  // ----- FPB comparator words -----

  // Which halfword of the word matches is in the top two bits.
  function FpEncode(addr: u32): u32
    requires addr < CODE_END
  {
    (if addr / 2 % 2 == 1 then 0x8000_0001 else 0x4000_0001) + addr / 4 * 4
  }

  // The address a comparator breaks on.
  function FpDecode(v: u32): Slot {
    if v % 2 == 0 then Free
    else if v / 0x4000_0000 == 1 then Live(v % 0x2000_0000 / 4 * 4)
    else if v / 0x4000_0000 == 2 then Live(v % 0x2000_0000 / 4 * 4 + 2)
    else Free
  }

  lemma UpperFields(r: int)
    requires 0 <= r < CODE_END
    ensures (0x8000_0000 + r) / 0x4000_0000 == 2 && (0x8000_0000 + r) % 0x2000_0000 == r
  {
  }

  lemma LowerFields(r: int)
    requires 0 <= r < CODE_END
    ensures (0x4000_0000 + r) / 0x4000_0000 == 1 && (0x4000_0000 + r) % 0x2000_0000 == r
  {
  }

  lemma LowBitsOf(base: int)
    requires base % 4 == 0
    ensures (base + 1) / 4 * 4 == base && (0x8000_0001 + base) % 2 == 1 && (0x4000_0001 + base) % 2 == 1
  {
    var q := base / 4;
    assert base == 4 * q;
    Odd(0x4000_0000 + 2 * q);
    Odd(0x2000_0000 + 2 * q);
    assert 0x8000_0001 + base == 2 * (0x4000_0000 + 2 * q) + 1;
    assert 0x4000_0001 + base == 2 * (0x2000_0000 + 2 * q) + 1;
  }

  lemma Odd(r: int)
    ensures (2 * r + 1) % 2 == 1
  {
  }

  lemma FieldsOf(base: int, upper: bool)
    requires 0 <= base < CODE_END && base % 4 == 0
    ensures var v := (if upper then 0x8000_0001 else 0x4000_0001) + base;
      && v % 2 == 1 && v / 0x4000_0000 == (if upper then 2 else 1)
      && v % 0x2000_0000 / 4 * 4 == base
  {
    UpperFields(base + 1);
    LowerFields(base + 1);
    LowBitsOf(base);
  }

  lemma HalfwordOf(addr: u32)
    ensures addr / 2 * 2 == addr / 4 * 4 + (if addr / 2 % 2 == 1 then 2 else 0)
  {
  }

  lemma FpDecodes(addr: u32)
    requires addr < CODE_END
    ensures FpDecode(FpEncode(addr)) == Live(addr / 2 * 2)
  {
    FieldsOf(addr / 4 * 4, addr / 2 % 2 == 1);
    HalfwordOf(addr);
  }

  // Two addresses share a comparator word exactly when they are in the same halfword.
  lemma FpEncodeInjective(a: u32, b: u32)
    requires a < CODE_END && b < CODE_END
    ensures FpEncode(a) == FpEncode(b) <==> a / 2 == b / 2
  {
    FpDecodes(a);
    FpDecodes(b);
    if a / 2 == b / 2 {
      assert a / 4 == b / 4 && a / 2 % 2 == b / 2 % 2;
    }
  }

  // ----- the tables -----

  // The first of the first n slots that holds addr, or n.
  function Find(table: seq<Slot>, n: nat, s: Slot, i: nat): (k: nat)
    requires i <= n <= |table|
    ensures i <= k <= n
    ensures k < n ==> table[k] == s
    ensures forall j :: i <= j < k ==> table[j] != s
    decreases n - i
  {
    if i == n || table[i] == s then i else Find(table, n, s, i + 1)
  }

  datatype Debug = Debug(fp: seq<Slot>, bp: seq<Slot>, hw: Hw)
  {
    predicate Sized() {
      |fp| == MAXFP && |bp| == MAXBP && FpCount(hw) <= |hw.fpComp| && BpCount(hw) <= |hw.dwt|
    }
  }

  // The state afterwards and the value returned.
  function Flashpatch(d: Debug, add: bool, addr: u32, fate: Fate): (Debug, int)
    requires d.Sized() && addr < CODE_END
  {
    var max := FpCount(d.hw);
    var n := Find(d.fp, max, Live(addr), 0);
    if n < max then
      if add then (d, 0)
      else (d.(fp := d.fp[n := Free], hw := PutComp(d.hw, n, 0, fate)), 0)
    else if !add then (d, -1)
    else
      var k := Find(d.fp, max, Free, 0);
      if k < max then
        var on := d.hw.(fpOn := d.hw.fpOn || fate.ctrl);
        (d.(fp := d.fp[k := Live(addr)], hw := PutComp(on, k, FpEncode(addr), fate)), 0)
      else (d, -1)
  }

  function PutComp(hw: Hw, n: nat, v: u32, fate: Fate): Hw
    requires n < |hw.fpComp|
  {
    if fate.comp then hw.(fpComp := hw.fpComp[n := v]) else hw
  }

  // swdp_watchpoint, one transaction: the unit on, the comparator off, then address, mask and function.
  function Watchpoint(hw: Hw, n: nat, addr: u32, func: u32, done: nat): Hw
    requires n < |hw.dwt|
  {
    if n >= WATCHPOINTS then hw
    else
      var c := hw.dwt[n];
      var off := if done >= 2 then c.(func := 0) else c;
      var there := if done >= 3 then off.(comp := addr) else off;
      var masked := if done >= 4 then there.(mask := 0) else there;
      var on := if done >= 5 then masked.(func := func) else masked;
      hw.(dwtOn := hw.dwtOn || done >= 1, dwt := hw.dwt[n := if func == 0 then off else on])
  }

  function DwtBreakpoint(d: Debug, add: bool, addr: u32, fate: Fate): (Debug, int)
    requires d.Sized()
  {
    var max := BpCount(d.hw);
    var n := Find(d.bp, max, Live(addr), 0);
    if add then
      if n < max then (d, 0)
      else
        var k := Find(d.bp, max, Free, 0);
        if k < max then
          (d.(bp := d.bp[k := Live(addr)], hw := Watchpoint(d.hw, k, addr, DWT_FN_WATCH_PC, fate.watch)), 0)
        else (d, 1)
    else if n < max then (d.(bp := d.bp[n := Free], hw := Watchpoint(d.hw, n, 0, 0, fate.watch)), 0)
    else (d, 0)
  }

  // A Z or z request, and the fate of its writes.
  datatype Op = Op(add: bool, addr: u32, fate: Fate)

  // handle_breakpoint
  function Breakpoint(d: Debug, op: Op): (Debug, int)
    requires d.Sized()
  {
    if op.addr < CODE_END && Flashpatch(d, op.add, op.addr, op.fate).1 == 0
    then Flashpatch(d, op.add, op.addr, op.fate)
    else DwtBreakpoint(d, op.add, op.addr, op.fate)
  }

  // ----- what the tables mean -----

  ghost predicate Holds(table: seq<Slot>, addr: u32) {
    exists i :: 0 <= i < |table| && table[i] == Live(addr)
  }

  // Every slot that has a comparator is taken.
  ghost predicate IsFull(table: seq<Slot>, n: nat)
    requires n <= |table|
  {
    forall i :: 0 <= i < n ==> table[i].Live?
  }

  ghost predicate NoDuplicates(table: seq<Slot>) {
    forall i, j :: 0 <= i < j < |table| ==> table[i].Live? ==> table[i] != table[j]
  }

  // Only slots with a comparator are ever used.
  ghost predicate UsedBelow(table: seq<Slot>, n: nat) {
    forall i :: n <= i < |table| ==> table[i].Free?
  }

  ghost predicate InCode(table: seq<Slot>) {
    forall i :: 0 <= i < |table| && table[i].Live? ==> table[i].addr < CODE_END
  }

  /** Kept by every operation, whatever becomes of its writes. */
  ghost predicate Inv(d: Debug) {
    && d.Sized()
    && NoDuplicates(d.fp) && UsedBelow(d.fp, FpCount(d.hw)) && InCode(d.fp)
    && NoDuplicates(d.bp) && UsedBelow(d.bp, BpCount(d.hw))
  }

  ghost predicate SameUnits(d: Debug, d': Debug) {
    FpCount(d'.hw) == FpCount(d.hw) && BpCount(d'.hw) == BpCount(d.hw)
  }

  lemma FlashpatchKeeps(d: Debug, add: bool, addr: u32, fate: Fate)
    requires Inv(d) && addr < CODE_END
    ensures var d' := Flashpatch(d, add, addr, fate).0; Inv(d') && SameUnits(d, d') && d'.bp == d.bp
  {
  }

  lemma DwtKeeps(d: Debug, add: bool, addr: u32, fate: Fate)
    requires Inv(d)
    ensures var d' := DwtBreakpoint(d, add, addr, fate).0; Inv(d') && SameUnits(d, d') && d'.fp == d.fp
  {
  }

  // ----- what one call means -----

  // now is was with addr added, or with addr taken away.
  ghost predicate Gains(was: seq<Slot>, now: seq<Slot>, addr: u32) {
    forall a: u32 :: Holds(now, a) <==> Holds(was, a) || a == addr
  }

  ghost predicate Loses(was: seq<Slot>, now: seq<Slot>, addr: u32) {
    forall a: u32 :: Holds(now, a) <==> Holds(was, a) && a != addr
  }

  lemma TakeSlot(table: seq<Slot>, k: nat, addr: u32)
    requires k < |table| && table[k].Free?
    ensures Gains(table, table[k := Live(addr)], addr)
  {
    var now := table[k := Live(addr)];
    forall a: u32
      ensures Holds(now, a) <==> Holds(table, a) || a == addr
    {
      if Holds(table, a) {
        var i :| 0 <= i < |table| && table[i] == Live(a);
        assert now[i] == Live(a);
      }
      if a == addr {
        assert now[k] == Live(a);
      }
    }
  }

  lemma FreeSlot(table: seq<Slot>, k: nat, addr: u32)
    requires k < |table| && table[k] == Live(addr) && NoDuplicates(table)
    ensures Loses(table, table[k := Free], addr)
  {
    var now := table[k := Free];
    forall a: u32
      ensures Holds(now, a) <==> Holds(table, a) && a != addr
    {
      if Holds(table, a) && a != addr {
        var i :| 0 <= i < |table| && table[i] == Live(a);
        assert now[i] == Live(a);
      }
    }
  }

  // Searching the slots that have comparators is searching the table.
  lemma FindFinds(table: seq<Slot>, n: nat, addr: u32)
    requires n <= |table| && UsedBelow(table, n)
    ensures Find(table, n, Live(addr), 0) < n <==> Holds(table, addr)
    ensures Find(table, n, Free, 0) == n <==> IsFull(table, n)
  {
    if Holds(table, addr) {
      var i :| 0 <= i < |table| && table[i] == Live(addr);
      assert i < n;
    }
  }

  /** The FPB table as a set: adding fails only when every comparator is taken and the address is not live
      already; removing fails only when it is not live. */
  lemma FlashpatchMeans(d: Debug, add: bool, addr: u32, fate: Fate)
    requires Inv(d) && addr < CODE_END
    ensures var (d', r) := Flashpatch(d, add, addr, fate);
      && (r == 0 || r == -1)
      && (add ==> (r == -1 <==> !Holds(d.fp, addr) && IsFull(d.fp, FpCount(d.hw))))
      && (!add ==> (r == -1 <==> !Holds(d.fp, addr)))
      && (r == -1 ==> d' == d)
      && (r == 0 && add ==> Gains(d.fp, d'.fp, addr))
      && (r == 0 && !add ==> Loses(d.fp, d'.fp, addr))
  {
    var max := FpCount(d.hw);
    FindFinds(d.fp, max, addr);
    var n, k := Find(d.fp, max, Live(addr), 0), Find(d.fp, max, Free, 0);
    if n < max && !add {
      FreeSlot(d.fp, n, addr);
    }
    if n == max && add && k < max {
      TakeSlot(d.fp, k, addr);
    }
  }

  /** The DWT table as a set: adding fails only when it is full; removing never does. */
  lemma DwtMeans(d: Debug, add: bool, addr: u32, fate: Fate)
    requires Inv(d)
    ensures var (d', r) := DwtBreakpoint(d, add, addr, fate);
      && (add ==> (r == 1 <==> !Holds(d.bp, addr) && IsFull(d.bp, BpCount(d.hw))))
      && (r == 1 ==> d' == d)
      && (r == 0 || r == 1) && (!add ==> r == 0)
      && (r == 0 && add ==> Gains(d.bp, d'.bp, addr))
      && (r == 0 && !add ==> Loses(d.bp, d'.bp, addr))
  {
    var max := BpCount(d.hw);
    FindFinds(d.bp, max, addr);
    var n, k := Find(d.bp, max, Live(addr), 0), Find(d.bp, max, Free, 0);
    if n < max && !add {
      FreeSlot(d.bp, n, addr);
    }
    if n == max && add && k < max {
      TakeSlot(d.bp, k, addr);
    }
  }

  /** handle_breakpoint: a breakpoint that was added is live; one that was removed is still live if and only if
      it was live in both tables, since only the FPB entry goes. */
  lemma BreakpointMeans(d: Debug, op: Op)
    requires Inv(d)
    ensures var (d', r) := Breakpoint(d, op);
      var addr := op.addr;
      var was, now := Holds(d.fp, addr) || Holds(d.bp, addr), Holds(d'.fp, addr) || Holds(d'.bp, addr);
      && Inv(d') && SameUnits(d, d')
      && (forall a: u32 | a != addr :: (Holds(d'.fp, a) <==> Holds(d.fp, a)) && (Holds(d'.bp, a) <==> Holds(d.bp, a)))
      && (op.add && r == 0 ==> now)
      && (op.add && r != 0 ==> !Holds(d'.bp, addr) && d' == d)
      && (op.add ==>
            var fpb := addr < CODE_END && (Holds(d.fp, addr) || !IsFull(d.fp, FpCount(d.hw)));
            r == if fpb || Holds(d.bp, addr) || !IsFull(d.bp, BpCount(d.hw)) then 0 else 1)
      && (!op.add ==> r == 0 && (now <==> Holds(d.fp, addr) && Holds(d.bp, addr)))
  {
    if op.addr < CODE_END {
      FlashpatchMeans(d, op.add, op.addr, op.fate);
      FlashpatchKeeps(d, op.add, op.addr, op.fate);
    }
    DwtMeans(d, op.add, op.addr, op.fate);
    DwtKeeps(d, op.add, op.addr, op.fate);
  }

  // ----- agreement with the comparators -----

  predicate FpSlotAgrees(s: Slot, comp: u32, on: bool) {
    match s
    case Free => comp == 0
    case Live(a) => on && a < CODE_END && comp == FpEncode(a)
  }

  predicate DwtSlotAgrees(s: Slot, c: DwtComparator, on: bool) {
    match s
    case Free => c.func == 0
    case Live(a) => on && c == DwtComparator(a, 0, DWT_FN_WATCH_PC)
  }

  /** A comparator that agrees with its slot breaks on just the slot's address, or on the halfword it is in, or is
      off. */
  lemma SlotMeans(s: Slot, comp: u32, c: DwtComparator, on: bool)
    ensures FpSlotAgrees(s, comp, on) ==>
      FpDecode(comp) == match s case Free => Free case Live(a) => Live(a / 2 * 2)
    ensures DwtSlotAgrees(s, c, on) ==> DwtDecode(c) == match s case Free => Off case Live(a) => Breaks(a, 1)
  {
    hide FpEncode;
    if FpSlotAgrees(s, comp, on) && s.Live? {
      FpDecodes(s.addr);
    }
  }

  ghost predicate FpAgrees(d: Debug)
    requires d.Sized()
  {
    forall i :: 0 <= i < FpCount(d.hw) ==> FpSlotAgrees(d.fp[i], d.hw.fpComp[i], d.hw.fpOn)
  }

  ghost predicate DwtAgrees(d: Debug)
    requires d.Sized()
  {
    forall i :: 0 <= i < BpCount(d.hw) ==> DwtSlotAgrees(d.bp[i], d.hw.dwt[i], d.hw.dwtOn)
  }

  /** Each comparator breaks where its slot says, with its unit enabled, or is off. */
  ghost predicate Agrees(d: Debug)
    requires d.Sized()
  {
    FpAgrees(d) && DwtAgrees(d)
  }

  // The request goes to the FPB.
  predicate ByFpb(d: Debug, op: Op)
    requires d.Sized()
  {
    op.addr < CODE_END && Flashpatch(d, op.add, op.addr, op.fate).1 == 0
  }

  // The writes that the request needs arrive: a comparator's, the enabling one unless the unit is on already, and as
  // much of the watchpoint's transaction as counts.  A watchpoint that is refused makes none.
  predicate Landed(d: Debug, op: Op)
    requires d.Sized()
  {
    if ByFpb(d, op) then
      var live := Find(d.fp, FpCount(d.hw), Live(op.addr), 0) < FpCount(d.hw);
      if op.add then live || (op.fate.comp && (op.fate.ctrl || d.hw.fpOn)) else op.fate.comp
    else
      var max := BpCount(d.hw);
      var n, k := Find(d.bp, max, Live(op.addr), 0), Find(d.bp, max, Free, 0);
      if op.add then n < max || k == max || (k < WATCHPOINTS && op.fate.watch >= 5)
      else n == max || (n < WATCHPOINTS && op.fate.watch >= 2)
  }

  lemma SlotChanged(d: Debug, d': Debug, k: nat)
    requires d.Sized() && d'.Sized() && SameUnits(d, d') && k < FpCount(d.hw) && FpAgrees(d)
    requires d'.fp == d.fp[k := d'.fp[k]] && d'.hw.fpComp == d.hw.fpComp[k := d'.hw.fpComp[k]]
    requires d.hw.fpOn ==> d'.hw.fpOn
    ensures FpAgrees(d') <==> FpSlotAgrees(d'.fp[k], d'.hw.fpComp[k], d'.hw.fpOn)
  {
  }

  lemma DwtSlotChanged(d: Debug, d': Debug, k: nat)
    requires d.Sized() && d'.Sized() && SameUnits(d, d') && k < BpCount(d.hw) && DwtAgrees(d)
    requires d'.bp == d.bp[k := d'.bp[k]] && d'.hw.dwt == d.hw.dwt[k := d'.hw.dwt[k]]
    requires d.hw.dwtOn ==> d'.hw.dwtOn
    ensures DwtAgrees(d') <==> DwtSlotAgrees(d'.bp[k], d'.hw.dwt[k], d'.hw.dwtOn)
  {
  }

  lemma FpEncodeOn(addr: u32)
    requires addr < CODE_END
    ensures FpEncode(addr) != 0
  {
  }

  lemma FpbLands(d: Debug, op: Op)
    requires Inv(d) && Agrees(d) && ByFpb(d, op)
    ensures SameUnits(d, Breakpoint(d, op).0)
    ensures Inv(Breakpoint(d, op).0) && (Agrees(Breakpoint(d, op).0) <==> Landed(d, op))
  {
    hide FpEncode, DwtBreakpoint;
    FlashpatchKeeps(d, op.add, op.addr, op.fate);
    FpEncodeOn(op.addr);
    var d', max := Breakpoint(d, op).0, FpCount(d.hw);
    var n, k := Find(d.fp, max, Live(op.addr), 0), Find(d.fp, max, Free, 0);
    assert DwtAgrees(d') by {
      hide Flashpatch;
      assert d'.hw.dwt == d.hw.dwt && d'.hw.dwtOn == d.hw.dwtOn;
    }
    if n < max && !op.add {
      SlotChanged(d, d', n);
    } else if n == max {
      SlotChanged(d, d', k);
    }
  }

  lemma DwtLands(d: Debug, op: Op)
    requires Inv(d) && Agrees(d) && !ByFpb(d, op)
    ensures SameUnits(d, Breakpoint(d, op).0)
    ensures Inv(Breakpoint(d, op).0) && (Agrees(Breakpoint(d, op).0) <==> Landed(d, op))
  {
    hide FpEncode, Flashpatch;
    DwtKeeps(d, op.add, op.addr, op.fate);
    var d', max := Breakpoint(d, op).0, BpCount(d.hw);
    var n, k := Find(d.bp, max, Live(op.addr), 0), Find(d.bp, max, Free, 0);
    assert FpAgrees(d');
    if n < max && !op.add {
      DwtSlotChanged(d, d', n);
    } else if n == max && op.add && k < max {
      DwtSlotChanged(d, d', k);
    }
  }

  /** One request keeps tables and comparators together, if and only if the writes it needs arrive. */
  lemma AgreesExactly(d: Debug, op: Op)
    requires Inv(d) && Agrees(d)
    ensures SameUnits(d, Breakpoint(d, op).0)
    ensures Inv(Breakpoint(d, op).0) && (Agrees(Breakpoint(d, op).0) <==> Landed(d, op))
  {
    if ByFpb(d, op) {
      FpbLands(d, op);
    } else {
      DwtLands(d, op);
    }
  }

  /** Outside the code region a breakpoint takes one of the comparators that DWT_CTRL counts: adding fails exactly when
      the address is new and all of them are taken. */
  lemma OutsideCode(d: Debug, op: Op, n: nat)
    requires Inv(d) && op.addr >= CODE_END && n <= MAXBP
    requires if d.hw.dwtPresent then n * 0x1000_0000 <= d.hw.dwtCtrl < (n + 1) * 0x1000_0000 else n == 0
    ensures var (d', r) := Breakpoint(d, op);
      && d'.fp == d.fp && d'.hw == d.hw.(dwtOn := d'.hw.dwtOn, dwt := d'.hw.dwt)
      && (if op.add then r == 0 || r == 1 else r == 0)
      && (op.add ==> (r == 1 <==> !Holds(d.bp, op.addr) && forall i :: 0 <= i < n ==> d.bp[i].Live?))
      && (op.add && r == 0 ==> Gains(d.bp, d'.bp, op.addr))
      && (!op.add ==> Loses(d.bp, d'.bp, op.addr))
  {
    hide Watchpoint;
    DwtCountIsRight(d.hw, n);
    DwtMeans(d, op.add, op.addr, op.fate);
    WatchpointFrame(d.hw);
  }

  lemma WatchpointFrame(hw: Hw)
    ensures forall n: nat, addr: u32, func: u32, done: nat | n < |hw.dwt| ::
      var hw' := Watchpoint(hw, n, addr, func, done); hw' == hw.(dwtOn := hw'.dwtOn, dwt := hw'.dwt)
  {
  }

  // ----- runs -----

  function AfterOps(d: Debug, ops: seq<Op>): (d': Debug)
    requires d.Sized()
    ensures d'.Sized()
    decreases |ops|
  {
    if ops == [] then d
    else
      SizedKept(d, ops[0]);
      AfterOps(Breakpoint(d, ops[0]).0, ops[1..])
  }

  lemma SizedKept(d: Debug, op: Op)
    requires d.Sized()
    ensures Breakpoint(d, op).0.Sized()
  {
  }

  // Nothing set yet, in the tables or in the comparators.
  ghost predicate Unset(d: Debug) {
    && d.Sized()
    && (forall i :: 0 <= i < MAXFP ==> d.fp[i] == Free)
    && (forall i :: 0 <= i < MAXBP ==> d.bp[i] == Free)
    && (forall i :: 0 <= i < |d.hw.fpComp| ==> d.hw.fpComp[i] == 0)
    && (forall i :: 0 <= i < |d.hw.dwt| ==> d.hw.dwt[i].func == 0)
  }

  /** In every run, whatever becomes of the writes, no address is twice in a table. */
  lemma {:induction false} RunsKeep(d: Debug, ops: seq<Op>)
    requires Inv(d)
    ensures Inv(AfterOps(d, ops)) && SameUnits(d, AfterOps(d, ops))
    decreases |ops|
  {
    if ops != [] {
      BreakpointMeans(d, ops[0]);
      SizedKept(d, ops[0]);
      RunsKeep(Breakpoint(d, ops[0]).0, ops[1..]);
    }
  }

  ghost predicate AgreesThroughout(d: Debug, ops: seq<Op>)
    requires d.Sized()
  {
    forall k :: 0 <= k <= |ops| ==> Agrees(AfterOps(d, ops[..k]))
  }

  ghost predicate LandedThroughout(d: Debug, ops: seq<Op>)
    requires d.Sized()
  {
    forall k :: 0 <= k < |ops| ==> Landed(AfterOps(d, ops[..k]), ops[k])
  }

  lemma UpTo(d: Debug, ops: seq<Op>, k: nat)
    requires Inv(d) && k < |ops|
    ensures Inv(AfterOps(d, ops[..k])) && AfterOps(d, ops[..k + 1]) == Breakpoint(AfterOps(d, ops[..k]), ops[k]).0
  {
    RunsKeep(d, ops[..k]);
    OneMoreOp(d, ops[..k], ops[k]);
    assert ops[..k] + [ops[k]] == ops[..k + 1];
  }

  /** In every run the comparators agree with the tables all along, if and only if all the writes that the requests
      need arrive. */
  lemma {:induction false} AgreesThroughoutExactly(d: Debug, ops: seq<Op>)
    requires Inv(d) && Agrees(d)
    ensures AgreesThroughout(d, ops) <==> LandedThroughout(d, ops)
  {
    hide Agrees, Landed, Breakpoint;
    if AgreesThroughout(d, ops) {
      forall k | 0 <= k < |ops|
        ensures Landed(AfterOps(d, ops[..k]), ops[k])
      {
        UpTo(d, ops, k);
        AgreesExactly(AfterOps(d, ops[..k]), ops[k]);
      }
    }
    if LandedThroughout(d, ops) {
      forall k | 0 <= k <= |ops|
        ensures Agrees(AfterOps(d, ops[..k]))
      {
        LandedAgrees(d, ops, k);
      }
    }
  }

  lemma {:induction false} LandedAgrees(d: Debug, ops: seq<Op>, k: nat)
    requires Inv(d) && Agrees(d) && LandedThroughout(d, ops) && k <= |ops|
    ensures Agrees(AfterOps(d, ops[..k]))
    decreases k
  {
    hide Agrees, Landed, Breakpoint;
    if k == 0 {
      assert ops[..0] == [];
    } else {
      LandedAgrees(d, ops, k - 1);
      UpTo(d, ops, k - 1);
      AgreesExactly(AfterOps(d, ops[..k - 1]), ops[k - 1]);
    }
  }

  lemma {:induction false} OneMoreOp(d: Debug, ops: seq<Op>, op: Op)
    requires d.Sized()
    ensures AfterOps(d, ops + [op]) == Breakpoint(AfterOps(d, ops), op).0
    decreases |ops|
  {
    if ops == [] {
      SizedKept(d, op);
      assert [op][1..] == [];
    } else {
      SizedKept(d, ops[0]);
      assert (ops + [op])[1..] == ops[1..] + [op];
      OneMoreOp(Breakpoint(d, ops[0]).0, ops[1..], op);
    }
  }

  /** A lost comparator write goes unseen: the breakpoint is reported as set, and no comparator breaks on it; and one
      that is reported as removed goes on breaking. */
  lemma LostWrites(d: Debug, addr: u32)
    requires Unset(d) && FpCount(d.hw) > 0 && addr < CODE_END
    ensures var (d', r) := Breakpoint(d, Op(true, addr, Fate(true, false, 0)));
      && r == 0 && Holds(d'.fp, addr)
      && forall i :: 0 <= i < |d'.hw.fpComp| ==> FpDecode(d'.hw.fpComp[i]) == Free
    ensures var d1 := Breakpoint(d, Op(true, addr, WHOLE)).0;
      d1.Sized() &&
      var (d2, r) := Breakpoint(d1, Op(false, addr, Fate(true, false, 0)));
      && r == 0 && Dead(d2, addr)
      && exists i :: 0 <= i < FpCount(d2.hw) && FpDecode(d2.hw.fpComp[i]) == Live(addr / 2 * 2)
  {
    hide FpEncode;
    UnsetInv(d);
    var lost := Op(true, addr, Fate(true, false, 0));
    var add, remove := Op(true, addr, WHOLE), Op(false, addr, Fate(true, false, 0));
    assert FpDecode(0) == Free;
    BreakpointMeans(d, lost);
    BreakpointMeans(d, add);
    SizedKept(d, add);
    var d1 := Breakpoint(d, add).0;
    BreakpointMeans(d1, remove);
    FpDecodes(addr);
    assert d1.fp[0] == Live(addr) && d1.hw.fpComp[0] == FpEncode(addr);
    assert Breakpoint(d1, remove).0.hw.fpComp[0] == FpEncode(addr);
  }

  lemma UnsetInv(d: Debug)
    requires Unset(d)
    ensures Inv(d) && Agrees(d)
  {
  }

  // Adding breakpoints at consecutive words.
  function Adds(first: u32, k: nat): seq<Op>
    requires first + 4 * k <= TWO_32
  {
    if k == 0 then [] else Adds(first, k - 1) + [Op(true, first + 4 * (k - 1), WHOLE)]
  }

  // The first k slots are taken by consecutive words, in order, and no others.
  ghost predicate Filled(table: seq<Slot>, first: u32, k: nat)
    requires first + 4 * k <= TWO_32
  {
    k <= |table| && (forall i :: 0 <= i < k ==> table[i] == Live(first + 4 * i)) && UsedBelow(table, k)
  }

  lemma FilledNext(table: seq<Slot>, first: u32, k: nat, n: nat)
    requires first + 4 * (k + 1) <= TWO_32 && Filled(table, first, k) && k < n <= |table|
    ensures Find(table, n, Live(first + 4 * k), 0) == n && Find(table, n, Free, 0) == k
    ensures Filled(table[k := Live(first + 4 * k)], first, k + 1)
  {
    var f := Find(table, n, Free, 0);
    assert table[k] == Free;
  }

  ghost predicate UpperOff(hw: Hw) {
    BpCount(hw) <= |hw.dwt| && forall i :: WATCHPOINTS <= i < BpCount(hw) ==> hw.dwt[i].func == 0
  }

  lemma FillDwtNext(d: Debug, k: nat)
    requires Inv(d) && k < BpCount(d.hw) && Filled(d.bp, CODE_END, k) && UpperOff(d.hw)
    ensures var d' := Breakpoint(d, Op(true, CODE_END + 4 * k, WHOLE)).0;
      Inv(d') && BpCount(d'.hw) == BpCount(d.hw) && Filled(d'.bp, CODE_END, k + 1) && UpperOff(d'.hw)
  {
    DwtKeeps(d, true, CODE_END + 4 * k, WHOLE);
    FilledNext(d.bp, CODE_END, k, BpCount(d.hw));
    assert Breakpoint(d, Op(true, CODE_END + 4 * k, WHOLE)) == DwtBreakpoint(d, true, CODE_END + 4 * k, WHOLE);
  }

  lemma {:induction false} FillDwt(d: Debug, k: nat)
    requires Unset(d) && k <= BpCount(d.hw)
    ensures var d' := AfterOps(d, Adds(CODE_END, k));
      Inv(d') && BpCount(d'.hw) == BpCount(d.hw) && Filled(d'.bp, CODE_END, k) && UpperOff(d'.hw)
    decreases k
  {
    hide Inv, Breakpoint;
    UnsetInv(d);
    if k > 0 {
      FillDwt(d, k - 1);
      FillDwtNext(AfterOps(d, Adds(CODE_END, k - 1)), k - 1);
      OneMoreOp(d, Adds(CODE_END, k - 1), Op(true, CODE_END + 4 * (k - 1), WHOLE));
    }
  }

  ghost predicate AllWhole(ops: seq<Op>) {
    forall i :: 0 <= i < |ops| ==> ops[i].fate == WHOLE
  }

  // Without a lost write and with few comparators every write lands.
  lemma WholeLands(d: Debug, op: Op)
    requires Inv(d) && BpCount(d.hw) <= WATCHPOINTS && op.fate == WHOLE
    ensures Landed(d, op)
  {
    var max := BpCount(d.hw);
    var n, k := Find(d.bp, max, Live(op.addr), 0), Find(d.bp, max, Free, 0);
  }

  lemma AllWholeLand(d: Debug, ops: seq<Op>)
    requires Inv(d) && BpCount(d.hw) <= WATCHPOINTS && AllWhole(ops)
    ensures LandedThroughout(d, ops)
  {
    hide Landed;
    forall k | 0 <= k < |ops|
      ensures Landed(AfterOps(d, ops[..k]), ops[k])
    {
      RunsKeep(d, ops[..k]);
      WholeLands(AfterOps(d, ops[..k]), ops[k]);
    }
  }

  /** Without lost writes the comparators agree with the tables in every run, if and only if there are at most four
      for the DWT: swdp_watchpoint refuses the others, and its result is not looked at. */
  lemma DwtAgreesExactly(d: Debug)
    requires Unset(d)
    ensures (forall ops | AllWhole(ops) :: Agrees(AfterOps(d, ops))) <==> BpCount(d.hw) <= WATCHPOINTS
  {
    hide Agrees, Inv;
    UnsetInv(d);
    if BpCount(d.hw) <= WATCHPOINTS {
      forall ops | AllWhole(ops)
        ensures Agrees(AfterOps(d, ops))
      {
        AllWholeLand(d, ops);
        LandedAgrees(d, ops, |ops|);
        assert ops[..|ops|] == ops;
      }
    } else {
      var ops := Adds(CODE_END, 5);
      FillDwt(d, 5);
      AddsWhole(CODE_END, 5);
      FifthDisagrees(AfterOps(d, ops));
    }
  }

  lemma FifthDisagrees(d: Debug)
    requires d.Sized() && Filled(d.bp, CODE_END, 5) && UpperOff(d.hw) && BpCount(d.hw) > WATCHPOINTS
    ensures !Agrees(d)
  {
    assert d.bp[4] == Live(CODE_END + 16);
    assert !DwtSlotAgrees(d.bp[4], d.hw.dwt[4], d.hw.dwtOn);
  }

  lemma {:induction false} AddsWhole(first: u32, k: nat)
    requires first + 4 * k <= TWO_32
    ensures AllWhole(Adds(first, k))
  {
    if k > 0 {
      AddsWhole(first, k - 1);
    }
  }

  // Adding the next word to an FPB table of k words.
  lemma FillFpNext(d: Debug, k: nat)
    requires Inv(d) && k < FpCount(d.hw) && Filled(d.fp, 0, k)
    ensures var d' := Breakpoint(d, Op(true, 4 * k, WHOLE)).0;
      && Inv(d') && FpCount(d'.hw) == FpCount(d.hw) && BpCount(d'.hw) == BpCount(d.hw)
      && Filled(d'.fp, 0, k + 1) && d'.bp == d.bp
  {
    FlashpatchKeeps(d, true, 4 * k, WHOLE);
    FilledNext(d.fp, 0, k, FpCount(d.hw));
    assert Breakpoint(d, Op(true, 4 * k, WHOLE)) == Flashpatch(d, true, 4 * k, WHOLE);
  }

  lemma {:induction false} FillFp(d: Debug, k: nat)
    requires Unset(d) && k <= FpCount(d.hw)
    ensures var d' := AfterOps(d, Adds(0, k));
      && Inv(d') && FpCount(d'.hw) == FpCount(d.hw) && BpCount(d'.hw) == BpCount(d.hw)
      && Filled(d'.fp, 0, k) && d'.bp == d.bp
    decreases k
  {
    hide Inv, BpCount, Breakpoint;
    UnsetInv(d);
    if k > 0 {
      FillFp(d, k - 1);
      FillFpNext(AfterOps(d, Adds(0, k - 1)), k - 1);
      OneMoreOp(d, Adds(0, k - 1), Op(true, 4 * (k - 1), WHOLE));
    }
  }

  // With the FPB full of other addresses, b goes into the DWT.
  lemma GoesToDwt(d: Debug, b: u32)
    requires Inv(d) && b < CODE_END && !Holds(d.fp, b) && IsFull(d.fp, FpCount(d.hw))
    requires BpCount(d.hw) > 0 && !IsFull(d.bp, BpCount(d.hw))
    ensures var d' := Breakpoint(d, Op(true, b, WHOLE)).0;
      Holds(d'.bp, b) && d'.fp == d.fp && Inv(d') && FpCount(d'.hw) == FpCount(d.hw)
  {
    FlashpatchMeans(d, true, b, WHOLE);
    DwtMeans(d, true, b, WHOLE);
    DwtKeeps(d, true, b, WHOLE);
  }

  // Removing an FPB entry makes room there, and leaves the DWT alone.
  lemma MakesRoom(d: Debug, a: u32)
    requires Inv(d) && a < CODE_END && Holds(d.fp, a)
    ensures var d' := Breakpoint(d, Op(false, a, WHOLE)).0;
      d'.bp == d.bp && !IsFull(d'.fp, FpCount(d.hw)) && Inv(d') && FpCount(d'.hw) == FpCount(d.hw)
  {
    FlashpatchMeans(d, false, a, WHOLE);
    FlashpatchKeeps(d, false, a, WHOLE);
    FindFinds(d.fp, FpCount(d.hw), a);
    var n := Find(d.fp, FpCount(d.hw), Live(a), 0);
    assert Breakpoint(d, Op(false, a, WHOLE)).0.fp[n].Free?;
  }

  // With room in the FPB, b goes there, whether or not it is in the DWT.
  lemma GoesToFpb(d: Debug, b: u32)
    requires Inv(d) && b < CODE_END && !IsFull(d.fp, FpCount(d.hw))
    ensures var d' := Breakpoint(d, Op(true, b, WHOLE)).0; Holds(d'.fp, b) && d'.bp == d.bp
  {
    FlashpatchMeans(d, true, b, WHOLE);
    FlashpatchKeeps(d, true, b, WHOLE);
  }

  // With the FPB full of other addresses: add b, remove a to make room, add b again.
  lemma TwiceFrom(d: Debug, a: u32, b: u32)
    requires Inv(d) && a < CODE_END && b < CODE_END && a != b && Holds(d.fp, a)
    requires !Holds(d.fp, b) && IsFull(d.fp, FpCount(d.hw)) && BpCount(d.hw) > 0 && !IsFull(d.bp, BpCount(d.hw))
    ensures var d2 := Breakpoint(d, Op(true, b, WHOLE)).0;
      d2.Sized() &&
      var d3 := Breakpoint(d2, Op(false, a, WHOLE)).0;
      d3.Sized() &&
      var d4 := Breakpoint(d3, Op(true, b, WHOLE)).0;
      Holds(d4.fp, b) && Holds(d4.bp, b)
  {
    hide Breakpoint, Holds, IsFull;
    GoesToDwt(d, b);
    var d2 := Breakpoint(d, Op(true, b, WHOLE)).0;
    MakesRoom(d2, a);
    GoesToFpb(Breakpoint(d2, Op(false, a, WHOLE)).0, b);
  }

  lemma FilledHolds(d: Debug, max: nat)
    requires Unset(d) && max == FpCount(d.hw) > 0 && BpCount(d.hw) > 0 && 4 * max < CODE_END
    requires var d1 := AfterOps(d, Adds(0, max)); Filled(d1.fp, 0, max) && d1.bp == d.bp
    ensures var d1 := AfterOps(d, Adds(0, max));
      Holds(d1.fp, 0) && !Holds(d1.fp, 4 * max) && IsFull(d1.fp, max) && !IsFull(d1.bp, BpCount(d.hw))
  {
    var d1 := AfterOps(d, Adds(0, max));
    assert d1.bp[0] == Free && d1.fp[0] == Live(0);
  }

  // With the FPB full, b goes into the DWT; when an FPB entry is then removed, adding b again adds it there too.
  lemma LiveTwice(d: Debug)
    requires Unset(d) && FpCount(d.hw) > 0 && BpCount(d.hw) > 0
    ensures exists ops :: Holds(AfterOps(d, ops).fp, 4 * FpCount(d.hw)) && Holds(AfterOps(d, ops).bp, 4 * FpCount(d.hw))
  {
    hide Inv, Breakpoint, Filled, Holds, IsFull, AfterOps;
    UnsetInv(d);
    var max := FpCount(d.hw);
    var b: u32 := 4 * max;
    var ops1 := Adds(0, max);
    var ops2 := ops1 + [Op(true, b, WHOLE)];
    var ops3 := ops2 + [Op(false, 0, WHOLE)];
    FillFp(d, max);
    FilledHolds(d, max);
    TwiceFrom(AfterOps(d, ops1), 0, b);
    OneMoreOp(d, ops1, Op(true, b, WHOLE));
    OneMoreOp(d, ops2, Op(false, 0, WHOLE));
    OneMoreOp(d, ops3, Op(true, b, WHOLE));
    var d4 := AfterOps(d, ops3 + [Op(true, b, WHOLE)]);
    assert Holds(d4.fp, b) && Holds(d4.bp, b);
  }

  ghost predicate Dead(d: Debug, addr: u32) {
    !Holds(d.fp, addr) && !Holds(d.bp, addr)
  }

  /** Removing a breakpoint always leaves it dead, in every run, if and only if one of the two units has no
      comparators. */
  lemma RemoveKillsExactly(d: Debug)
    requires Unset(d)
    ensures (forall ops, addr, fate :: Dead(AfterOps(d, ops + [Op(false, addr, fate)]), addr)) <==>
      FpCount(d.hw) == 0 || BpCount(d.hw) == 0
  {
    UnsetInv(d);
    if FpCount(d.hw) == 0 || BpCount(d.hw) == 0 {
      forall ops, addr, fate
        ensures Dead(AfterOps(d, ops + [Op(false, addr, fate)]), addr)
      {
        RunsKeep(d, ops);
        OneMoreOp(d, ops, Op(false, addr, fate));
        BreakpointMeans(AfterOps(d, ops), Op(false, addr, fate));
      }
    } else {
      LiveTwice(d);
      var addr: u32 := 4 * FpCount(d.hw);
      var ops :| Holds(AfterOps(d, ops).fp, addr) && Holds(AfterOps(d, ops).bp, addr);
      RunsKeep(d, ops);
      OneMoreOp(d, ops, Op(false, addr, WHOLE));
      BreakpointMeans(AfterOps(d, ops), Op(false, addr, WHOLE));
      assert !Dead(AfterOps(d, ops + [Op(false, addr, WHOLE)]), addr);
    }
  }

  // ----- the bridge -----

  class Bridge {
    const fpAddr: array<u32>
    const fpState: array<bool>
    const bpAddr: array<u32>
    const bpState: array<bool>
    var hw: Hw

    constructor (hw: Hw)
      ensures Arrays() && this.hw == hw
      ensures fresh(fpAddr) && fresh(fpState) && fresh(bpAddr) && fresh(bpState)
      ensures Tables() == Debug(seq(MAXFP, _ => Free), seq(MAXBP, _ => Free), hw)
    {
      fpAddr, fpState := new u32[MAXFP](_ => 0), new bool[MAXFP](_ => false);
      bpAddr, bpState := new u32[MAXBP](_ => 0), new bool[MAXBP](_ => false);
      this.hw := hw;
    }

    ghost predicate Arrays() {
      && fpAddr.Length == MAXFP && fpState.Length == MAXFP && bpAddr.Length == MAXBP && bpState.Length == MAXBP
      && fpAddr != bpAddr && fpState != bpState
    }

    ghost function Tables(): Debug
      requires Arrays()
      reads this, fpAddr, fpState, bpAddr, bpState
    {
      Debug(Slots(fpAddr[..], fpState[..]), Slots(bpAddr[..], bpState[..]), hw)
    }

    // The search loops of both tables, for a live address or, without one, for a free slot.
    method FindSlot(addrs: array<u32>, states: array<bool>, n: nat, s: Slot) returns (k: nat)
      requires n <= addrs.Length == states.Length
      ensures k == Find(Slots(addrs[..], states[..]), n, s, 0)
    {
      ghost var table := Slots(addrs[..], states[..]);
      k := 0;
      while k < n
        invariant 0 <= k <= n
        invariant Find(table, n, s, 0) == Find(table, n, s, k)
      {
        if (if states[k] then s == Live(addrs[k]) else s == Free) {
          return;
        }
        k := k + 1;
      }
    }

    // swdp_ahb_write to FP_COMP
    method PutFpComp(n: nat, v: u32, took: bool)
      requires n < |hw.fpComp|
      modifies `hw
      ensures hw == if took then old(hw).(fpComp := old(hw).fpComp[n := v]) else old(hw)
    {
      if took {
        hw := hw.(fpComp := hw.fpComp[n := v]);
      }
    }

    method HandleFlashpatch(add: bool, addr: u32, fate: Fate) returns (r: int)
      requires Arrays() && Tables().Sized() && addr < CODE_END
      modifies this, fpAddr, fpState
      ensures (Tables(), r) == Flashpatch(old(Tables()), add, addr, fate)
    {
      ghost var d := Tables();
      var max := FpCount(hw);
      var n := FindSlot(fpAddr, fpState, max, Live(addr));
      if n < max {
        if !add {
          fpState[n] := false;
          PutFpComp(n, 0, fate.comp);
          assert Slots(fpAddr[..], fpState[..]) == d.fp[n := Free];
        }
        return 0;
      }
      if !add {
        return -1;
      }
      var k := FindSlot(fpAddr, fpState, max, Free);
      if k == max {
        return -1;
      }
      if fate.ctrl {
        hw := hw.(fpOn := true);
      }
      PutFpComp(k, FpEncode(addr), fate.comp);
      fpState[k], fpAddr[k] := true, addr;
      assert Slots(fpAddr[..], fpState[..]) == d.fp[k := Live(addr)];
      r := 0;
    }

    method HandleBreakpoint(add: bool, addr: u32, fate: Fate) returns (r: int)
      requires Arrays() && Tables().Sized()
      modifies this, fpAddr, fpState, bpAddr, bpState
      ensures (Tables(), r) == Breakpoint(old(Tables()), Op(add, addr, fate))
    {
      if addr < CODE_END {
        r := HandleFlashpatch(add, addr, fate);
        if r == 0 {
          return;
        }
      }
      r := HandleDwt(add, addr, fate);
    }

    method HandleDwt(add: bool, addr: u32, fate: Fate) returns (r: int)
      requires Arrays() && Tables().Sized()
      modifies this, bpAddr, bpState
      ensures (Tables(), r) == DwtBreakpoint(old(Tables()), add, addr, fate)
    {
      ghost var d := Tables();
      var max := BpCount(hw);
      var n := FindSlot(bpAddr, bpState, max, Live(addr));
      if n < max {
        if !add {
          bpState[n] := false;
          hw := Watchpoint(hw, n, 0, 0, fate.watch);
          assert Slots(bpAddr[..], bpState[..]) == d.bp[n := Free];
        }
        return 0;
      }
      if !add {
        return 0;
      }
      var k := FindSlot(bpAddr, bpState, max, Free);
      if k == max {
        return 1;
      }
      bpAddr[k], bpState[k] := addr, true;
      hw := Watchpoint(hw, k, addr, DWT_FN_WATCH_PC, fate.watch);
      assert Slots(bpAddr[..], bpState[..]) == d.bp[k := Live(addr)];
      r := 0;
    }
  }

  function Slots(addrs: seq<u32>, states: seq<bool>): (table: seq<Slot>)
    requires |addrs| == |states|
    ensures |table| == |addrs|
  {
    seq(|addrs|, i requires 0 <= i < |addrs| => if states[i] then Live(addrs[i]) else Free)
  }
}
