/** Calling a function of the flash agent (invoke in tools/debugger-commands.c): the core registers are written one
    exchange each, the core is resumed, and its registers tell how it came back.  Nobody looks at whether the writes
    arrived. */
module CoreCall {
  import opened Words
  import opened NorFlash
  import opened SpifiAgent
  import opened Session

  // ----- the target -----

  // clear: no exception is active.
  datatype Regs = Regs(r0: u32, r1: u32, r2: u32, r3: u32, sp: u32, lr: u32, pc: u32, psr: u32, clear: bool)

  // ram is the agent's data buffer.
  datatype Machine = Machine(regs: Regs, chip: Nor, ram: seq<byte>)

  // What the host reads from the agent's header: where it is in target memory, and what it has to offer.  The word
  // at load_addr is a breakpoint.
  datatype Agent = Agent(load_addr: u32, data_addr: u32, data_size: u32, flash_addr: u32, flash_size: u32,
                         erase: u32, write: u32)

  // The program counter without the Thumb bit.
  function Entry(func: u32): (pc: u32)
    ensures pc % 2 == 0
  {
    func - func % 2
  }

  predicate Callable(a: Agent) {
    && a.load_addr % 2 == 0 && Entry(a.erase) != a.load_addr && Entry(a.write) != a.load_addr
    && Entry(a.erase) != Entry(a.write)
  }

  // A call; r3 is always 0.
  datatype Call = Call(func: u32, r0: u32, r1: u32, r2: u32)

  // The k-th unexamined register write arrives or not; the k-th examined exchange is delivered or not; scratch is
  // what a function leaves in the registers it need not preserve; wild is where a run ends up that was not started
  // as the agent expects; fault is how the flash misbehaves.
  datatype Env = Env(took: nat -> bool, link: nat -> Delivery, scratch: nat -> Regs, wild: nat -> Machine,
                     fault: Faults)

  datatype State = State(m: Machine, puts: nat, asks: nat)

  // ----- the registers -----

  const PUTS: nat := 9

  // The nine writes: r0 to r3, sp, lr, pc, AIRCR, psr.
  function Loaded(took: nat -> bool, puts: nat, a: Agent, r: Regs, c: Call): Regs
    requires Callable(a)
  {
    Regs(
      if took(puts) then c.r0 else r.r0,
      if took(puts + 1) then c.r1 else r.r1,
      if took(puts + 2) then c.r2 else r.r2,
      if took(puts + 3) then 0 else r.r3,
      if took(puts + 4) then Sub32(a.load_addr, 4) else r.sp,
      if took(puts + 5) then a.load_addr + 1 else r.lr,
      if took(puts + 6) then Entry(c.func) else r.pc,
      if took(puts + 8) then 0x0100_0000 else r.psr,
      took(puts + 7) || r.clear)
  }

  // Stack, return address, Thumb state and no exception: a function started like this returns to the breakpoint.
  predicate Sane(a: Agent, r: Regs) {
    && r.sp == Sub32(a.load_addr, 4) && a.load_addr + 1 == r.lr
    && ThumbThread(r.psr) && r.clear
  }

  predicate EraseFits(m: Machine) {
    m.regs.r0 % SECTOR == 0 ==> m.regs.r0 + SECTOR * Sectors(m.regs.r1) <= |m.chip.mem|
  }

  predicate WriteFits(a: Agent, m: Machine) {
    && m.regs.r1 == a.data_addr && m.regs.r2 <= |m.ram|
    && (m.regs.r0 % SECTOR == 0 ==> m.regs.r0 + PAGE * Pages(m.regs.r2) <= |m.chip.mem|)
  }

  predicate RunsErase(a: Agent, m: Machine) {
    Sane(a, m.regs) && m.regs.pc == Entry(a.erase) && EraseFits(m)
  }

  predicate RunsWrite(a: Agent, m: Machine) {
    Sane(a, m.regs) && m.regs.pc == Entry(a.write) && WriteFits(a, m)
  }

  function Returned(r: Regs, err: int, x: Regs, load_addr: u32): Regs {
    r.(r0 := err % TWO_32, r1 := x.r1, r2 := x.r2, r3 := x.r3, lr := x.lr, pc := load_addr)
  }

  // What flash_agent_erase and flash_agent_write do to flash and buffer: the last page is filled up once it is reached.
  function Erasing(f: Faults, m: Machine): (r: (Machine, int))
    requires EraseFits(m)
    ensures r.0.ram == m.ram && |r.0.chip.mem| == |m.chip.mem|
  {
    if m.regs.r0 % SECTOR != 0 then (m, ERR_ALIGNMENT)
    else
      SectorsOf(m.regs.r1);
      EraseMeans(f, m.chip, m.regs.r0, Sectors(m.regs.r1));
      var (d, err) := EraseRun(f, m.chip, m.regs.r0, Sectors(m.regs.r1)); (m.(chip := d), err)
  }

  function Writing(f: Faults, a: Agent, m: Machine): (r: (Machine, int))
    requires WriteFits(a, m) && PageStart(|m.ram|)
    ensures |r.0.ram| == |m.ram| && |r.0.chip.mem| == |m.chip.mem|
  {
    if m.regs.r0 % SECTOR != 0 then (m, ERR_ALIGNMENT)
    else
      SectorsStartPages(m.regs.r0);
      WriteMeans(f, m.chip, m.regs.r0, Padded(m.ram[..m.regs.r2]));
      var (d, err) := WriteRun(f, m.chip, m.regs.r0, Padded(m.ram[..m.regs.r2]));
      var reached := d.ops == m.chip.ops + Pages(m.regs.r2);
      (m.(chip := d, ram := if reached then PaddedBuffer(m.ram, m.regs.r2) else m.ram), err)
  }

  // Anything may have happened, but not to the sizes.
  function Strayed(w: Machine, m: Machine): (n: Machine)
    ensures |n.ram| == |m.ram| && |n.chip.mem| == |m.chip.mem|
  {
    Machine(w.regs, Nor(Fit(w.chip.mem, |m.chip.mem|), w.chip.ops), Fit(w.ram, |m.ram|))
  }

  // The core runs until it halts.
  function Resumed(e: Env, k: nat, a: Agent, m: Machine): (n: Machine)
    requires PageStart(|m.ram|)
    ensures |n.ram| == |m.ram| && |n.chip.mem| == |m.chip.mem|
  {
    if m.regs.pc == a.load_addr then m
    else if RunsErase(a, m) then
      var (n, err) := Erasing(e.fault, m);
      n.(regs := Returned(m.regs, err, e.scratch(k), a.load_addr))
    else if RunsWrite(a, m) then
      var (n, err) := Writing(e.fault, a, m);
      n.(regs := Returned(m.regs, err, e.scratch(k), a.load_addr))
    else Strayed(e.wild(k), m)
  }

  // ----- invoke -----

  // The examined exchanges: the status read and the write that resume, the wait, and the two register reads.
  function Goes(link: nat -> Delivery, k: nat): bool {
    link(k) == Delivered && link(k + 1) != RequestLost
  }

  function WaitAt(link: nat -> Delivery, k: nat): nat {
    if link(k) == Delivered then k + 2 else k + 1
  }

  function Started(e: Env, a: Agent, s: State, c: Call): Machine
    requires Callable(a)
  {
    s.m.(regs := Loaded(e.took, s.puts, a, s.m.regs, c))
  }

  function Ran(e: Env, a: Agent, s: State, c: Call): Machine
    requires Callable(a) && PageStart(|s.m.ram|)
  {
    if Goes(e.link, s.asks) then Resumed(e, s.asks, a, Started(e, a, s, c)) else Started(e, a, s, c)
  }

  // A register that could not be read keeps its initial value of all ones.
  function Seen(d: Delivery, v: u32): u32 {
    if d == Delivered then v else 0xFFFF_FFFF
  }

  function Invoked(e: Env, a: Agent, s: State, c: Call): (r: (State, int))
    requires Callable(a) && PageStart(|s.m.ram|)
    ensures |r.0.m.ram| == |s.m.ram| && |r.0.m.chip.mem| == |s.m.chip.mem| && r.0.puts == s.puts + PUTS
  {
    var m, j := Ran(e, a, s, c), WaitAt(e.link, s.asks);
    if e.link(j) != Delivered then (State(m, s.puts + PUTS, j + 1), -1)
    else
      var res, pc := Seen(e.link(j + 1), m.regs.r0), Seen(e.link(j + 2), m.regs.pc);
      (State(m, s.puts + PUTS, j + 3), if pc != a.load_addr then -1 else res)
  }

  // ----- what a result of zero says -----

  // A call the host makes.
  predicate IsCall(a: Agent, c: Call) {
    c.func == a.erase || (c.func == a.write && c.r1 == a.data_addr)
  }

  // The function started with the arguments of the call.
  predicate Entered(e: Env, a: Agent, s: State, c: Call)
    requires Callable(a)
  {
    var r := Started(e, a, s, c).regs;
    && Goes(e.link, s.asks) && Sane(a, r) && r.pc == Entry(c.func)
    && r.r0 == c.r0 && r.r1 == c.r1 && (c.func == a.write ==> r.r2 == c.r2)
  }

  // The wait and both register reads are answered.
  predicate Answered(link: nat -> Delivery, k: nat) {
    var j := WaitAt(link, k); link(j) == Delivered && link(j + 1) == Delivered && link(j + 2) == Delivered
  }

  // The register writes that matter: not r3, not the third argument of a function with two, and not the length of
  // an erase that is refused for its address.
  predicate NeededTook(took: nat -> bool, puts: nat, a: Agent, c: Call) {
    && took(puts) && took(puts + 4) && took(puts + 5) && took(puts + 6) && took(puts + 7) && took(puts + 8)
    && (took(puts + 1) || (c.func == a.erase && c.r0 % SECTOR != 0))
    && (took(puts + 2) || c.func == a.erase)
  }

  // Nothing that goes unseen can make the call report a success it did not have.
  predicate Secure(took: nat -> bool, link: nat -> Delivery, puts: nat, asks: nat, a: Agent, c: Call) {
    || !Answered(link, asks)
    || (if Goes(link, asks) then NeededTook(took, puts, a, c) else took(puts + 6) || (took(puts) && c.r0 != 0))
  }

  lemma SecureSuffices(e: Env, a: Agent, s: State, c: Call)
    requires Callable(a) && IsCall(a, c) && PageStart(|s.m.ram|)
    requires Secure(e.took, e.link, s.puts, s.asks, a, c) && Invoked(e, a, s, c).1 == 0
    ensures Entered(e, a, s, c)
  {
    hide EraseRun, WriteRun, Padded, Sectors, Pages;
    assert Answered(e.link, s.asks);
  }

  // An erase that was entered and returned zero is the agent's loop without an error.
  lemma EnteredErase(e: Env, a: Agent, s: State, c: Call)
    requires Callable(a) && c.func == a.erase && PageStart(|s.m.ram|)
    requires c.r0 % SECTOR == 0 ==> Sectors(c.r1) >= 0 && c.r0 + SECTOR * Sectors(c.r1) <= |s.m.chip.mem|
    requires Entered(e, a, s, c) && Invoked(e, a, s, c).1 == 0
    ensures c.r0 % SECTOR == 0
    ensures EraseRun(e.fault, s.m.chip, c.r0, Sectors(c.r1)) == (Invoked(e, a, s, c).0.m.chip, ERR_NONE)
  {
    hide EraseRun, WriteRun, Padded, Sectors, Pages;
    if c.r0 % SECTOR == 0 {
      EraseMeans(e.fault, s.m.chip, c.r0, Sectors(c.r1));
    }
  }

  // The prior registers that show it: the core stands on the breakpoint with a zero result.
  lemma NotStarted(e: Env, a: Agent, s: State, c: Call)
    requires Callable(a) && PageStart(|s.m.ram|) && Answered(e.link, s.asks) && !Goes(e.link, s.asks)
    requires !e.took(s.puts + 6) && (e.took(s.puts) ==> c.r0 == 0)
    requires s.m.regs.pc == a.load_addr && s.m.regs.r0 == 0
    ensures Invoked(e, a, s, c).1 == 0 && !Entered(e, a, s, c)
  {
  }

  // Registers that differ from what any of the writes puts there.
  function Astray(a: Agent, c: Call): Regs
    requires Callable(a)
  {
    Regs(if c.r0 == 0xFFFF_F000 then 0xFFFF_E000 else 0xFFFF_F000,
         if c.r1 == 0xFFFF_FFFF then 1 else 0xFFFF_FFFF,
         if c.r2 == 0xFFFF_FFFF then 1 else 0xFFFF_FFFF,
         0, a.load_addr, a.load_addr, Elsewhere(a), 0, false)
  }

  function Elsewhere(a: Agent): (pc: u32)
    requires Callable(a)
    ensures pc != a.load_addr && pc != Entry(a.erase) && pc != Entry(a.write)
  {
    var pc: u32 := 1; pc
  }

  // Where a stray run ends that looks like a success.
  function Lucky(a: Agent, mem: seq<byte>, ram: seq<byte>): Machine {
    Machine(Regs(0, 0, 0, 0, 0, 0, a.load_addr, 0, false), Nor(mem, 0), ram)
  }

  // On a target without memory, or for a real range to erase, such registers fit no function of the agent.
  lemma Misled(e: Env, a: Agent, s: State, c: Call)
    requires || (s.m.chip.mem == [] && s.m.ram == [])
             || (c.func == a.erase && 0 < c.r1 && c.r0 + c.r1 <= |s.m.chip.mem| < TWO_32 && c.r0 + c.r1 <= 0xFFFF_F000)
    requires Callable(a) && IsCall(a, c) && Answered(e.link, s.asks) && Goes(e.link, s.asks)
    requires !NeededTook(e.took, s.puts, a, c)
    requires PageStart(|s.m.ram|) && s.m.regs == Astray(a, c) && e.wild(s.asks).regs == Lucky(a, [], []).regs
    ensures Invoked(e, a, s, c).1 == 0 && !Entered(e, a, s, c)
    ensures Invoked(e, a, s, c).0.m == Strayed(e.wild(s.asks), s.m)
  {
    var m := Started(e, a, s, c);
    SectorsOf(m.regs.r1);
    PagesOf(m.regs.r2);
    assert !RunsErase(a, m);
    assert !RunsWrite(a, m);
  }

  // A call whose result is to be trusted on every target: a result of zero means that the function was entered.
  ghost predicate Trusted(took: nat -> bool, link: nat -> Delivery, puts: nat, asks: nat, a: Agent, c: Call)
    requires Callable(a)
  {
    forall e: Env, m: Machine | e.took == took && e.link == link && PageStart(|m.ram|) ::
      Invoked(e, a, State(m, puts, asks), c).1 == 0 ==> Entered(e, a, State(m, puts, asks), c)
  }

  /** On all targets, whatever was in the registers before, a call that returns zero entered its function with its
      arguments, if and only if no register write was lost that matters. */
  lemma InvokeExactly(took: nat -> bool, link: nat -> Delivery, puts: nat, asks: nat, a: Agent, c: Call)
    requires Callable(a) && IsCall(a, c)
    ensures Trusted(took, link, puts, asks, a, c) <==> Secure(took, link, puts, asks, a, c)
  {
    if Secure(took, link, puts, asks, a, c) {
      forall e: Env, m: Machine | e.took == took && e.link == link && PageStart(|m.ram|)
        ensures Invoked(e, a, State(m, puts, asks), c).1 == 0 ==> Entered(e, a, State(m, puts, asks), c)
      {
        if Invoked(e, a, State(m, puts, asks), c).1 == 0 {
          SecureSuffices(e, a, State(m, puts, asks), c);
        }
      }
    } else {
      var e := Env(took, link, k => Astray(a, c), k => Lucky(a, [], []), k => []);
      if Goes(link, asks) {
        var m := Machine(Astray(a, c), Nor([], 0), []);
        Misled(e, a, State(m, puts, asks), c);
        assert PageStart(|m.ram|);
      } else {
        var m := Machine(Astray(a, c).(pc := a.load_addr, r0 := 0), Nor([], 0), []);
        NotStarted(e, a, State(m, puts, asks), c);
        assert PageStart(|m.ram|);
      }
    }
  }

  // ----- what a call does whose registers arrived -----

  // A call that returned zero was answered, and leaves the core on the breakpoint with a zero result.
  predicate Idle(a: Agent, r: Regs) {
    r.pc == a.load_addr && r.r0 == 0
  }

  lemma ZeroLeaves(e: Env, a: Agent, s: State, c: Call)
    requires Callable(a) && PageStart(|s.m.ram|)
    ensures var (s', r) := Invoked(e, a, s, c);
      r == 0 ==> Answered(e.link, s.asks) && Idle(a, s'.m.regs) && s'.asks == After(e.link, s.asks)
  {
    hide Ran;
  }

  /** What a call returns: -1 when the wait is given up, or when the program counter cannot be read or is not at the
      breakpoint; and else the result register, all ones if it cannot be read. */
  lemma CallReturns(e: Env, a: Agent, s: State, c: Call)
    requires Callable(a) && PageStart(|s.m.ram|)
    ensures var (s', r) := Invoked(e, a, s, c);
      var wait := s.asks + if e.link(s.asks) == Delivered then 2 else 1;
      && s'.puts == s.puts + 9
      && if e.link(wait) != Delivered then r == -1 && s'.asks == wait + 1
         else
           && s'.asks == wait + 3
           && r == if e.link(wait + 2) != Delivered || s'.m.regs.pc != a.load_addr then -1
                   else if e.link(wait + 1) != Delivered then 0xFFFF_FFFF else s'.m.regs.r0
  {
    hide Ran;
  }

  // The next exchange after a call that was answered.
  function After(link: nat -> Delivery, k: nat): nat {
    WaitAt(link, k) + 3
  }

  predicate EraseCanReturn(took: nat -> bool, link: nat -> Delivery, p: nat, k: nat, at: u32) {
    Answered(link, k) && (Goes(link, k) || (!took(p + 6) && (!took(p) || at == 0)))
  }

  lemma EraseReturned(e: Env, a: Agent, s: State, c: Call)
    requires Callable(a) && PageStart(|s.m.ram|) && c.func == a.erase && Invoked(e, a, s, c).1 == 0
    ensures EraseCanReturn(e.took, e.link, s.puts, s.asks, c.r0)
  {
    ZeroLeaves(e, a, s, c);
  }

  /** An erase call runs the agent's loop, exactly if the core was resumed, and returns zero exactly if that
      succeeded and was seen to. */
  lemma EraseCall(e: Env, a: Agent, s: State, c: Call)
    requires Callable(a) && PageStart(|s.m.ram|) && c.func == a.erase && NeededTook(e.took, s.puts, a, c)
    requires c.r0 % SECTOR == 0 ==> Sectors(c.r1) >= 0 && c.r0 + SECTOR * Sectors(c.r1) <= |s.m.chip.mem|
    ensures var (s', r) := Invoked(e, a, s, c);
      && s'.puts == s.puts + PUTS && s'.m.ram == s.m.ram
      && (r == 0 ==> Left(a, s'.m.regs, RAN))
      && (c.r0 % SECTOR != 0 ==> r != 0 && s'.m.chip == s.m.chip)
      && (c.r0 % SECTOR == 0 ==>
            var (d, err) := EraseRun(e.fault, s.m.chip, c.r0, Sectors(c.r1));
            && s'.m.chip == (if Goes(e.link, s.asks) then d else s.m.chip)
            && (r == 0 <==> Goes(e.link, s.asks) && Answered(e.link, s.asks) && err == ERR_NONE))
  {
    hide EraseRun, WriteRun, Padded, Sectors, Pages;
    var m := Started(e, a, s, c);
    assert Sane(a, m.regs) && m.regs.r0 == c.r0 && m.regs.pc == Entry(c.func);
    if c.r0 % SECTOR == 0 {
      EraseMeans(e.fault, s.m.chip, c.r0, Sectors(c.r1));
    }
  }

  // An erase call that returns zero although the core was not resumed has not done anything.
  lemma EraseSkipped(e: Env, a: Agent, s: State, c: Call)
    requires Callable(a) && PageStart(|s.m.ram|) && c.func == a.erase && !Goes(e.link, s.asks)
    requires Invoked(e, a, s, c).1 == 0
    ensures var s' := Invoked(e, a, s, c).0;
      s'.m.chip == s.m.chip && s'.m.ram == s.m.ram && Left(a, s'.m.regs, Skipped(e.took, s.puts, a, c.r1))
  {
    ZeroLeaves(e, a, s, c);
  }

  // ----- a write call after a call that returned zero -----

  // Which registers are known to be right by then, besides that the core is idle: r1 as the address of the buffer,
  // the others as Sane wants them.
  datatype Known = Known(sp: bool, lr: bool, clear: bool, psr: bool, r1: bool)

  // A function that ran keeps stack pointer and state.
  const RAN := Known(true, false, true, true, false)

  function Skipped(took: nat -> bool, p: nat, a: Agent, length: u32): Known {
    Known(took(p + 4), took(p + 5), took(p + 7), took(p + 8), took(p + 1) && length == a.data_addr)
  }

  predicate ThumbThread(psr: u32) {
    psr / 0x0100_0000 % 2 == 1 && psr % 0x200 == 0
  }

  predicate Left(a: Agent, r: Regs, known: Known) {
    && Idle(a, r)
    && (known.sp ==> r.sp == Sub32(a.load_addr, 4))
    && (known.lr ==> a.load_addr + 1 == r.lr)
    && (known.clear ==> r.clear)
    && (known.psr ==> ThumbThread(r.psr))
    && (known.r1 ==> r.r1 == a.data_addr)
  }

  // The register writes that a write call needs then.
  predicate WriteNeeded(took: nat -> bool, p: nat, at: u32, known: Known) {
    && (took(p) || at == 0) && (took(p + 1) || known.r1) && took(p + 2) && (took(p + 4) || known.sp)
    && (took(p + 5) || known.lr) && took(p + 6) && (took(p + 7) || known.clear) && (took(p + 8) || known.psr)
  }

  predicate WriteCanReturn(took: nat -> bool, link: nat -> Delivery, p: nat, k: nat, at: u32) {
    Answered(link, k) && if took(p + 6) then Goes(link, k) else !took(p) || at == 0
  }

  lemma WriteReturned(e: Env, a: Agent, s: State, c: Call)
    requires Callable(a) && PageStart(|s.m.ram|) && c.func == a.write && Idle(a, s.m.regs)
    requires Invoked(e, a, s, c).1 == 0
    ensures WriteCanReturn(e.took, e.link, s.puts, s.asks, c.r0)
  {
    ZeroLeaves(e, a, s, c);
  }

  lemma WriteStarted(e: Env, a: Agent, s: State, c: Call, known: Known)
    requires Callable(a) && c.func == a.write && c.r1 == a.data_addr
    requires Left(a, s.m.regs, known) && WriteNeeded(e.took, s.puts, c.r0, known)
    ensures var r := Started(e, a, s, c).regs;
      Sane(a, r) && r.r0 == c.r0 && r.r1 == c.r1 && r.r2 == c.r2 && r.pc == Entry(c.func)
  {
  }

  /** The same for a write call, of the first bytes in the agent's buffer. */
  lemma WriteCall(e: Env, a: Agent, s: State, c: Call, known: Known)
    requires Callable(a) && PageStart(|s.m.ram|) && c.func == a.write && c.r1 == a.data_addr && c.r2 <= |s.m.ram|
    requires Left(a, s.m.regs, known) && WriteNeeded(e.took, s.puts, c.r0, known)
    requires c.r0 % SECTOR == 0 && c.r0 + PAGE * Pages(c.r2) <= |s.m.chip.mem|
    ensures PageStart(c.r0)
    ensures var (s', r) := Invoked(e, a, s, c);
      var (d, err) := WriteRun(e.fault, s.m.chip, c.r0, Padded(s.m.ram[..c.r2]));
      && s'.puts == s.puts + PUTS
      && s'.m.chip == (if Goes(e.link, s.asks) then d else s.m.chip)
      && (r == 0 ==> Left(a, s'.m.regs, RAN))
      && (r == 0 <==> Goes(e.link, s.asks) && Answered(e.link, s.asks) && err == ERR_NONE)
  {
    hide EraseRun, WriteRun, Padded, Sectors, Pages, WriteNeeded, Loaded;
    SectorsStartPages(c.r0);
    WriteStarted(e, a, s, c, known);
    WriteMeans(e.fault, s.m.chip, c.r0, Padded(s.m.ram[..c.r2]));
  }

  // ----- the code -----

  // Register n of the debug interface.
  function Reg(r: Regs, n: nat): u32 {
    match n
    case 0 => r.r0
    case 1 => r.r1
    case 2 => r.r2
    case 3 => r.r3
    case 13 => r.sp
    case 14 => r.lr
    case 15 => r.pc
    case _ => r.psr
  }

  function WithReg(r: Regs, n: nat, v: u32): Regs {
    match n
    case 0 => r.(r0 := v)
    case 1 => r.(r1 := v)
    case 2 => r.(r2 := v)
    case 3 => r.(r3 := v)
    case 13 => r.(sp := v)
    case 14 => r.(lr := v)
    case 15 => r.(pc := v)
    case _ => r.(psr := v)
  }

  // The halted core as the host sees it.
  class Core {
    const target: Target
    const agent: Agent
    const env: Env
    var regs: Regs
    var puts: nat
    var asks: nat

    constructor (target: Target, agent: Agent, env: Env, regs: Regs)
      requires env.fault == target.fault && Callable(agent) && PageStart(target.ram.Length)
      ensures this.target == target && this.agent == agent && this.env == env && Valid()
      ensures Now() == State(Machine(regs, target.chip, target.ram[..]), 0, 0)
    {
      this.target, this.agent, this.env := target, agent, env;
      this.regs, puts, asks := regs, 0, 0;
    }

    ghost predicate Valid() {
      env.fault == target.fault && Callable(agent) && PageStart(target.ram.Length)
    }

    ghost function Now(): (s: State)
      reads this, target, target.ram
      ensures |s.m.ram| == target.ram.Length
    {
      State(Machine(regs, target.chip, target.ram[..]), puts, asks)
    }

    // swdp_core_write; bit 0 of the program counter is not kept.
    method CoreWrite(n: nat, v: u32)
      requires n < 4 || 13 <= n <= 16
      modifies `regs, `puts
      ensures puts == old(puts) + 1
      ensures (
        var was, now := Reg(old(regs), n), if n == 15 then Entry(v) else v;
        regs == WithReg(old(regs), n, if env.took(old(puts)) then now else was))
    {
      if env.took(puts) {
        regs := WithReg(regs, n, if n == 15 then Entry(v) else v);
      }
      puts := puts + 1;
    }

    // The write to AIRCR that clears active exceptions.
    method ClearExceptions()
      modifies `regs, `puts
      ensures puts == old(puts) + 1
      ensures regs == old(regs).(clear := env.took(old(puts)) || old(regs).clear)
    {
      if env.took(puts) {
        regs := regs.(clear := true);
      }
      puts := puts + 1;
    }

    // swdp_core_read; the caller's variable is only set on success.
    method CoreRead(v: u32, before: u32) returns (x: u32)
      modifies `asks
      ensures asks == old(asks) + 1 && x == if env.link(old(asks)) == Delivered then v else before
    {
      x := if env.link(asks) == Delivered then v else before;
      asks := asks + 1;
    }

    // The target's side: the core runs until it halts.
    method Run(k: nat)
      requires Valid()
      modifies `regs, target`chip, target.ram
      ensures Now().m == Resumed(env, k, agent, old(Now().m))
    {
      hide EraseRun, WriteRun, Padded, PaddedBuffer, Sectors, Pages;
      ghost var m := Now().m;
      if regs.pc == agent.load_addr {
      } else if RunsErase(agent, Machine(regs, target.chip, target.ram[..])) {
        var err := target.FlashAgentErase(regs.r0, regs.r1);
        assert (target.chip, err) == (Erasing(env.fault, m).0.chip, Erasing(env.fault, m).1);
        regs := Returned(regs, err, env.scratch(k), agent.load_addr);
      } else if RunsWrite(agent, Machine(regs, target.chip, target.ram[..])) {
        var err := target.FlashAgentWrite(regs.r0, regs.r2);
        assert Machine(m.regs, target.chip, target.ram[..]) == Writing(env.fault, agent, m).0;
        assert err == Writing(env.fault, agent, m).1;
        regs := Returned(regs, err, env.scratch(k), agent.load_addr);
      } else {
        var n := Strayed(env.wild(k), Machine(regs, target.chip, target.ram[..]));
        regs, target.chip := n.regs, n.chip;
        forall i | 0 <= i < target.ram.Length {
          target.ram[i] := n.ram[i];
        }
        assert target.ram[..] == n.ram;
      }
    }

    // swdp_core_resume: the status is read, and written back with the halt bit cleared.
    method CoreResume() returns (err: int)
      requires Valid()
      modifies `regs, `asks, target`chip, target.ram
      ensures puts == old(puts) && asks == old(asks) + if env.link(old(asks)) == Delivered then 2 else 1
      ensures Now().m
           == if env.link(old(asks)) == Delivered && env.link(old(asks) + 1) != RequestLost
              then Resumed(env, old(asks), agent, old(Now().m)) else old(Now().m)
      ensures err == 0 <==> env.link(old(asks)) == Delivered && env.link(old(asks) + 1) == Delivered
    {
      var k := asks;
      asks := asks + 1;
      if env.link(k) != Delivered {
        return -1;
      }
      asks := asks + 1;
      if env.link(k + 1) != RequestLost {
        Run(k);
      }
      return if env.link(k + 1) == Delivered then 0 else -1;
    }

    // swdp_core_wait_for_halt: the core comes to a halt in the end, or the wait is given up.
    method CoreWaitForHalt() returns (err: int)
      modifies `asks
      ensures asks == old(asks) + 1 && (err == 0 <==> env.link(old(asks)) == Delivered)
    {
      err := if env.link(asks) == Delivered then 0 else -1;
      asks := asks + 1;
    }

    method LoadArguments(r0: u32, r1: u32, r2: u32)
      modifies `regs, `puts
      ensures puts == old(puts) + 4
      ensures (
        var took, k, was := env.took, old(puts), old(regs);
        regs == was.(
          r0 := if took(k) then r0 else was.r0,
          r1 := if took(k + 1) then r1 else was.r1,
          r2 := if took(k + 2) then r2 else was.r2,
          r3 := if took(k + 3) then 0 else was.r3))
    {
      CoreWrite(0, r0);
      CoreWrite(1, r1);
      CoreWrite(2, r2);
      CoreWrite(3, 0);
    }

    // The first half of invoke: the registers are loaded, and nobody looks at the results.
    method LoadRegisters(func: u32, r0: u32, r1: u32, r2: u32)
      requires Valid()
      modifies `regs, `puts
      ensures puts == old(puts) + PUTS
      ensures regs == Loaded(env.took, old(puts), agent, old(regs), Call(func, r0, r1, r2))
    {
      LoadArguments(r0, r1, r2);
      CoreWrite(13, Sub32(agent.load_addr, 4));
      CoreWrite(14, agent.load_addr + 1);
      CoreWrite(15, Entry(func) + 1);
      ClearExceptions();
      CoreWrite(16, 0x0100_0000);
    }

    // invoke
    method Invoke(func: u32, r0: u32, r1: u32, r2: u32) returns (r: int)
      requires Valid()
      modifies `regs, `puts, `asks, target`chip, target.ram
      ensures (Now(), r) == Invoked(env, agent, old(Now()), Call(func, r0, r1, r2))
    {
      hide Resumed, Loaded;
      ghost var s, c := Now(), Call(func, r0, r1, r2);
      LoadRegisters(func, r0, r1, r2);
      assert Now().m == Started(env, agent, s, c);
      var _ := CoreResume();
      assert Now().m == Ran(env, agent, s, c);
      var err := CoreWaitForHalt();
      if err != 0 {
        return -1;
      }
      var res := CoreRead(regs.r0, 0xFFFF_FFFF);
      var pc := CoreRead(regs.pc, 0xFFFF_FFFF);
      return if pc != agent.load_addr then -1 else res;
    }
  }
}
