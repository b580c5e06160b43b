/** When a success of the flash and erase commands can be believed: exactly, over all targets, as a condition on the
    register writes and exchanges of the command; and what single lost writes do. */
module FlashTrust {
  import opened Words
  import opened NorFlash
  import opened SpifiAgent
  import opened Session
  import opened CoreCall
  import opened FlashHost

  // ----- the erase command -----

  // On every target a success of the command means that the range is blank and the rest as it was.
  ghost predicate EraseTrusted(took: nat -> bool, link: nat -> Delivery, puts: nat, asks: nat, a: Agent,
                               flashaddr: u32, length: u32)
    requires var (start, size) := EraseRange(a, flashaddr, length); Good(a, start, size)
  {
    forall e: Env, m: Machine | e.took == took && e.link == link && Suits(a, |m.ram|, |m.chip.mem|) ::
      EraseSound(e, a, State(m, puts, asks), flashaddr, length)
  }

  ghost predicate EraseSound(e: Env, a: Agent, s: State, flashaddr: u32, length: u32)
    requires Suits(a, |s.m.ram|, |s.m.chip.mem|)
    requires var (start, size) := EraseRange(a, flashaddr, length); Good(a, start, size)
  {
    var (start, size) := EraseRange(a, flashaddr, length);
    RangeFits(a, start, size, |s.m.ram|, |s.m.chip.mem|);
    var (s', r) := EraseCommand(e, a, s, flashaddr, length);
    r == 0 ==> s'.m.chip.mem == Erased(s.m.chip.mem, start, size)
  }

  /** Erasing a range can be trusted, whatever the target, if and only if no register write is lost that matters. */
  lemma EraseExactly(took: nat -> bool, link: nat -> Delivery, puts: nat, asks: nat, a: Agent,
                     flashaddr: u32, length: u32)
    requires Suits(a, a.data_size, a.flash_addr + a.flash_size)
    requires var (start, size) := EraseRange(a, flashaddr, length); Good(a, start, size) && size > 0
    ensures var (start, size) := EraseRange(a, flashaddr, length);
      var needed := Secure(took, link, puts, asks, a, Call(a.erase, start, size, 0));
      EraseTrusted(took, link, puts, asks, a, flashaddr, length) <==> needed
  {
    hide Secure, Suits, Invoked, EraseCommand, Erased, Good;
    var (start, size) := EraseRange(a, flashaddr, length);
    if Secure(took, link, puts, asks, a, Call(a.erase, start, size, 0)) {
      forall e: Env, m: Machine | e.took == took && e.link == link && Suits(a, |m.ram|, |m.chip.mem|)
        ensures EraseSound(e, a, State(m, puts, asks), flashaddr, length)
      {
        SecureErases(e, a, State(m, puts, asks), flashaddr, length);
      }
    } else {
      BufferSize(a, a.data_size, a.flash_addr + a.flash_size);
      var (e, m) := InsecureErase(took, link, puts, asks, a, start, size);
      InsecureErases(took, link, puts, asks, a, flashaddr, length);
      assert !EraseSound(e, a, State(m, puts, asks), flashaddr, length);
    }
  }

  lemma SecureErases(e: Env, a: Agent, s: State, flashaddr: u32, length: u32)
    requires Suits(a, |s.m.ram|, |s.m.chip.mem|)
    requires var (start, size) := EraseRange(a, flashaddr, length);
      Good(a, start, size) && Secure(e.took, e.link, s.puts, s.asks, a, Call(a.erase, start, size, 0))
    ensures EraseSound(e, a, s, flashaddr, length)
  {
    hide Secure, EraseCommand, Erased;
    EraseCommandMeans(e, a, s, flashaddr, length);
  }

  // A target on which it goes wrong: its flash holds zeros, and so does what a stray run leaves.
  function InsecureErase(took: nat -> bool, link: nat -> Delivery, puts: nat, asks: nat, a: Agent, start: u32,
                         size: u32): (Env, Machine)
    requires Callable(a)
  {
    var regs := Astray(a, Call(a.erase, start, size, 0));
    var zeros := Zeros(a.flash_addr + a.flash_size);
    (Env(took, link, k => regs, k => Lucky(a, zeros, []), k => []),
     Machine(if Goes(link, asks) then regs else regs.(pc := a.load_addr, r0 := 0), Nor(zeros, 0), Zeros(a.data_size)))
  }

  lemma InsecureErases(took: nat -> bool, link: nat -> Delivery, puts: nat, asks: nat, a: Agent, flashaddr: u32,
                       length: u32)
    requires Suits(a, a.data_size, a.flash_addr + a.flash_size)
    requires var (start, size) := EraseRange(a, flashaddr, length);
      Good(a, start, size) && size > 0 && !Secure(took, link, puts, asks, a, Call(a.erase, start, size, 0))
    ensures var (start, size) := EraseRange(a, flashaddr, length);
      var (e, m) := InsecureErase(took, link, puts, asks, a, start, size);
      && Suits(a, |m.ram|, |m.chip.mem|)
      && !EraseSound(e, a, State(m, puts, asks), flashaddr, length)
  {
    hide Sectors, EraseRun, Ones, Kept, Holds, InBounds;
    var (start, size) := EraseRange(a, flashaddr, length);
    var c, end := Call(a.erase, start, size, 0), a.flash_addr + a.flash_size;
    var (e, m) := InsecureErase(took, link, puts, asks, a, start, size);
    var s := State(m, puts, asks);
    BufferSize(a, |m.ram|, |m.chip.mem|);
    BoundsTestExactly(a, start, size);
    RangeFits(a, start, size, |m.ram|, |m.chip.mem|);
    MultiplesApart(end, 0xFFFF_F000);
    if Goes(link, asks) {
      Misled(e, a, s, c);
    } else {
      NotStarted(e, a, s, c);
    }
    var mem := Invoked(e, a, s, c).0.m.chip.mem;
    assert mem == Zeros(end);
    BlankThere(m.chip.mem, start, size);
  }

  lemma BlankThere(mem: seq<byte>, start: nat, size: nat)
    requires size > 0 && Sectors(size) >= 0 && start + SECTOR * Sectors(size) <= |mem|
    ensures start < |mem| && Erased(mem, start, size)[start] == 0xFF
  {
    SectorsOf(size);
  }

  // ----- the flash command -----

  // On every target, and for every image of that size, a success of the command means that the flash is as Flashed
  // says.
  ghost predicate FlashTrusted(took: nat -> bool, link: nat -> Delivery, puts: nat, asks: nat, a: Agent,
                               flashaddr: u32, size: nat)
    requires Good(a, flashaddr, size)
  {
    forall e: Env, m: Machine, image: seq<byte> |
      e.took == took && e.link == link && Suits(a, |m.ram|, |m.chip.mem|) && |image| == size ::
      FlashBelieved(e, a, State(m, puts, asks), flashaddr, image)
  }

  ghost predicate FlashBelieved(e: Env, a: Agent, s: State, flashaddr: u32, image: seq<byte>)
    requires Suits(a, |s.m.ram|, |s.m.chip.mem|) && Good(a, flashaddr, |image|)
  {
    RangeFits(a, flashaddr, |image|, |s.m.ram|, |s.m.chip.mem|);
    var (s', r) := Flash(e, a, s, flashaddr, image);
    r == 0 ==> s'.m.chip.mem == Flashed(s.m.chip.mem, flashaddr, image)
  }

  /** Flashing can be trusted, whatever the target and the image, if and only if FlashSafe holds. */
  lemma FlashExactly(took: nat -> bool, link: nat -> Delivery, puts: nat, asks: nat, a: Agent, flashaddr: u32,
                     size: nat)
    requires Suits(a, a.data_size, a.flash_addr + a.flash_size)
    requires Good(a, flashaddr, size) && size > 0 && size % 4 == 0
    ensures (
      GoodRange(a, flashaddr, size);
      var safe := FlashSafe(took, link, puts, asks, a, flashaddr, size);
      FlashTrusted(took, link, puts, asks, a, flashaddr, size) <==> safe)
  {
    hide FlashSafe, Suits, Flash, Flashed, InBounds;
    GoodRange(a, flashaddr, size);
    BufferSize(a, a.data_size, a.flash_addr + a.flash_size);
    if FlashSafe(took, link, puts, asks, a, flashaddr, size) {
      forall e: Env, m: Machine, image: seq<byte> |
        e.took == took && e.link == link && Suits(a, |m.ram|, |m.chip.mem|) && |image| == size
        ensures FlashBelieved(e, a, State(m, puts, asks), flashaddr, image)
      {
        if Flash(e, a, State(m, puts, asks), flashaddr, image).1 == 0 {
          FlashSound(e, a, State(m, puts, asks), flashaddr, image);
        }
      }
    } else {
      var e, m := Unsafe(took, link, puts, asks, a, flashaddr, size);
      assert |Zeros(size)| == size;
      assert !FlashBelieved(e, a, State(m, puts, asks), flashaddr, Zeros(size));
    }
  }

  // ----- targets on which it goes wrong -----

  // Larger than any flash; the last byte is in no whole page.
  const CHIP: nat := 0xFFFF_FFFF

  // A target whose flash works and on which a stray run looks like a success; a function that returns leaves nothing
  // in its scratch registers that is of use to the next.
  ghost predicate Wayward(e: Env, a: Agent, lucky: seq<byte>) {
    && |lucky| == CHIP && NoFaults(e.fault)
    && (forall k: nat :: e.wild(k) == Lucky(a, lucky, Zeros(a.data_size)))
    && (forall k: nat :: e.scratch(k) == Scratch(a))
  }

  function OtherThan(v: u32): u32 {
    if v == 0 then 1 else 0
  }

  function Scratch(a: Agent): Regs {
    Regs(0, OtherThan(a.data_addr), 0xFFFF_FFFF, 0, 0, a.load_addr, 0, 0, false)
  }

  // Between two calls: the buffer holds zeros, as the image does.
  predicate Between(a: Agent, s: State) {
    && Callable(a) && 0 < a.data_size && SectorStart(a.data_size)
    && s.m.ram == Zeros(a.data_size) && |s.m.chip.mem| == CHIP && Idle(a, s.m.regs)
  }

  // What the flash holds at w is still there after a write call with the registers r.
  predicate Misses(a: Agent, m: Machine, w: nat) {
    RunsWrite(a, m) ==> w < m.regs.r0 || m.regs.r0 + PAGE * Pages(m.regs.r2) <= w
  }

  lemma {:induction false} ZerosTake(f: Faults, c: Nor, at: nat, n: nat)
    requires PageStart(at) && PageStart(n) && at + n <= |c.mem| && NoFaults(f)
    ensures var (d, err) := WriteRun(f, c, at, Zeros(n)); err == ERR_NONE && Holds(d.mem, at, Zeros(n))
    decreases n
  {
    hide ProgramPage, WriteRun, Holds;
    WriteStep(f, c, at, Zeros(n));
    WriteMeans(f, c, at, Zeros(n));
    if n > 0 {
      PageStartLess(n);
      NextPageStart(at);
      assert Zeros(n)[..PAGE] == Zeros(PAGE) && Zeros(n)[PAGE..] == Zeros(n - PAGE);
      ZeroPageTakes(f, c, at);
      ZerosTake(f, ProgramPage(f, c, at, Zeros(PAGE)), at + PAGE, n - PAGE);
    }
  }

  lemma ZeroPageTakes(f: Faults, c: Nor, at: nat)
    requires PageStart(at) && at + PAGE <= |c.mem| && NoFaults(f)
    ensures var d := ProgramPage(f, c, at, Zeros(PAGE)); |d.mem| == |c.mem| && d.mem[at..at + PAGE] == Zeros(PAGE)
  {
    assert AndAll(c.mem[at..at + PAGE], Zeros(PAGE)) == Zeros(PAGE);
  }

  lemma ZerosPadded(size: nat, n: nat)
    requires n <= size && PageStart(size)
    ensures n <= PAGE * Pages(n) <= size
    ensures Padded(Zeros(size)[..n]) == Zeros(PAGE * Pages(n)) && PaddedBuffer(Zeros(size), n) == Zeros(size)
  {
    PagesFit(size, n);
    assert Zeros(size)[..n] == Zeros(n);
    assert Padded(Zeros(n)) == Zeros(PAGE * Pages(n));
  }

  // One write call: it returns zero and leaves things between two calls again.
  lemma WriteGoesOn(e: Env, a: Agent, lucky: seq<byte>, s: State, c: Call)
    requires Wayward(e, a, lucky) && Between(a, s) && c.func == a.write && c.r1 == a.data_addr && SectorStart(c.r0)
    requires WriteCanReturn(e.took, e.link, s.puts, s.asks, c.r0)
    ensures PageStart(|s.m.ram|)
    ensures var m, (s', r) := Started(e, a, s, c), Invoked(e, a, s, c);
      && r == 0 && Between(a, s') && s'.puts == s.puts + PUTS && s'.asks == After(e.link, s.asks)
      && (RunsWrite(a, m) ==> Programmed(a, s.m, m.regs, s'.m))
      && (!RunsWrite(a, m) ==> s'.m.chip == s.m.chip || s'.m.chip.mem == lucky)
  {
    hide Started, Programmed, RunsWrite, Resumed, Wayward, SectorStart;
    BufferPages(a, s);
    ZeroLeaves(e, a, s, c);
    var m := Started(e, a, s, c);
    if !e.took(s.puts + 6) {
      WriteStays(e, a, s, c);
    } else if RunsWrite(a, m) {
      WriteRuns(e, a, lucky, s, c);
    } else {
      WriteStrays(e, a, lucky, s, c);
    }
  }

  // What a write call leaves that ran with the registers r.
  ghost predicate Programmed(a: Agent, m: Machine, r: Regs, m': Machine) {
    var n := PAGE * Pages(r.r2);
    && Left(a, m'.regs, RAN) && m'.regs.r1 == OtherThan(a.data_addr) && m'.regs.r2 == 0xFFFF_FFFF
    && m'.regs.lr == a.load_addr
    && 0 <= n && r.r0 + n <= CHIP
    && Kept(m.chip.mem, m'.chip.mem, r.r0, r.r0 + n)
    && Holds(m'.chip.mem, r.r0, Zeros(n))
  }

  // The core stays on the breakpoint.
  lemma WriteStays(e: Env, a: Agent, s: State, c: Call)
    requires Between(a, s) && c.func == a.write && PageStart(|s.m.ram|)
    requires !e.took(s.puts + 6) && (!e.took(s.puts) || c.r0 == 0)
    ensures var m := Started(e, a, s, c);
      Ran(e, a, s, c) == m && m.chip == s.m.chip && m.ram == s.m.ram && Idle(a, m.regs) && !RunsWrite(a, m)
  {
  }

  lemma WriteStrays(e: Env, a: Agent, lucky: seq<byte>, s: State, c: Call)
    requires Wayward(e, a, lucky) && Between(a, s) && c.func == a.write && PageStart(|s.m.ram|)
    requires e.took(s.puts + 6) && Goes(e.link, s.asks) && !RunsWrite(a, Started(e, a, s, c))
    ensures var m := Ran(e, a, s, c); m.chip.mem == lucky && m.ram == s.m.ram && Idle(a, m.regs)
  {
    hide Zeros, RunsWrite;
    ZerosLength(a.data_size);
    FitsAll(lucky, Zeros(a.data_size));
    assert !RunsErase(a, Started(e, a, s, c));
    assert Ran(e, a, s, c) == Strayed(e.wild(s.asks), Started(e, a, s, c));
  }

  lemma WriteRuns(e: Env, a: Agent, lucky: seq<byte>, s: State, c: Call)
    requires Wayward(e, a, lucky) && Between(a, s) && c.func == a.write && SectorStart(c.r0) && PageStart(|s.m.ram|)
    requires Goes(e.link, s.asks) && RunsWrite(a, Started(e, a, s, c))
    ensures var m := Ran(e, a, s, c);
      && Programmed(a, s.m, Started(e, a, s, c).regs, m) && Idle(a, m.regs)
      && m.ram == s.m.ram && |m.chip.mem| == CHIP
  {
    hide WriteRun, EraseRun, Padded, PaddedBuffer, Pages, Sectors, Zeros, Holds, Kept, SectorStart, PageStart, Loaded;
    var m := Started(e, a, s, c);
    LoadedAddress(e.took, s.puts, a, s.m.regs, c);
    BufferPages(a, s);
    WriteOfZeros(e, a, m);
    PagesOf(m.regs.r2);
    assert Ran(e, a, s, c) == Resumed(e, s.asks, a, m);
  }

  lemma LoadedAddress(took: nat -> bool, p: nat, a: Agent, r: Regs, c: Call)
    requires Callable(a) && r.r0 == 0 && SectorStart(c.r0)
    ensures SectorStart(Loaded(took, p, a, r, c).r0)
  {
  }

  lemma BufferPages(a: Agent, s: State)
    requires Between(a, s)
    ensures |s.m.ram| == a.data_size && PageStart(|s.m.ram|)
  {
    SectorsStartPages(a.data_size);
  }

  lemma ZerosLength(n: nat)
    ensures |Zeros(n)| == n
  {
  }

  lemma FitsAll(mem: seq<byte>, ram: seq<byte>)
    ensures Fit(mem, |mem|) == mem && Fit(ram, |ram|) == ram
  {
  }

  // The agent programs zeros wherever it is sent.
  lemma WriteOfZeros(e: Env, a: Agent, m: Machine)
    requires RunsWrite(a, m) && NoFaults(e.fault) && SectorStart(m.regs.r0)
    requires PageStart(a.data_size) && m.ram == Zeros(a.data_size) && |m.chip.mem| == CHIP
    ensures m.regs.r0 + PAGE * Pages(m.regs.r2) <= CHIP
    ensures var (n, err) := Writing(e.fault, a, m);
      && err == ERR_NONE && n.regs == m.regs && n.ram == m.ram && |n.chip.mem| == CHIP
      && Kept(m.chip.mem, n.chip.mem, m.regs.r0, m.regs.r0 + PAGE * Pages(m.regs.r2))
      && Holds(n.chip.mem, m.regs.r0, Zeros(PAGE * Pages(m.regs.r2)))
  {
    hide WriteRun, Padded, PaddedBuffer, Pages, Zeros, Holds, Kept;
    SectorsStartPages(m.regs.r0);
    ZerosLength(a.data_size);
    ZerosPadded(a.data_size, m.regs.r2);
    PagesOf(m.regs.r2);
    ZerosTake(e.fault, m.chip, m.regs.r0, PAGE * Pages(m.regs.r2));
    WriteMeans(e.fault, m.chip, m.regs.r0, Padded(m.ram[..m.regs.r2]));
    ZerosLength(PAGE * Pages(m.regs.r2));
  }

  // What becomes of the byte at w.
  lemma ByteStays(e: Env, a: Agent, lucky: seq<byte>, s: State, c: Call, w: nat)
    requires Wayward(e, a, lucky) && Between(a, s) && c.func == a.write && c.r1 == a.data_addr && SectorStart(c.r0)
    requires WriteCanReturn(e.took, e.link, s.puts, s.asks, c.r0)
    requires w < CHIP && s.m.chip.mem[w] == lucky[w] && (lucky[w] == 0 || Misses(a, Started(e, a, s, c), w))
    ensures PageStart(|s.m.ram|) && |Invoked(e, a, s, c).0.m.chip.mem| == CHIP
    ensures Invoked(e, a, s, c).0.m.chip.mem[w] == lucky[w]
  {
    hide Invoked, RunsWrite, Pages, Zeros;
    WriteGoesOn(e, a, lucky, s, c);
    var m, mem := Started(e, a, s, c), Invoked(e, a, s, c).0.m.chip.mem;
    if RunsWrite(a, m) && m.regs.r0 <= w < m.regs.r0 + PAGE * Pages(m.regs.r2) {
      var n := PAGE * Pages(m.regs.r2);
      ZerosLength(n);
      assert mem[m.regs.r0..m.regs.r0 + n][w - m.regs.r0] == Zeros(n)[w - m.regs.r0] == 0 by {
        ZeroAt(n, w - m.regs.r0);
      }
    }
  }

  lemma ZeroAt(n: nat, i: nat)
    requires i < n
    ensures |Zeros(n)| == n && Zeros(n)[i] == 0
  {
  }

  // Downloading zeros changes nothing.
  lemma ZerosDownloaded(e: Env, a: Agent, s: State, n: nat)
    requires Between(a, s) && n <= a.data_size && e.link(s.asks) == Delivered
    ensures |s.m.ram| == a.data_size && |Zeros(n)| == n
    ensures Downloaded(e, s, Zeros(n)) == (s.(asks := s.asks + 1), 0)
  {
    assert Zeros(n) + s.m.ram[n..] == s.m.ram;
  }

  // The write call of the next chunk of zeros.
  function ChunkCall(a: Agent, at: u32, left: nat): Call
    requires 0 < a.data_size
  {
    Call(a.write, at, a.data_addr, ChunkSize(a, left))
  }

  lemma ZeroChunks(e: Env, a: Agent, lucky: seq<byte>, s: State, flashaddr: u32, size: nat, done: nat)
    requires Wayward(e, a, lucky) && Between(a, s) && done < size && flashaddr + size < TWO_32
    requires SectorStart(flashaddr + done)
    requires WritesCanReturn(e.took, e.link, s.puts, s.asks, a, flashaddr + done, size - done)
    ensures |Zeros(size)| == size && PageStart(|s.m.ram|) && a.data_size <= |s.m.ram|
    ensures var s0, c := s.(asks := s.asks + 1), ChunkCall(a, flashaddr + done, size - done);
      var n := ChunkSize(a, size - done);
      && 0 < n <= size - done && (n < size - done ==> SectorStart(flashaddr + done + n))
      && WriteCanReturn(e.took, e.link, s0.puts, s0.asks, c.r0)
      && var s1 := Invoked(e, a, s0, c).0;
      && Between(a, s1) && s1.puts == s.puts + PUTS
      && WritesCanReturn(e.took, e.link, s1.puts, s1.asks, a, flashaddr + done + n, size - done - n)
      && Chunks(e, a, s, flashaddr, Zeros(size), done) == Chunks(e, a, s1, flashaddr, Zeros(size), done + n)
  {
    hide Invoked, Zeros, Chunks, Wayward, WriteCanReturn, RunsWrite, Left, Idle, Pages, Programmed, Started;
    var s0, c, n := s.(asks := s.asks + 1), ChunkCall(a, flashaddr + done, size - done), ChunkSize(a, size - done);
    ZerosLength(size);
    ZerosLength(a.data_size);
    SectorsStartPages(a.data_size);
    ChunksStep(e, a, s, flashaddr, Zeros(size), done);
    ZerosPart(size, done, n);
    ZerosDownloaded(e, a, s, n);
    WriteGoesOn(e, a, lucky, s0, c);
    if n < size - done {
      StepStaysAligned(flashaddr + done, 0, n);
    }
  }

  lemma ZerosPart(size: nat, done: nat, n: nat)
    requires done + n <= size
    ensures |Zeros(size)| == size && Zeros(size)[done..done + n] == Zeros(n)
  {
  }

  // No write call of the rest reaches w: not one sent to its own place, and not one sent to 0.
  predicate Outside(took: nat -> bool, p: nat, a: Agent, at: nat, left: nat, w: nat)
    requires a.data_size > 0
    decreases left
  {
    var n := ChunkSize(a, left);
    left == 0 ||
    ((if took(p) then w < at || at + a.data_size <= w else a.data_size <= w)
     && Outside(took, p + PUTS, a, at + n, left - n, w))
  }

  lemma MissesWhat(e: Env, a: Agent, s: State, c: Call, w: nat)
    requires Between(a, s) && c.func == a.write && SectorStart(c.r0)
    requires w == CHIP - 1 || (if e.took(s.puts) then w < c.r0 || c.r0 + a.data_size <= w else a.data_size <= w)
    ensures Misses(a, Started(e, a, s, c), w)
  {
    hide Pages;
    var m := Started(e, a, s, c);
    ZerosLength(a.data_size);
    SectorsStartPages(a.data_size);
    if RunsWrite(a, m) {
      PagesFit(a.data_size, m.regs.r2);
      PagesOf(m.regs.r2);
      LastByte(m.regs.r0 + PAGE * Pages(m.regs.r2));
    }
  }

  lemma LastByte(end: int)
    requires end <= CHIP
    ensures end % PAGE == 0 ==> end <= CHIP - 1
  {
  }

  // Whatever the rest of the command does, it returns zero and w is still wrong.
  lemma {:induction false} StaysWrong(e: Env, a: Agent, lucky: seq<byte>, s: State, flashaddr: u32, size: nat,
                                      done: nat, w: nat)
    requires Wayward(e, a, lucky) && Between(a, s) && done <= size && flashaddr + size < TWO_32
    requires done < size ==> SectorStart(flashaddr + done)
    requires WritesCanReturn(e.took, e.link, s.puts, s.asks, a, flashaddr + done, size - done)
    requires w < CHIP == |lucky| && s.m.chip.mem[w] == lucky[w]
    requires lucky[w] == 0 || w == CHIP - 1 || Outside(e.took, s.puts, a, flashaddr + done, size - done, w)
    ensures |Zeros(size)| == size && PageStart(|s.m.ram|) && a.data_size <= |s.m.ram|
    ensures var (s', r) := Chunks(e, a, s, flashaddr, Zeros(size), done);
      r == 0 && |s'.m.chip.mem| == CHIP && s'.m.chip.mem[w] == lucky[w]
    decreases size - done
  {
    hide Invoked, Zeros, Wayward, WriteCanReturn, WritesCanReturn, Misses, Started, Chunks, Idle;
    ZerosLength(size);
    ZerosLength(a.data_size);
    SectorsStartPages(a.data_size);
    if done == size {
      NoChunks(e, a, s, flashaddr, Zeros(size));
    } else {
      var c, n := ChunkCall(a, flashaddr + done, size - done), ChunkSize(a, size - done);
      var s0 := s.(asks := s.asks + 1);
      ZeroChunks(e, a, lucky, s, flashaddr, size, done);
      if lucky[w] != 0 {
        MissesWhat(e, a, s0, c, w);
      }
      ByteStays(e, a, lucky, s0, c, w);
      StaysWrong(e, a, lucky, Invoked(e, a, s0, c).0, flashaddr, size, done + n, w);
    }
  }

  // ----- a write call that lacks a write it needs -----

  // The registers are as wrong as what is known of them allows.
  predicate Adverse(a: Agent, r: Regs, known: Known) {
    && Left(a, r, known)
    && (!known.sp ==> r.sp != Sub32(a.load_addr, 4)) && (!known.lr ==> r.lr != a.load_addr + 1)
    && (!known.clear ==> !r.clear) && (!known.psr ==> !ThumbThread(r.psr)) && (!known.r1 ==> r.r1 != a.data_addr)
    && (r.r2 == 0 || r.r2 == 0xFFFF_FFFF)
  }

  // From the second chunk's place in the buffer on, every write call gets its address.
  predicate AddressesTook(took: nat -> bool, p: nat, a: Agent, at: nat, left: nat)
    requires a.data_size > 0
    decreases left
  {
    var n := ChunkSize(a, left);
    left == 0 || ((took(p) || at < a.data_size) && AddressesTook(took, p + PUTS, a, at + n, left - n))
  }

  lemma {:induction false} TookOutside(took: nat -> bool, p: nat, a: Agent, at: nat, left: nat, w: nat)
    requires a.data_size > 0 && AddressesTook(took, p, a, at, left) && w < at && a.data_size <= at
    ensures Outside(took, p, a, at, left, w)
    decreases left
  {
    if left > 0 {
      var n := ChunkSize(a, left);
      TookOutside(took, p + PUTS, a, at + n, left - n, w);
    }
  }

  lemma {:induction false} BelowOutside(took: nat -> bool, p: nat, a: Agent, at: nat, left: nat, w: nat)
    requires a.data_size > 0 && a.data_size <= w < at
    ensures Outside(took, p, a, at, left, w)
    decreases left
  {
    if left > 0 {
      var n := ChunkSize(a, left);
      BelowOutside(took, p + PUTS, a, at + n, left - n, w);
    }
  }

  // A chunk whose address is lost is written elsewhere, and no other chunk makes up for it.
  lemma {:induction false} AddressLost(took: nat -> bool, p: nat, a: Agent, at: nat, left: nat) returns (w: nat)
    requires a.data_size > 0 && !AddressesTook(took, p, a, at, left)
    ensures at <= w < at + left && a.data_size <= w && Outside(took, p, a, at, left, w)
    decreases left
  {
    var n := ChunkSize(a, left);
    if !took(p) && a.data_size <= at {
      w := at;
      BelowOutside(took, p + PUTS, a, at + n, left - n, w);
    } else {
      w := AddressLost(took, p + PUTS, a, at + n, left - n);
    }
  }

  // The last byte of such a chunk is not programmed by its own call.
  lemma ChunkMissed(e: Env, a: Agent, s: State, c: Call, known: Known)
    requires Between(a, s) && c.func == a.write && c.r1 == a.data_addr && SectorStart(c.r0)
    requires 0 < c.r2 && Adverse(a, s.m.regs, known) && !WriteNeeded(e.took, s.puts, c.r0, known)
    ensures Misses(a, Started(e, a, s, c), c.r0 + c.r2 - 1)
  {
    hide Pages, Sectors;
    ZerosLength(a.data_size);
    PagesOf(c.r2);
    PagesStep(0);
  }

  lemma ChunkRan(e: Env, a: Agent, lucky: seq<byte>, s: State, c: Call, known: Known)
    requires Wayward(e, a, lucky) && Between(a, s) && c.func == a.write && c.r1 == a.data_addr && SectorStart(c.r0)
    requires 0 < c.r2 <= a.data_size && c.r0 + PAGE * Pages(c.r2) <= CHIP
    requires WriteCanReturn(e.took, e.link, s.puts, s.asks, c.r0)
    requires Adverse(a, s.m.regs, known) && WriteNeeded(e.took, s.puts, c.r0, known)
    ensures PageStart(|s.m.ram|)
    ensures var s' := Invoked(e, a, s, c).0;
      && Adverse(a, s'.m.regs, RAN)
      && Kept(s.m.chip.mem, s'.m.chip.mem, c.r0, c.r0 + PAGE * Pages(c.r2))
  {
    hide Pages, Zeros, Invoked, Kept, Holds, WriteNeeded, WriteCanReturn, Loaded;
    ZerosLength(a.data_size);
    WriteStarted(e, a, s, c, known);
    WriteGoesOn(e, a, lucky, s, c);
  }

  ghost predicate BlankFrom(mem: seq<byte>, at: nat) {
    forall u :: at <= u < |mem| ==> mem[u] == 0xFF
  }

  lemma NothingNeeded(took: nat -> bool, p: nat, end: nat, a: Agent, at: u32, known: Known)
    requires a.data_size > 0
    ensures WritesNeeded(took, p, end, a, at, 0, known)
  {
  }

  lemma NothingOutside(took: nat -> bool, p: nat, a: Agent, at: nat, w: nat)
    requires a.data_size > 0
    ensures Outside(took, p, a, at, 0, w)
  {
  }

  lemma AddressesStep(took: nat -> bool, p: nat, a: Agent, at: nat, left: nat)
    requires a.data_size > 0 && left > 0 && AddressesTook(took, p, a, at, left)
    ensures var n := ChunkSize(a, left); AddressesTook(took, p + PUTS, a, at + n, left - n)
  {
  }

  // A chunk lies in the chip with its pages, and one that is followed by another has no padding.
  lemma ChunkEnds(flashaddr: u32, size: nat, done: nat, n: nat, full: bool)
    requires PageStart(done) && done + n <= size && flashaddr + PAGE * Pages(size) < TWO_32
    requires full ==> SectorStart(n)
    ensures flashaddr + done + PAGE * Pages(n) <= CHIP
    ensures full ==> PAGE * Pages(n) == n
  {
    hide Pages;
    PagesAfter(done, n);
    PagesGrow(done + n, size);
    SectorsStartPages(n);
    PagesOf(n);
  }

  lemma StillBlank(mem: seq<byte>, next: seq<byte>, at: nat, n: nat)
    requires BlankFrom(mem, at) && Kept(mem, next, at, at + n)
    ensures BlankFrom(next, at + n)
  {
  }

  lemma MissingHere(e: Env, a: Agent, lucky: seq<byte>, s: State, flashaddr: u32, size: nat, done: nat, known: Known)
    requires Wayward(e, a, lucky) && Between(a, s) && done < size && flashaddr + size < TWO_32
    requires SectorStart(flashaddr + done) && |lucky| == CHIP
    requires WritesCanReturn(e.took, e.link, s.puts, s.asks, a, flashaddr + done, size - done)
    requires AddressesTook(e.took, s.puts, a, flashaddr + done, size - done)
    requires Adverse(a, s.m.regs, known) && !WriteNeeded(e.took, s.puts, flashaddr + done, known)
    requires var w := flashaddr + done + ChunkSize(a, size - done) - 1;
      0 <= w < CHIP && s.m.chip.mem[w] == lucky[w]
    ensures |Zeros(size)| == size && PageStart(|s.m.ram|) && a.data_size <= |s.m.ram|
    ensures var w := flashaddr + done + ChunkSize(a, size - done) - 1;
      var (s', r) := Chunks(e, a, s, flashaddr, Zeros(size), done);
      0 <= w < CHIP && r == 0 && |s'.m.chip.mem| == CHIP && s'.m.chip.mem[w] == lucky[w]
  {
    hide Invoked, Zeros, Wayward, WriteCanReturn, WritesCanReturn, Misses, Started, Adverse, WriteNeeded,
      AddressesTook, Outside, Pages, Chunks, Idle, SectorStart, PageStart;
    var at, left := flashaddr + done, size - done;
    var c, n, s0 := ChunkCall(a, at, left), ChunkSize(a, left), s.(asks := s.asks + 1);
    BufferPages(a, s);
    var w, s1 := at + n - 1, Invoked(e, a, s0, c).0;
    AddressesStep(e.took, s.puts, a, at, left);
    ZeroChunks(e, a, lucky, s, flashaddr, size, done);
    ChunkMissed(e, a, s0, c, known);
    ByteStays(e, a, lucky, s0, c, w);
    if n < left {
      TookOutside(e.took, s1.puts, a, at + n, left - n, w);
    } else {
      NothingOutside(e.took, s1.puts, a, at + n, w);
    }
    StaysWrong(e, a, lucky, s1, flashaddr, size, done + n, w);
  }

  lemma BlankAt(mem: seq<byte>, at: nat, w: nat)
    requires BlankFrom(mem, at) && at <= w < |mem|
    ensures mem[w] == 0xFF
  {
  }

  // From the first write call on that lacks a write, when the later ones at least get their addresses.
  lemma {:induction false} WriteMissing(e: Env, a: Agent, lucky: seq<byte>, s: State, flashaddr: u32, size: nat,
                                        done: nat, known: Known, end: nat) returns (w: nat)
    requires Wayward(e, a, lucky) && Between(a, s) && done <= size && flashaddr + PAGE * Pages(size) < TWO_32
    requires done < size ==> SectorStart(flashaddr + done) && PageStart(done)
    requires flashaddr + size < TWO_32
    requires WritesCanReturn(e.took, e.link, s.puts, s.asks, a, flashaddr + done, size - done)
    requires |lucky| == CHIP && BlankFrom(lucky, 0) && BlankFrom(s.m.chip.mem, flashaddr + done)
    requires Adverse(a, s.m.regs, known)
    requires AddressesTook(e.took, s.puts, a, flashaddr + done, size - done)
    requires s.puts + PUTS * (size - done) <= end
    requires !WritesNeeded(e.took, s.puts, end, a, flashaddr + done, size - done, known)
    ensures |Zeros(size)| == size && PageStart(|s.m.ram|) && a.data_size <= |s.m.ram|
    ensures flashaddr + done <= w < flashaddr + size && w < CHIP
    ensures var (s', r) := Chunks(e, a, s, flashaddr, Zeros(size), done);
      r == 0 && |s'.m.chip.mem| == CHIP && s'.m.chip.mem[w] == 0xFF
    decreases size - done
  {
    hide Invoked, Zeros, Wayward, WriteCanReturn, WritesCanReturn, Misses, Started, Adverse, WriteNeeded,
      WritesNeeded, AddressesTook, Outside, Pages, Chunks, BlankFrom, Idle, SectorStart, PageStart;
    ZerosLength(size);
    BufferPages(a, s);
    NothingNeeded(e.took, s.puts, end, a, flashaddr + done, known);
    var at, left := flashaddr + done, size - done;
    var c, n := ChunkCall(a, at, left), ChunkSize(a, left);
    var s0 := s.(asks := s.asks + 1);
    var s1 := Invoked(e, a, s0, c).0;
    NeededStep(e.took, s.puts, end, a, at, left, known);
    AddressesStep(e.took, s.puts, a, at, left);
    ZeroChunks(e, a, lucky, s, flashaddr, size, done);
    if WriteNeeded(e.took, s.puts, at, known) {
      ChunkEnds(flashaddr, size, done, n, n < left);
      ChunkRan(e, a, lucky, s0, c, known);
      NothingNeeded(e.took, s1.puts, end, a, at + n, RAN);
      StillBlank(s.m.chip.mem, s1.m.chip.mem, at, n);
      if n < left {
        StepStaysAligned(at, done, n);
      }
      w := WriteMissing(e, a, lucky, s1, flashaddr, size, done + n, RAN, end);
    } else {
      w := at + n - 1;
      BlankAt(s.m.chip.mem, at, w);
      BlankAt(lucky, 0, w);
      MissingHere(e, a, lucky, s, flashaddr, size, done, known);
    }
  }

  // All the chunks, from flash that is blank.
  lemma SomeMissing(e: Env, a: Agent, lucky: seq<byte>, s: State, flashaddr: u32, size: nat, known: Known, end: nat)
    returns (w: nat)
    requires Wayward(e, a, lucky) && Between(a, s) && flashaddr + PAGE * Pages(size) < TWO_32
    requires SectorStart(flashaddr) && flashaddr + size < TWO_32
    requires WritesCanReturn(e.took, e.link, s.puts, s.asks, a, flashaddr, size)
    requires |lucky| == CHIP && BlankFrom(lucky, 0) && BlankFrom(s.m.chip.mem, 0) && Adverse(a, s.m.regs, known)
    requires s.puts + PUTS * size <= end && !WritesNeeded(e.took, s.puts, end, a, flashaddr, size, known)
    ensures |Zeros(size)| == size && PageStart(|s.m.ram|) && a.data_size <= |s.m.ram|
    ensures flashaddr <= w < flashaddr + size && w < CHIP
    ensures var (s', r) := Chunks(e, a, s, flashaddr, Zeros(size), 0);
      r == 0 && |s'.m.chip.mem| == CHIP && s'.m.chip.mem[w] == 0xFF
  {
    hide Zeros, Wayward, WritesCanReturn, Adverse, WritesNeeded, AddressesTook, Outside, Pages, Chunks;
    if AddressesTook(e.took, s.puts, a, flashaddr, size) {
      w := WriteMissing(e, a, lucky, s, flashaddr, size, 0, known, end);
    } else {
      PagesOf(size);
      w := AddressLost(e.took, s.puts, a, flashaddr, size);
      StaysWrong(e, a, lucky, s, flashaddr, size, 0, w);
    }
  }

  // ----- the erase call before them -----

  lemma OnesLength(n: nat)
    ensures |Ones(n)| == n && BlankFrom(Ones(n), 0)
  {
  }

  function Adversary(took: nat -> bool, link: nat -> Delivery, a: Agent, lucky: seq<byte>): Env {
    Env(took, link, k => Scratch(a), k => Lucky(a, lucky, Zeros(a.data_size)), k => [])
  }

  lemma AdversaryWayward(took: nat -> bool, link: nat -> Delivery, a: Agent, lucky: seq<byte>)
    requires |lucky| == CHIP
    ensures Wayward(Adversary(took, link, a, lucky), a, lucky)
  {
  }

  // The core on the breakpoint, with nothing else as a function of the agent wants it.
  function Prior(a: Agent): Regs {
    Regs(0, OtherThan(a.data_addr), 0xFFFF_FFFF, 0, a.load_addr, a.load_addr, a.load_addr, 0, false)
  }

  lemma EraseStrays(e: Env, a: Agent, lucky: seq<byte>, s: State, c: Call)
    requires Wayward(e, a, lucky) && Callable(a) && 0 < a.data_size && SectorStart(a.data_size)
    requires c.func == a.erase && 0 < c.r1 && c.r0 + c.r1 <= 0xFFFF_F000
    requires s.m.ram == Zeros(a.data_size) && |s.m.chip.mem| == CHIP && s.m.regs == Astray(a, c)
    requires Goes(e.link, s.asks) && Answered(e.link, s.asks) && !NeededTook(e.took, s.puts, a, c)
    ensures PageStart(|s.m.ram|)
    ensures var (s', r) := Invoked(e, a, s, c);
      && r == 0 && Between(a, s') && s'.puts == s.puts + PUTS && s'.asks == After(e.link, s.asks)
      && s'.m.chip.mem == lucky
  {
    hide Zeros, Invoked, NeededTook;
    ZerosLength(a.data_size);
    SectorsStartPages(a.data_size);
    Misled(e, a, s, c);
    ZeroLeaves(e, a, s, c);
    FitsAll(lucky, Zeros(a.data_size));
  }

  // Either way the flash is blank afterwards if it was before.
  lemma EraseReturns(e: Env, a: Agent, lucky: seq<byte>, s: State, c: Call)
    requires Wayward(e, a, lucky) && Callable(a) && 0 < a.data_size && SectorStart(a.data_size)
    requires c.func == a.erase && SectorStart(c.r0) && EraseCanReturn(e.took, e.link, s.puts, s.asks, c.r0)
    requires Sectors(c.r1) >= 0 && c.r0 + SECTOR * Sectors(c.r1) <= CHIP
    requires s.m.ram == Zeros(a.data_size) && |s.m.chip.mem| == CHIP && s.m.regs == Prior(a)
    requires Goes(e.link, s.asks) ==> NeededTook(e.took, s.puts, a, c)
    requires c.r2 == 0
    ensures PageStart(|s.m.ram|)
    ensures var (s', r) := Invoked(e, a, s, c);
      && r == 0 && Between(a, s') && s'.puts == s.puts + PUTS && s'.asks == After(e.link, s.asks)
      && Adverse(a, s'.m.regs, if Goes(e.link, s.asks) then RAN else Skipped(e.took, s.puts, a, c.r1))
      && (!Goes(e.link, s.asks) ==> s'.m.chip == s.m.chip)
      && (BlankFrom(s.m.chip.mem, 0) ==> BlankFrom(s'.m.chip.mem, 0))
  {
    hide Zeros, EraseRun, Sectors, Holds, Kept, Ones, BlankFrom;
    ZerosLength(a.data_size);
    SectorsStartPages(a.data_size);
    if Goes(e.link, s.asks) {
      EraseCall(e, a, s, c);
      EraseMeans(e.fault, s.m.chip, c.r0, Sectors(c.r1));
      ZeroLeaves(e, a, s, c);
      var s' := Invoked(e, a, s, c).0;
      ErasedBlank(s.m.chip.mem, s'.m.chip.mem, c.r0, SECTOR * Sectors(c.r1));
      assert RunsErase(a, Started(e, a, s, c));
      assert s'.m.regs == Returned(Started(e, a, s, c).regs, ERR_NONE, Scratch(a), a.load_addr);
    } else {
      NotStarted(e, a, s, c);
      EraseSkipped(e, a, s, c);
      ZeroLeaves(e, a, s, c);
    }
  }

  lemma ErasedBlank(mem: seq<byte>, next: seq<byte>, start: nat, n: nat)
    requires Kept(mem, next, start, start + n) && Holds(next, start, Ones(n))
    ensures BlankFrom(mem, 0) ==> BlankFrom(next, 0)
  {
    if BlankFrom(mem, 0) {
      forall u | 0 <= u < |next|
        ensures next[u] == 0xFF
      {
        if start <= u < start + n {
          assert next[start..start + n][u - start] == 0xFF;
        }
      }
    }
  }

  lemma FlashedAt(mem: seq<byte>, start: nat, image: seq<byte>, w: nat)
    requires Sectors(|image|) >= 0 && start + SECTOR * Sectors(|image|) <= |mem| && w < |mem|
    ensures var m := Flashed(mem, start, image);
      && |m| == |mem|
      && (start <= w < start + |image| ==> m[w] == image[w - start])
      && (start + PAGE * Pages(|image|) <= w < start + SECTOR * Sectors(|image|) ==> m[w] == 0xFF)
      && (start + SECTOR * Sectors(|image|) <= w ==> m[w] == mem[w])
  {
    FlashedReadsBack(mem, start, image);
    PagesInSectors(|image|);
    if start <= w < start + |image| {
      assert Flashed(mem, start, image)[start..start + |image|][w - start] == image[w - start];
    }
  }

  // The range has room in the chip.
  lemma RoomInChip(a: Agent, flashaddr: u32, size: nat)
    requires Suits(a, a.data_size, a.flash_addr + a.flash_size) && Good(a, flashaddr, size)
    ensures Suits(a, |Zeros(a.data_size)|, CHIP) && 0 <= Sectors(size) && 0 <= Pages(size)
    ensures flashaddr + size <= flashaddr + PAGE * Pages(size) <= flashaddr + SECTOR * Sectors(size) <= 0xFFFF_F000
  {
    hide InBounds, Sectors, Pages;
    BoundsTestExactly(a, flashaddr, size);
    RangeFits(a, flashaddr, size, a.data_size, a.flash_addr + a.flash_size);
    MultiplesApart(a.flash_addr + a.flash_size, 0xFFFF_F000);
    PagesInSectors(size);
    PagesOf(size);
    ZerosLength(a.data_size);
  }

  lemma Unsafe(took: nat -> bool, link: nat -> Delivery, puts: nat, asks: nat, a: Agent, flashaddr: u32, size: nat)
    returns (e: Env, m: Machine)
    requires Suits(a, a.data_size, a.flash_addr + a.flash_size)
    requires Good(a, flashaddr, size) && size > 0 && size % 4 == 0
    requires (GoodRange(a, flashaddr, size);
              !FlashSafe(took, link, puts, asks, a, flashaddr, size))
    ensures e.took == took && e.link == link && Suits(a, |m.ram|, |m.chip.mem|) && |Zeros(size)| == size
    ensures !FlashBelieved(e, a, State(m, puts, asks), flashaddr, Zeros(size))
  {
    hide Zeros, Ones, Suits, Sectors, Pages, Wayward, Between, Adverse, NeededTook, WritesNeeded, WritesCanReturn,
      EraseCanReturn, Goes, Answered, Chunks, Invoked, Flashed, InBounds;
    GoodRange(a, flashaddr, size);
    RoomInChip(a, flashaddr, size);
    BufferSize(a, a.data_size, a.flash_addr + a.flash_size);
    ZerosLength(size);
    ZerosLength(a.data_size);
    ZerosLength(CHIP);
    OnesLength(CHIP);
    var c := Call(a.erase, flashaddr, size, 0);
    var goes, ram := Goes(link, asks), Zeros(a.data_size);
    AdversaryWayward(took, link, a, Ones(CHIP));
    AdversaryWayward(took, link, a, Zeros(CHIP));
    if goes && !NeededTook(took, puts, a, c) {
      e, m := Adversary(took, link, a, Ones(CHIP)), Machine(Astray(a, c), Nor(Zeros(CHIP), 0), ram);
      UnsafeErase(e, a, State(m, puts, asks), flashaddr, size);
    } else if !goes && !FillsSectors(size) {
      e, m := Adversary(took, link, a, Zeros(CHIP)), Machine(Prior(a), Nor(Zeros(CHIP), 0), ram);
      UnsafeSkip(e, a, State(m, puts, asks), flashaddr, size);
    } else {
      e, m := Adversary(took, link, a, Ones(CHIP)), Machine(Prior(a), Nor(Ones(CHIP), 0), ram);
      UnsafeWrites(e, a, State(m, puts, asks), flashaddr, size);
    }
  }

  // The erase call runs astray, and changes the last byte of the chip.
  lemma UnsafeErase(e: Env, a: Agent, s: State, flashaddr: u32, size: nat)
    requires Suits(a, |s.m.ram|, CHIP) && Good(a, flashaddr, size) && 0 < size < TWO_32 && size % 4 == 0
    requires 0 <= Sectors(size) && flashaddr + size <= flashaddr + SECTOR * Sectors(size) <= 0xFFFF_F000
    requires Wayward(e, a, Ones(CHIP)) && s.m.ram == Zeros(a.data_size) && s.m.chip.mem == Zeros(CHIP)
    requires var c := Call(a.erase, flashaddr, size, 0);
      s.m.regs == Astray(a, c) && Goes(e.link, s.asks) && !NeededTook(e.took, s.puts, a, c)
    requires FlashCanReturn(e.took, e.link, s.puts, s.asks, a, flashaddr, size)
    ensures |s.m.chip.mem| == CHIP && |Zeros(size)| == size
    ensures !FlashBelieved(e, a, s, flashaddr, Zeros(size))
  {
    hide Zeros, Ones, Sectors, Pages, Wayward, NeededTook, WritesCanReturn, Goes, Answered, Chunks, Invoked, Flashed,
      InBounds;
    var c, w, lucky := Call(a.erase, flashaddr, size, 0), CHIP - 1, Ones(CHIP);
    ZerosLength(CHIP);
    ZerosLength(size);
    OnesLength(CHIP);
    ZeroAt(CHIP, w);
    BufferSize(a, |s.m.ram|, CHIP);
    EraseStrays(e, a, lucky, s, c);
    var s1 := Invoked(e, a, s, c).0;
    StaysWrong(e, a, lucky, s1, flashaddr, size, 0, w);
    FlashedAt(s.m.chip.mem, flashaddr, Zeros(size), w);
    assert Flash(e, a, s, flashaddr, Zeros(size)) == Chunks(e, a, s1, flashaddr, Zeros(size), 0);
  }

  // The erase call does nothing, and a byte that should be blank is not.
  lemma UnsafeSkip(e: Env, a: Agent, s: State, flashaddr: u32, size: nat)
    requires Suits(a, |s.m.ram|, CHIP) && Good(a, flashaddr, size) && 0 < size < TWO_32 && size % 4 == 0
    requires 0 <= Sectors(size) && 0 <= Pages(size) && flashaddr + size < TWO_32 && !FillsSectors(size)
    requires flashaddr + PAGE * Pages(size) <= flashaddr + SECTOR * Sectors(size) <= 0xFFFF_F000
    requires Wayward(e, a, Zeros(CHIP)) && s.m.ram == Zeros(a.data_size) && s.m.chip.mem == Zeros(CHIP)
    requires s.m.regs == Prior(a) && !Goes(e.link, s.asks)
    requires FlashCanReturn(e.took, e.link, s.puts, s.asks, a, flashaddr, size)
    ensures |s.m.chip.mem| == CHIP && |Zeros(size)| == size
    ensures !FlashBelieved(e, a, s, flashaddr, Zeros(size))
  {
    hide Zeros, Sectors, Pages, Wayward, NeededTook, WritesCanReturn, Goes, Answered, Chunks, Invoked, Flashed,
      InBounds, Adverse;
    var c, w, lucky := Call(a.erase, flashaddr, size, 0), flashaddr + PAGE * Pages(size), Zeros(CHIP);
    ZerosLength(CHIP);
    ZerosLength(size);
    ZeroAt(CHIP, w);
    BufferSize(a, |s.m.ram|, CHIP);
    EraseReturns(e, a, lucky, s, c);
    var s1 := Invoked(e, a, s, c).0;
    StaysWrong(e, a, lucky, s1, flashaddr, size, 0, w);
    FlashedAt(s.m.chip.mem, flashaddr, Zeros(size), w);
    assert Flash(e, a, s, flashaddr, Zeros(size)) == Chunks(e, a, s1, flashaddr, Zeros(size), 0);
  }

  // A byte of the image is not programmed.
  lemma UnsafeWrites(e: Env, a: Agent, s: State, flashaddr: u32, size: nat)
    requires Suits(a, |s.m.ram|, CHIP) && Good(a, flashaddr, size) && 0 < size < TWO_32 && size % 4 == 0
    requires 0 <= Sectors(size) && 0 <= Pages(size) && flashaddr + size < TWO_32
    requires flashaddr + PAGE * Pages(size) <= flashaddr + SECTOR * Sectors(size) <= 0xFFFF_F000
    requires Wayward(e, a, Ones(CHIP)) && s.m.ram == Zeros(a.data_size) && s.m.chip.mem == Ones(CHIP)
    requires s.m.regs == Prior(a) && FlashCanReturn(e.took, e.link, s.puts, s.asks, a, flashaddr, size)
    requires Goes(e.link, s.asks) ==> NeededTook(e.took, s.puts, a, Call(a.erase, flashaddr, size, 0))
    requires var known := if Goes(e.link, s.asks) then RAN else Skipped(e.took, s.puts, a, size);
      !WritesNeeded(e.took, s.puts + PUTS, Beyond(s.puts, size), a, flashaddr, size, known)
    ensures |s.m.chip.mem| == CHIP && |Zeros(size)| == size
    ensures !FlashBelieved(e, a, s, flashaddr, Zeros(size))
  {
    hide Zeros, Ones, Sectors, Pages, Wayward, NeededTook, WritesCanReturn, Goes, Answered, Chunks, Invoked, Flashed,
      InBounds, Adverse, WritesNeeded, Skipped, BlankFrom;
    var c, lucky := Call(a.erase, flashaddr, size, 0), Ones(CHIP);
    ZerosLength(size);
    OnesLength(CHIP);
    BufferSize(a, |s.m.ram|, CHIP);
    EraseReturns(e, a, lucky, s, c);
    var s1 := Invoked(e, a, s, c).0;
    var known := if Goes(e.link, s.asks) then RAN else Skipped(e.took, s.puts, a, size);
    var w := SomeMissing(e, a, lucky, s1, flashaddr, size, known, Beyond(s.puts, size));
    FlashedAt(s.m.chip.mem, flashaddr, Zeros(size), w);
    ZeroAt(size, w - flashaddr);
    assert Flash(e, a, s, flashaddr, Zeros(size)) == Chunks(e, a, s1, flashaddr, Zeros(size), 0);
  }

  // ----- single lost writes -----

  // All goes well but for one register write.
  ghost predicate OnlyLost(e: Env, k: nat) {
    && NoFaults(e.fault) && (forall i: nat :: e.link(i) == Delivered)
    && !e.took(k) && (forall i: nat :: i != k ==> e.took(i))
  }

  /** The program counter's write is lost in the write call of an image of one chunk: nothing is programmed, the
      core halts again on the breakpoint where it stands, and flashing reports success if and only if the address
      is 0. */
  lemma LostPc(e: Env, a: Agent, s: State, flashaddr: u32, image: seq<byte>)
    requires Suits(a, |s.m.ram|, |s.m.chip.mem|) && Good(a, flashaddr, |image|) && 0 < |image| <= a.data_size
    requires OnlyLost(e, s.puts + PUTS + 6)
    ensures flashaddr + SECTOR * Sectors(|image|) <= |s.m.chip.mem|
    ensures var (s', r) := Flash(e, a, s, flashaddr, image);
      && s'.m.chip.mem == Erased(s.m.chip.mem, flashaddr, |image|)
      && (r == 0 <==> flashaddr == 0)
  {
    hide Padded, Pages, Sectors, EraseRun, Ones, Holds, Kept, InBounds;
    var mem0, c := s.m.chip.mem, Call(a.erase, flashaddr, |image|, 0);
    BoundsTestExactly(a, flashaddr, |image|);
    BufferSize(a, |s.m.ram|, |mem0|);
    RangeFits(a, flashaddr, |image|, |s.m.ram|, |mem0|);
    EraseMeans(e.fault, s.m.chip, flashaddr, Sectors(|image|));
    EraseCall(e, a, s, c);
    var (s1, err) := Invoked(e, a, s, c);
    ErasedIs(mem0, s1.m.chip.mem, flashaddr, |image|);
    StaysOnBreakpoint(e, a, s1, flashaddr, image);
  }

  lemma StaysOnBreakpoint(e: Env, a: Agent, s: State, flashaddr: u32, image: seq<byte>)
    requires Callable(a) && PageStart(|s.m.ram|) && 0 < a.data_size <= |s.m.ram| && OnlyLost(e, s.puts + 6)
    requires 0 < |image| <= a.data_size && flashaddr + |image| < TWO_32 && s.m.regs.pc == a.load_addr
    ensures var (s', r) := Chunks(e, a, s, flashaddr, image, 0);
      s'.m.chip == s.m.chip && (r == 0 <==> flashaddr == 0)
  {
    assert image[0..0 + |image|] == image;
    var (s1, _) := Downloaded(e, s, image);
    var c := Call(a.write, flashaddr, a.data_addr, |image|);
    assert Started(e, a, s1, c).regs.pc == a.load_addr && Started(e, a, s1, c).regs.r0 == flashaddr;
    assert Ran(e, a, s1, c) == Started(e, a, s1, c);
    var (s2, err) := Invoked(e, a, s1, c);
    assert Chunk(e, a, s, flashaddr, image) == (s2, err);
    assert err == flashaddr;
    assert Chunks(e, a, s2, flashaddr, image, |image|) == (s2, 0);
  }

  /** The first argument's write is lost in the erase call: the command reports success, and what is blank is the
      range that starts where r0 pointed, at 0 after the setup function. */
  lemma LostArgument(e: Env, a: Agent, s: State, flashaddr: u32, length: u32)
    requires Suits(a, |s.m.ram|, |s.m.chip.mem|) && s.m.regs.r0 == 0
    requires var (start, size) := EraseRange(a, flashaddr, length);
      InBounds(a, start, size) && Sectors(size) >= 0 && SECTOR * Sectors(size) <= |s.m.chip.mem|
    requires OnlyLost(e, s.puts)
    ensures var (s', r) := EraseCommand(e, a, s, flashaddr, length);
      r == 0 && s'.m.chip.mem == Erased(s.m.chip.mem, 0, EraseRange(a, flashaddr, length).1)
  {
    hide Sectors, EraseRun, Ones, Kept, InBounds;
    var (start, size) := EraseRange(a, flashaddr, length);
    var c := Call(a.erase, start, size, 0);
    BufferSize(a, |s.m.ram|, |s.m.chip.mem|);
    var took := (i: nat) => true;
    var f := e.(took := took);
    assert Started(e, a, s, c) == Started(f, a, s, c.(r0 := 0));
    assert Invoked(e, a, s, c) == Invoked(f, a, s, c.(r0 := 0));
    EraseCall(f, a, s, c.(r0 := 0));
    EraseMeans(e.fault, s.m.chip, 0, Sectors(size));
    ErasedIs(s.m.chip.mem, Invoked(e, a, s, c).0.m.chip.mem, 0, size);
  }
}
