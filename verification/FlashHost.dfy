/** Flashing from the host (tools/debugger-commands.c): the bounds test, one erase, and the image in chunks of the
    agent's buffer. */
module FlashHost {
  import opened Words
  import opened NorFlash
  import opened SpifiAgent
  import opened Session
  import opened CoreCall

  // The header of the SPIFI agent; the linker places its functions.
  function SpifiHeader(erase: u32, write: u32): Agent {
    Agent(0x1008_0400, 0x1008_0800, 0x8000, 0, 0x10_0000, erase, write)
  }

  // The header describes the target: its buffer is a whole number of sectors, so that every chunk starts one, and
  // the flash it announces is there.
  predicate Suits(agent: Agent, ram: nat, chip: nat) {
    && Callable(agent)
    && agent.data_size > 0 && agent.data_size % SECTOR == 0 && ram == agent.data_size
    && agent.flash_addr % SECTOR == 0 && agent.flash_size % SECTOR == 0
    && agent.flash_addr + agent.flash_size <= chip
  }

  lemma SpifiSuits(erase: u32, write: u32, chip: nat)
    ensures Suits(SpifiHeader(erase, write), 0x8000, chip)
        <==> Callable(SpifiHeader(erase, write)) && chip >= 0x10_0000
  {
  }

  // The test before anything is erased, on a host whose size_t is wider than 32 bits.
  predicate InBounds(agent: Agent, flashaddr: u32, size: nat) {
    !(flashaddr < agent.flash_addr || size > agent.flash_size
      || flashaddr + size > Add32(agent.flash_addr, agent.flash_size))
  }

  /** The test lets through just the ranges inside the flash, unless the flash ends at the very top of the address
      space: then it lets nothing through. */
  lemma BoundsTestExactly(agent: Agent, flashaddr: u32, size: nat)
    ensures InBounds(agent, flashaddr, size)
        <==> && agent.flash_addr <= flashaddr
             && flashaddr + size <= agent.flash_addr + agent.flash_size
             && agent.flash_addr + agent.flash_size < TWO_32
  {
    var end := agent.flash_addr + agent.flash_size;
    if end >= TWO_32 {
      assert Add32(agent.flash_addr, agent.flash_size) == end - TWO_32;
    }
  }

  // ----- what flashing means -----

  // The flash with the image in it: zeros to the end of its last page, ones to the end of its last sector, and
  // everything else as it was.
  function Flashed(mem: seq<byte>, start: nat, image: seq<byte>): (m: seq<byte>)
    requires start + SECTOR * Sectors(|image|) <= |mem|
    ensures |m| == |mem|
  {
    var pages, size := Padded(image), SECTOR * Sectors(|image|);
    PagesInSectors(|image|);
    mem[..start] + pages + Ones(size - |pages|) + mem[start + size..]
  }

  function Erased(mem: seq<byte>, start: nat, length: nat): seq<byte>
    requires start + SECTOR * Sectors(length) <= |mem|
  {
    SectorsOf(length);
    mem[..start] + Ones(SECTOR * Sectors(length)) + mem[start + SECTOR * Sectors(length)..]
  }

  lemma PagesInSectors(n: nat)
    ensures n <= PAGE * Pages(n) <= SECTOR * Sectors(n)
  {
  }

  // The first done bytes of the image are in the flash, and the rest of its sectors is blank.
  ghost predicate Progress(mem0: seq<byte>, mem: seq<byte>, start: nat, size: nat, image: seq<byte>, done: nat) {
    && done <= |image|
    && |Padded(image[..done])| <= size
    && Kept(mem0, mem, start, start + size)
    && Holds(mem, start, Padded(image[..done]))
    && Holds(mem, start + |Padded(image[..done])|, Ones(size - |Padded(image[..done])|))
  }

  lemma ProgressStart(mem0: seq<byte>, mem: seq<byte>, start: nat, size: nat, image: seq<byte>)
    requires Kept(mem0, mem, start, start + size) && Holds(mem, start, Ones(size))
    ensures Progress(mem0, mem, start, size, image, 0)
  {
    PaddedWhole(image[..0]);
  }

  // One chunk programmed.
  lemma ProgressStep(mem0: seq<byte>, mem: seq<byte>, next: seq<byte>, start: nat, size: nat, image: seq<byte>,
                     done: nat, more: nat)
    requires Progress(mem0, mem, start, size, image, done) && PageStart(done) && done + more <= |image|
    requires var pages := Padded(image[done..done + more]);
      && done + |pages| <= size
      && Kept(mem, next, start + done, start + done + |pages|)
      && Holds(next, start + done, pages)
    ensures Progress(mem0, next, start, size, image, done + more)
  {
    hide Padded, Ones, Holds, Kept;
    var a, b := image[..done], image[done..done + more];
    var pages := Padded(b);
    var blank := size - done;
    PaddedWhole(a);
    PaddedTail(a, b);
    assert image[..done + more] == a + b;
    StillHolds(mem, next, start + done, start + done + |pages|, start, a);
    HoldsJoin(next, start, a, pages);
    OnesJoin(|pages|, blank - |pages|);
    HoldsJoin(mem, start + done, Ones(|pages|), Ones(blank - |pages|));
    StillHolds(mem, next, start + done, start + done + |pages|, start + done + |pages|, Ones(blank - |pages|));
    KeptInside(mem0, mem, next, start, start + size, start + done, start + done + |pages|);
  }

  lemma KeptInside(m0: seq<byte>, m1: seq<byte>, m2: seq<byte>, lo: nat, hi: nat, from: nat, to: nat)
    requires Kept(m0, m1, lo, hi) && Kept(m1, m2, from, to) && lo <= from && to <= hi
    ensures Kept(m0, m2, lo, hi)
  {
  }

  lemma ProgressEnd(mem0: seq<byte>, mem: seq<byte>, start: nat, image: seq<byte>)
    requires start + SECTOR * Sectors(|image|) <= |mem0|
    requires Progress(mem0, mem, start, SECTOR * Sectors(|image|), image, |image|)
    ensures mem == Flashed(mem0, start, image)
  {
    var size := SECTOR * Sectors(|image|);
    assert image[..|image|] == image;
    ThreeRegions(mem0, mem, start, Padded(image), Ones(size - |Padded(image)|));
  }

  lemma ThreeRegions(mem0: seq<byte>, mem: seq<byte>, start: nat, a: seq<byte>, b: seq<byte>)
    requires start + |a| + |b| <= |mem0| && Kept(mem0, mem, start, start + |a| + |b|)
    requires Holds(mem, start, a) && Holds(mem, start + |a|, b)
    ensures mem == mem0[..start] + a + b + mem0[start + |a| + |b|..]
  {
    HoldsJoin(mem, start, a, b);
    assert mem[..start] == mem0[..start];
    assert mem[start + |a| + |b|..] == mem0[start + |a| + |b|..];
    assert mem == mem[..start] + mem[start..start + |a + b|] + mem[start + |a + b|..];
  }

  /** The image can be read back, and nothing outside its sectors has changed. */
  lemma FlashedReadsBack(mem: seq<byte>, start: nat, image: seq<byte>)
    requires start + SECTOR * Sectors(|image|) <= |mem|
    ensures var m := Flashed(mem, start, image);
      && m[start..start + |image|] == image
      && (forall i :: start + |image| <= i < start + PAGE * Pages(|image|) ==> m[i] == 0)
      && (forall i :: start + PAGE * Pages(|image|) <= i < start + SECTOR * Sectors(|image|) ==> m[i] == 0xFF)
      && Kept(mem, m, start, start + SECTOR * Sectors(|image|))
  {
    PagesInSectors(|image|);
    var pages := Padded(image);
    assert pages[..|image|] == image;
  }

  lemma KeptSame(mem: seq<byte>, lo: nat, hi: nat)
    ensures Kept(mem, mem, lo, hi)
  {
  }

  // A range that passes the bounds test and starts a sector lies in the chip with all its sectors.
  lemma RangeFits(agent: Agent, flashaddr: u32, size: nat, ram: nat, chip: nat)
    requires InBounds(agent, flashaddr, size) && flashaddr % SECTOR == 0
    requires Suits(agent, ram, chip)
    ensures flashaddr + SECTOR * Sectors(size) <= chip && flashaddr + size < TWO_32 && Sectors(size) >= 0
  {
    BoundsTestExactly(agent, flashaddr, size);
    SectorsOf(size);
    MultiplesApart(flashaddr + SECTOR * Sectors(size), agent.flash_addr + agent.flash_size);
  }

  lemma MultiplesApart(a: int, b: int)
    requires a % SECTOR == 0 && b % SECTOR == 0 && a < b + SECTOR
    ensures a <= b
  {
  }

  lemma StepStaysAligned(at: int, ptr: int, n: int)
    requires SectorStart(at) && PageStart(ptr) && SectorStart(n)
    ensures SectorStart(at + n) && PageStart(ptr + n)
  {
  }

  lemma BufferSize(agent: Agent, ram: nat, chip: nat)
    requires Suits(agent, ram, chip)
    ensures ram == agent.data_size > 0 && SectorStart(agent.data_size)
    ensures agent.data_size % PAGE == 0 && agent.data_size % 4 == 0 && PageStart(ram) && Callable(agent)
  {
  }

  // The sectors of the image have room for the next chunk with its padding, and are blank there.
  lemma ChunkFits(mem0: seq<byte>, mem: seq<byte>, start: nat, size: nat, image: seq<byte>, done: nat, more: nat)
    requires Progress(mem0, mem, start, size, image, done) && PageStart(done) && done + more <= |image|
    requires size == SECTOR * Sectors(|image|)
    ensures |image[done..done + more]| == more
    ensures done + PAGE * Pages(more) <= size && |Padded(image[done..done + more])| == PAGE * Pages(more)
    ensures Holds(mem, start + done, Ones(PAGE * Pages(more)))
  {
    PagesInSectors(|image|);
    PagesAfter(done, more);
    PagesGrow(done + more, |image|);
    PaddedWhole(image[..done]);
    PagesOf(more);
    var n := PAGE * Pages(more);
    OnesJoin(n, size - done - n);
    HoldsJoin(mem, start + done, Ones(n), Ones(size - done - n));
  }

  lemma ProgressKept(mem0: seq<byte>, mem: seq<byte>, start: nat, size: nat, image: seq<byte>, done: nat)
    requires Progress(mem0, mem, start, size, image, done)
    ensures Kept(mem0, mem, start, start + size)
  {
  }

  lemma ChunkInside(mem0: seq<byte>, mem: seq<byte>, next: seq<byte>, start: nat, size: nat, image: seq<byte>,
                    done: nat, more: nat)
    requires Progress(mem0, mem, start, size, image, done) && done + more <= |image|
    requires var n := |Padded(image[done..done + more])|;
      done + n <= size && Kept(mem, next, start + done, start + done + n)
    ensures Kept(mem0, next, start, start + size)
  {
  }

  lemma PagesGrow(a: nat, b: nat)
    requires a <= b
    ensures PAGE * Pages(a) <= PAGE * Pages(b)
  {
  }

  function EraseRange(agent: Agent, flashaddr: u32, length: u32): (u32, u32) {
    if flashaddr == 0 && length == 0xFFFF_FFFF then (agent.flash_addr, agent.flash_size) else (flashaddr, length)
  }

  lemma ErasedIs(mem0: seq<byte>, mem: seq<byte>, start: nat, length: nat)
    requires 0 <= Sectors(length) && start + SECTOR * Sectors(length) <= |mem0|
    requires Kept(mem0, mem, start, start + SECTOR * Sectors(length))
    requires Holds(mem, start, Ones(SECTOR * Sectors(length)))
    ensures mem == Erased(mem0, start, length)
  {
    ThreeRegions(mem0, mem, start, Ones(SECTOR * Sectors(length)), []);
  }

  // ----- the commands, as functions of the target -----

  // swdp_ahb_write32 into the agent's buffer.
  function Downloaded(e: Env, s: State, bytes: seq<byte>): (r: (State, int))
    requires |bytes| <= |s.m.ram|
    ensures r.0.m == s.m.(ram := r.0.m.ram) && |r.0.m.ram| == |s.m.ram| && r.0.puts == s.puts
    ensures r.1 == 0 ==> r.0.m.ram[..|bytes|] == bytes
  {
    var d := e.link(s.asks);
    (State(if d == RequestLost then s.m else s.m.(ram := bytes + s.m.ram[|bytes|..]), s.puts, s.asks + 1),
     if d == Delivered then 0 else -1)
  }

  // One chunk: download it into the agent's buffer and have it programmed.
  function Chunk(e: Env, a: Agent, s: State, at: u32, chunk: seq<byte>): (r: (State, int))
    requires Callable(a) && PageStart(|s.m.ram|) && |chunk| <= |s.m.ram| && |chunk| < TWO_32
    ensures |r.0.m.ram| == |s.m.ram| && |r.0.m.chip.mem| == |s.m.chip.mem| && r.0.puts >= s.puts
  {
    var (s1, err) := Downloaded(e, s, chunk);
    if err != 0 then (s1, -1) else Invoked(e, a, s1, Call(a.write, at, a.data_addr, |chunk|))
  }

  function ChunkSize(a: Agent, left: nat): nat {
    if left > a.data_size then a.data_size else left
  }

  // What is left of the image after the first done bytes.
  function Chunks(e: Env, a: Agent, s: State, flashaddr: u32, image: seq<byte>, done: nat): (r: (State, int))
    requires Callable(a) && PageStart(|s.m.ram|) && 0 < a.data_size <= |s.m.ram|
    requires done <= |image| && flashaddr + |image| < TWO_32
    ensures |r.0.m.ram| == |s.m.ram| && |r.0.m.chip.mem| == |s.m.chip.mem| && r.0.puts >= s.puts
    decreases |image| - done
  {
    if done == |image| then (s, 0)
    else
      var n := ChunkSize(a, |image| - done);
      var (s1, err) := Chunk(e, a, s, flashaddr + done, image[done..done + n]);
      if err != 0 then (s1, -1) else Chunks(e, a, s1, flashaddr, image, done + n)
  }

  // run_flash_agent with data, once the agent is set up.
  function Flash(e: Env, a: Agent, s: State, flashaddr: u32, image: seq<byte>): (r: (State, int))
    requires Suits(a, |s.m.ram|, |s.m.chip.mem|)
    ensures r.0.puts >= s.puts
  {
    if !InBounds(a, flashaddr, |image|) then (s, -1)
    else
      BoundsTestExactly(a, flashaddr, |image|);
      BufferSize(a, |s.m.ram|, |s.m.chip.mem|);
      var (s1, err) := Invoked(e, a, s, Call(a.erase, flashaddr, |image|, 0));
      if err != 0 then (s1, -1) else Chunks(e, a, s1, flashaddr, image, 0)
  }

  // run_flash_agent without data.
  function EraseCommand(e: Env, a: Agent, s: State, flashaddr: u32, length: u32): (r: (State, int))
    requires Suits(a, |s.m.ram|, |s.m.chip.mem|)
    ensures r.0.puts >= s.puts
  {
    var (start, size) := EraseRange(a, flashaddr, length);
    if !InBounds(a, start, size) then (s, -1)
    else
      BufferSize(a, |s.m.ram|, |s.m.chip.mem|);
      var (s1, err) := Invoked(e, a, s, Call(a.erase, start, size, 0));
      (s1, if err != 0 then -1 else 0)
  }

  // ----- the register writes they need -----

  // From exchange k and register write p on, the downloads are delivered and the write calls can return zero.
  predicate WritesCanReturn(took: nat -> bool, link: nat -> Delivery, p: nat, k: nat, a: Agent, at: u32, left: nat)
    requires a.data_size > 0 && at + left < TWO_32
    decreases left
  {
    var n := ChunkSize(a, left);
    left == 0 ||
    (&& link(k) == Delivered && WriteCanReturn(took, link, p, k + 1, at)
     && WritesCanReturn(took, link, p + PUTS, After(link, k + 1), a, at + n, left - n))
  }

  // The write calls that come before register write number end have the writes they need; known is what the call
  // before the first of them leaves.
  predicate WritesNeeded(took: nat -> bool, p: nat, end: nat, a: Agent, at: u32, left: nat, known: Known)
    requires a.data_size > 0 && at + left < TWO_32
    decreases left
  {
    var n := ChunkSize(a, left);
    left == 0 || p >= end ||
    (WriteNeeded(took, p, at, known) && WritesNeeded(took, p + PUTS, end, a, at + n, left - n, RAN))
  }

  predicate FlashCanReturn(took: nat -> bool, link: nat -> Delivery, p: nat, k: nat, a: Agent, at: u32, size: nat)
    requires a.data_size > 0 && at + size < TWO_32
  {
    && EraseCanReturn(took, link, p, k, at)
    && WritesCanReturn(took, link, p + PUTS, After(link, k), a, at, size)
  }

  predicate FlashNeeded(took: nat -> bool, p: nat, end: nat, a: Agent, at: u32, size: nat)
    requires a.data_size > 0 && at + size < TWO_32
  {
    p >= end ||
    (NeededTook(took, p, a, Call(a.erase, at, size, 0)) && WritesNeeded(took, p + PUTS, end, a, at, size, RAN))
  }

  // No register write of the command has this number, or a later one.
  function Beyond(p: nat, size: nat): nat {
    p + PUTS * (size + 1)
  }

  predicate FillsSectors(size: nat) {
    PAGE * Pages(size) == SECTOR * Sectors(size)
  }

  /** When the command can return zero at all, every call has the register writes it needs; but an erase call whose
      core is not resumed may do without, if no byte of the sectors has to be blank in the end. */
  predicate FlashSafe(took: nat -> bool, link: nat -> Delivery, p: nat, k: nat, a: Agent, at: u32, size: nat)
    requires a.data_size > 0 && at + size < TWO_32
  {
    FlashCanReturn(took, link, p, k, a, at, size) ==>
      if Goes(link, k) then FlashNeeded(took, p, Beyond(p, size), a, at, size)
      else FillsSectors(size) && WritesNeeded(took, p + PUTS, Beyond(p, size), a, at, size, Skipped(took, p, a, size))
  }

  // No register write at all is lost.
  ghost predicate AllTook(took: nat -> bool, lo: nat, hi: nat) {
    forall i: nat :: lo <= i < hi ==> took(i)
  }

  lemma {:induction false} AllTookWrites(took: nat -> bool, p: nat, end: nat, a: Agent, at: u32, left: nat,
                                         known: Known)
    requires a.data_size > 0 && at + left < TWO_32 && AllTook(took, p, end) && (end - p) % PUTS == 0
    ensures WritesNeeded(took, p, end, a, at, left, known)
    decreases left
  {
    if left > 0 && p < end {
      var n := ChunkSize(a, left);
      AllTookWrites(took, p + PUTS, end, a, at + n, left - n, RAN);
    }
  }

  /** Then every call has what it needs. */
  lemma AllTookSuffices(took: nat -> bool, p: nat, end: nat, a: Agent, at: u32, size: nat)
    requires a.data_size > 0 && at + size < TWO_32 && AllTook(took, p, end) && (end - p) % PUTS == 0
    ensures FlashNeeded(took, p, end, a, at, size)
  {
    if p < end {
      AllTookWrites(took, p + PUTS, end, a, at, size, RAN);
    }
  }

  // ----- what the commands do -----

  // Neither the flash nor an exchange whose result is looked at goes wrong.
  ghost predicate Smooth(e: Env) {
    NoFaults(e.fault) && forall k: nat :: e.link(k) == Delivered
  }

  lemma ChunkMeans(e: Env, a: Agent, s: State, at: u32, chunk: seq<byte>, known: Known)
    requires Callable(a) && PageStart(|s.m.ram|) && |chunk| <= |s.m.ram| && |chunk| < TWO_32
    requires SectorStart(at) && at + PAGE * Pages(|chunk|) <= |s.m.chip.mem|
    requires Left(a, s.m.regs, known)
    requires Chunk(e, a, s, at, chunk).0.puts > s.puts ==> WriteNeeded(e.took, s.puts, at, known)
    ensures var (s', err) := Chunk(e, a, s, at, chunk);
      var mem, next := s.m.chip.mem, s'.m.chip.mem;
      && Kept(mem, next, at, at + |Padded(chunk)|)
      && (err == 0 ==> s'.puts == s.puts + PUTS && Left(a, s'.m.regs, RAN) && Holds(next, at, Padded(chunk)))
      && (Smooth(e) && Holds(mem, at, Ones(|Padded(chunk)|)) ==> err == 0)
  {
    hide Padded, Pages, WriteRun, Holds, Ones, Kept, Invoked, Left, WriteNeeded;
    var (s1, err) := Downloaded(e, s, chunk);
    KeptSame(s.m.chip.mem, at, at + |Padded(chunk)|);
    if err == 0 {
      assert s1.m.ram[..|chunk|] == chunk && s1.m.chip == s.m.chip;
      WriteCall(e, a, s1, Call(a.write, at, a.data_addr, |chunk|), known);
      WriteMeans(e.fault, s.m.chip, at, Padded(chunk));
    }
  }

  lemma NoChunks(e: Env, a: Agent, s: State, flashaddr: u32, image: seq<byte>)
    requires Callable(a) && PageStart(|s.m.ram|) && 0 < a.data_size <= |s.m.ram| && flashaddr + |image| < TWO_32
    ensures Chunks(e, a, s, flashaddr, image, |image|) == (s, 0)
  {
  }

  lemma ChunksStep(e: Env, a: Agent, s: State, flashaddr: u32, image: seq<byte>, done: nat)
    requires Callable(a) && PageStart(|s.m.ram|) && 0 < a.data_size <= |s.m.ram|
    requires done < |image| && flashaddr + |image| < TWO_32
    ensures var n := ChunkSize(a, |image| - done);
      0 < n <= |image| - done && n <= |s.m.ram|
    ensures var n := ChunkSize(a, |image| - done);
      var (s1, err) := Chunk(e, a, s, flashaddr + done, image[done..done + n]);
      Chunks(e, a, s, flashaddr, image, done)
        == if err != 0 then (s1, -1) else Chunks(e, a, s1, flashaddr, image, done + n)
  {
    hide Chunk;
  }

  lemma NeededStep(took: nat -> bool, p: nat, end: nat, a: Agent, at: u32, left: nat, known: Known)
    requires 0 < a.data_size && at + left < TWO_32 && 0 < left && p < end
    ensures var n := ChunkSize(a, left);
      0 < n <= left
    ensures var n := ChunkSize(a, left);
      var rest := WritesNeeded(took, p + PUTS, end, a, at + n, left - n, RAN);
      WritesNeeded(took, p, end, a, at, left, known) <==> WriteNeeded(took, p, at, known) && rest
  {
  }

  // The chunks, over erased sectors.
  lemma {:induction false} ChunksMean(e: Env, a: Agent, s: State, flashaddr: u32, image: seq<byte>, done: nat,
                                      mem0: seq<byte>, known: Known)
    requires Suits(a, |s.m.ram|, |mem0|) && PageStart(|s.m.ram|) && Left(a, s.m.regs, known)
    requires done <= |image| && flashaddr + |image| < TWO_32
    requires done < |image| ==> SectorStart(flashaddr + done) && PageStart(done)
    requires 0 <= Sectors(|image|) && flashaddr + SECTOR * Sectors(|image|) <= |mem0|
    requires Progress(mem0, s.m.chip.mem, flashaddr, SECTOR * Sectors(|image|), image, done)
    requires var end := Chunks(e, a, s, flashaddr, image, done).0.puts;
      WritesNeeded(e.took, s.puts, end, a, flashaddr + done, |image| - done, known)
    ensures var (s', err) := Chunks(e, a, s, flashaddr, image, done);
      var mem := s'.m.chip.mem;
      && Kept(mem0, mem, flashaddr, flashaddr + SECTOR * Sectors(|image|))
      && (err == 0 ==> mem == Flashed(mem0, flashaddr, image))
      && (Smooth(e) ==> err == 0)
    decreases |image| - done
  {
    hide Flashed, Padded, Pages, Sectors, Ones, Holds, Kept, Progress, Suits, Chunk, Chunks, Callable, NoFaults, Left,
      WriteNeeded, WritesNeeded;
    var size, mem := SECTOR * Sectors(|image|), s.m.chip.mem;
    BufferSize(a, |s.m.ram|, |mem0|);
    ProgressKept(mem0, mem, flashaddr, size, image, done);
    if done == |image| {
      ProgressEnd(mem0, mem, flashaddr, image);
      NoChunks(e, a, s, flashaddr, image);
    } else {
      ChunksStep(e, a, s, flashaddr, image, done);
      var n, end := ChunkSize(a, |image| - done), Chunks(e, a, s, flashaddr, image, done).0.puts;
      if s.puts < end {
        NeededStep(e.took, s.puts, end, a, flashaddr + done, |image| - done, known);
      }
      ChunkFits(mem0, mem, flashaddr, size, image, done, n);
      var (s1, err) := Chunk(e, a, s, flashaddr + done, image[done..done + n]);
      ChunkMeans(e, a, s, flashaddr + done, image[done..done + n], known);
      if err != 0 {
        ChunkInside(mem0, mem, s1.m.chip.mem, flashaddr, size, image, done, n);
      } else {
        ProgressStep(mem0, mem, s1.m.chip.mem, flashaddr, size, image, done, n);
        if |image| - done > a.data_size {
          StepStaysAligned(flashaddr + done, done, n);
        }
        ChunksMean(e, a, s1, flashaddr, image, done + n, mem0, RAN);
      }
    }
  }

  // Chunks that return zero, over anything at all: the pages of the image are there, and only they have changed.
  lemma {:induction false} ChunksSound(e: Env, a: Agent, s: State, flashaddr: u32, image: seq<byte>, done: nat,
                                       mem0: seq<byte>, known: Known, end: nat)
    requires Suits(a, |s.m.ram|, |mem0|) && PageStart(|s.m.ram|) && Left(a, s.m.regs, known)
    requires done <= |image| && flashaddr + |image| < TWO_32
    requires done < |image| ==> SectorStart(flashaddr + done) && PageStart(done)
    requires flashaddr + |Padded(image)| <= |mem0|
    requires Kept(mem0, s.m.chip.mem, flashaddr, flashaddr + |Padded(image)|)
    requires Holds(s.m.chip.mem, flashaddr, Padded(image[..done]))
    requires s.puts + PUTS * (|image| - done) <= end
    requires WritesNeeded(e.took, s.puts, end, a, flashaddr + done, |image| - done, known)
    requires Chunks(e, a, s, flashaddr, image, done).1 == 0
    ensures var mem := Chunks(e, a, s, flashaddr, image, done).0.m.chip.mem;
      Kept(mem0, mem, flashaddr, flashaddr + |Padded(image)|) && Holds(mem, flashaddr, Padded(image))
    decreases |image| - done
  {
    hide Padded, Pages, Sectors, Ones, Holds, Kept, Suits, Chunk, Chunks, Callable, NoFaults, Left, WriteNeeded,
      WritesNeeded, SectorStart, PageStart;
    BufferSize(a, |s.m.ram|, |mem0|);
    if done == |image| {
      NoChunks(e, a, s, flashaddr, image);
      assert image[..done] == image;
    } else {
      var mem, n := s.m.chip.mem, ChunkSize(a, |image| - done);
      ChunksStep(e, a, s, flashaddr, image, done);
      NeededStep(e.took, s.puts, end, a, flashaddr + done, |image| - done, known);
      var chunk := image[done..done + n];
      var (s1, err) := Chunk(e, a, s, flashaddr + done, chunk);
      ChunkRoom(mem0, mem, flashaddr, image, done, n);
      ChunkMeans(e, a, s, flashaddr + done, chunk, known);
      PagesJoin(mem0, mem, s1.m.chip.mem, flashaddr, image, done, n);
      if |image| - done > a.data_size {
        StepStaysAligned(flashaddr + done, done, n);
      }
      ChunksSound(e, a, s1, flashaddr, image, done + n, mem0, RAN, end);
    }
  }

  lemma ChunkRoom(mem0: seq<byte>, mem: seq<byte>, start: nat, image: seq<byte>, done: nat, more: nat)
    requires PageStart(done) && done + more <= |image| && start + |Padded(image)| <= |mem0|
    requires Kept(mem0, mem, start, start + |Padded(image)|)
    ensures |image[done..done + more]| == more && |mem| == |mem0|
    ensures done + PAGE * Pages(more) <= |Padded(image)| && |Padded(image[done..done + more])| == PAGE * Pages(more)
  {
    PagesAfter(done, more);
    PagesGrow(done + more, |image|);
  }

  lemma PagesJoin(mem0: seq<byte>, mem: seq<byte>, next: seq<byte>, start: nat, image: seq<byte>, done: nat, more: nat)
    requires PageStart(done) && done + more <= |image| && start + |Padded(image)| <= |mem0|
    requires Kept(mem0, mem, start, start + |Padded(image)|) && Holds(mem, start, Padded(image[..done]))
    requires var pages := Padded(image[done..done + more]);
      && done + |pages| <= |Padded(image)|
      && Kept(mem, next, start + done, start + done + |pages|)
      && Holds(next, start + done, pages)
    ensures Kept(mem0, next, start, start + |Padded(image)|) && Holds(next, start, Padded(image[..done + more]))
  {
    hide Padded, Holds, Kept;
    var a, b := image[..done], image[done..done + more];
    PaddedWhole(a);
    PaddedTail(a, b);
    assert image[..done + more] == a + b;
    StillHolds(mem, next, start + done, start + done + |Padded(b)|, start, a);
    HoldsJoin(next, start, a, Padded(b));
    KeptInside(mem0, mem, next, start, start + |Padded(image)|, start + done, start + done + |Padded(b)|);
  }

  // A run of chunks that returns zero was able to.
  lemma {:induction false} ChunksReturned(e: Env, a: Agent, s: State, flashaddr: u32, image: seq<byte>, done: nat)
    requires Callable(a) && PageStart(|s.m.ram|) && 0 < a.data_size <= |s.m.ram| && Idle(a, s.m.regs)
    requires done <= |image| && flashaddr + |image| < TWO_32 && Chunks(e, a, s, flashaddr, image, done).1 == 0
    ensures WritesCanReturn(e.took, e.link, s.puts, s.asks, a, flashaddr + done, |image| - done)
    decreases |image| - done
  {
    hide Invoked, WriteCanReturn;
    if done < |image| {
      ChunksStep(e, a, s, flashaddr, image, done);
      var n := ChunkSize(a, |image| - done);
      var chunk := image[done..done + n];
      var s1 := Downloaded(e, s, chunk).0;
      var c := Call(a.write, flashaddr + done, a.data_addr, n);
      WriteReturned(e, a, s1, c);
      ZeroLeaves(e, a, s1, c);
      ChunksReturned(e, a, Chunk(e, a, s, flashaddr + done, chunk).0, flashaddr, image, done + n);
    }
  }

  predicate Good(a: Agent, flashaddr: u32, size: nat) {
    InBounds(a, flashaddr, size) && flashaddr % SECTOR == 0
  }

  lemma GoodRange(a: Agent, flashaddr: u32, size: nat)
    requires InBounds(a, flashaddr, size)
    ensures flashaddr + size < TWO_32 && size < TWO_32
  {
    BoundsTestExactly(a, flashaddr, size);
  }

  // The flash was erased and then the pages programmed; or the pages are all there is to it.
  lemma PagesMakeFlashed(mem0: seq<byte>, mem1: seq<byte>, mem: seq<byte>, start: nat, image: seq<byte>)
    requires Sectors(|image|) >= 0 && start + SECTOR * Sectors(|image|) <= |mem0|
    requires Kept(mem0, mem1, start, start + SECTOR * Sectors(|image|))
    requires FillsSectors(|image|) || Holds(mem1, start, Ones(SECTOR * Sectors(|image|)))
    requires Kept(mem1, mem, start, start + |Padded(image)|) && Holds(mem, start, Padded(image))
    ensures mem == Flashed(mem0, start, image)
  {
    hide Padded, Sectors, Pages, Holds, Kept, Ones;
    PagesInSectors(|image|);
    var size, pages := SECTOR * Sectors(|image|), Padded(image);
    KeptInside(mem0, mem1, mem, start, start + size, start, start + |pages|);
    if FillsSectors(|image|) {
      HoldsNothing(mem, start + |pages|);
    } else {
      OnesJoin(|pages|, size - |pages|);
      HoldsJoin(mem1, start, Ones(|pages|), Ones(size - |pages|));
      StillHolds(mem1, mem, start, start + |pages|, start + |pages|, Ones(size - |pages|));
    }
    ThreeRegions(mem0, mem, start, pages, Ones(size - |pages|));
  }

  lemma HoldsNothing(mem: seq<byte>, at: nat)
    requires at <= |mem|
    ensures Holds(mem, at, Ones(0))
  {
  }

  // A success can be believed.
  lemma FlashSound(e: Env, a: Agent, s: State, flashaddr: u32, image: seq<byte>)
    requires |image| % 4 == 0 && Suits(a, |s.m.ram|, |s.m.chip.mem|) && Good(a, flashaddr, |image|)
    requires (GoodRange(a, flashaddr, |image|);
              FlashSafe(e.took, e.link, s.puts, s.asks, a, flashaddr, |image|))
    requires Flash(e, a, s, flashaddr, image).1 == 0
    ensures flashaddr + SECTOR * Sectors(|image|) <= |s.m.chip.mem|
    ensures Flash(e, a, s, flashaddr, image).0.m.chip.mem == Flashed(s.m.chip.mem, flashaddr, image)
  {
    hide Flashed, Padded, Pages, Sectors, EraseRun, Ones, Holds, Kept, InBounds, Chunks, Invoked, Left, NeededTook,
      WritesNeeded, WritesCanReturn, EraseCanReturn, Goes, FillsSectors, Skipped;
    var mem0, size := s.m.chip.mem, SECTOR * Sectors(|image|);
    GoodRange(a, flashaddr, |image|);
    BufferSize(a, |s.m.ram|, |mem0|);
    RangeFits(a, flashaddr, |image|, |s.m.ram|, |mem0|);
    PagesInSectors(|image|);
    var c := Call(a.erase, flashaddr, |image|, 0);
    var (s1, err) := Invoked(e, a, s, c);
    EraseReturned(e, a, s, c);
    ZeroLeaves(e, a, s, c);
    ChunksReturned(e, a, s1, flashaddr, image, 0);
    var known := if Goes(e.link, s.asks) then RAN else Skipped(e.took, s.puts, a, |image|);
    KeptSame(mem0, flashaddr, flashaddr + size);
    if Goes(e.link, s.asks) {
      EraseCall(e, a, s, c);
      EraseMeans(e.fault, s.m.chip, flashaddr, Sectors(|image|));
    } else {
      EraseSkipped(e, a, s, c);
    }
    FirstPage(s1.m.chip.mem, flashaddr, image);
    ChunksSound(e, a, s1, flashaddr, image, 0, s1.m.chip.mem, known, Beyond(s.puts, |image|));
    PagesMakeFlashed(mem0, s1.m.chip.mem, Flash(e, a, s, flashaddr, image).0.m.chip.mem, flashaddr, image);
  }

  lemma FirstPage(mem: seq<byte>, start: nat, image: seq<byte>)
    requires start + |Padded(image)| <= |mem|
    ensures Holds(mem, start, Padded(image[..0])) && Kept(mem, mem, start, start + |Padded(image)|)
  {
    PaddedWhole(image[..0]);
  }

  // Nothing but the sectors changes, and nothing stands in the way.
  lemma FlashConfined(e: Env, a: Agent, s: State, flashaddr: u32, image: seq<byte>)
    requires |image| % 4 == 0 && Suits(a, |s.m.ram|, |s.m.chip.mem|) && InBounds(a, flashaddr, |image|)
    requires (GoodRange(a, flashaddr, |image|);
              FlashNeeded(e.took, s.puts, Flash(e, a, s, flashaddr, image).0.puts, a, flashaddr, |image|))
    ensures var (s', r) := Flash(e, a, s, flashaddr, image);
      var mem0, mem := s.m.chip.mem, s'.m.chip.mem;
      if flashaddr % SECTOR == 0 then
        && flashaddr + SECTOR * Sectors(|image|) <= |mem0|
        && Kept(mem0, mem, flashaddr, flashaddr + SECTOR * Sectors(|image|))
        && (r == 0 ==> mem == Flashed(mem0, flashaddr, image))
        && (Smooth(e) ==> r == 0)
      else r != 0 && mem == mem0
  {
    hide Flashed, Padded, Pages, Sectors, EraseRun, Ones, Holds, Kept, InBounds, Progress, Chunks, Invoked, Left,
      NeededTook, WritesNeeded;
    var mem0, size := s.m.chip.mem, SECTOR * Sectors(|image|);
    GoodRange(a, flashaddr, |image|);
    BufferSize(a, |s.m.ram|, |mem0|);
    var c := Call(a.erase, flashaddr, |image|, 0);
    if flashaddr % SECTOR == 0 {
      RangeFits(a, flashaddr, |image|, |s.m.ram|, |mem0|);
      KeptSame(mem0, flashaddr, flashaddr + size);
      EraseMeans(e.fault, s.m.chip, flashaddr, Sectors(|image|));
    }
    var (s1, err) := Invoked(e, a, s, c);
    EraseCall(e, a, s, c);
    if err == 0 {
      ProgressStart(mem0, s1.m.chip.mem, flashaddr, size, image);
      ChunksMean(e, a, s1, flashaddr, image, 0, mem0, RAN);
    }
  }

  /** Flashing an image into a range inside the flash that starts a sector: under FlashSafe success means that the
      flash is as Flashed says; when every call that is made has the register writes it needs, only the sectors
      the image reaches into can change, whatever else fails, and without any other failure it succeeds.  Any other
      range is refused then and changes nothing. */
  lemma FlashMeans(e: Env, a: Agent, s: State, flashaddr: u32, image: seq<byte>)
    requires |image| % 4 == 0 && Suits(a, |s.m.ram|, |s.m.chip.mem|)
    ensures var (s', r) := Flash(e, a, s, flashaddr, image);
      var mem0, mem := s.m.chip.mem, s'.m.chip.mem;
      && (r == 0 || r == -1)
      && if !InBounds(a, flashaddr, |image|) then r == -1 && s' == s
      else (
        GoodRange(a, flashaddr, |image|);
        var needed := FlashNeeded(e.took, s.puts, s'.puts, a, flashaddr, |image|);
        if flashaddr % SECTOR == 0 then
          && flashaddr + SECTOR * Sectors(|image|) <= |mem0|
          && (FlashSafe(e.took, e.link, s.puts, s.asks, a, flashaddr, |image|) && r == 0 ==>
                mem == Flashed(mem0, flashaddr, image))
          && (needed ==> Kept(mem0, mem, flashaddr, flashaddr + SECTOR * Sectors(|image|)))
          && (needed && Smooth(e) ==> r == 0)
        else needed ==> r != 0 && mem == mem0)
  {
    hide Flashed, Sectors, Kept, InBounds, Flash, FlashNeeded, FlashSafe, Smooth;
    FlashReturns(e, a, s, flashaddr, image);
    if InBounds(a, flashaddr, |image|) {
      GoodRange(a, flashaddr, |image|);
      var (s', r) := Flash(e, a, s, flashaddr, image);
      if flashaddr % SECTOR == 0 {
        RangeFits(a, flashaddr, |image|, |s.m.ram|, |s.m.chip.mem|);
        if FlashSafe(e.took, e.link, s.puts, s.asks, a, flashaddr, |image|) && r == 0 {
          FlashSound(e, a, s, flashaddr, image);
        }
      }
      if FlashNeeded(e.took, s.puts, s'.puts, a, flashaddr, |image|) {
        FlashConfined(e, a, s, flashaddr, image);
      }
    } else {
      OutOfBounds(e, a, s, flashaddr, image);
    }
  }

  lemma FlashReturns(e: Env, a: Agent, s: State, flashaddr: u32, image: seq<byte>)
    requires Suits(a, |s.m.ram|, |s.m.chip.mem|)
    ensures var r := Flash(e, a, s, flashaddr, image).1; r == 0 || r == -1
  {
    hide Invoked, Chunks;
    if InBounds(a, flashaddr, |image|) {
      GoodRange(a, flashaddr, |image|);
      BufferSize(a, |s.m.ram|, |s.m.chip.mem|);
      ChunksReturn(e, a, Invoked(e, a, s, Call(a.erase, flashaddr, |image|, 0)).0, flashaddr, image, 0);
    }
  }

  lemma {:induction false} ChunksReturn(e: Env, a: Agent, s: State, flashaddr: u32, image: seq<byte>, done: nat)
    requires Callable(a) && PageStart(|s.m.ram|) && 0 < a.data_size <= |s.m.ram|
    requires done <= |image| && flashaddr + |image| < TWO_32
    ensures var r := Chunks(e, a, s, flashaddr, image, done).1; r == 0 || r == -1
    decreases |image| - done
  {
    hide Chunk;
    if done < |image| {
      ChunksStep(e, a, s, flashaddr, image, done);
      var n := ChunkSize(a, |image| - done);
      ChunksReturn(e, a, Chunk(e, a, s, flashaddr + done, image[done..done + n]).0, flashaddr, image, done + n);
    }
  }

  lemma OutOfBounds(e: Env, a: Agent, s: State, flashaddr: u32, image: seq<byte>)
    requires Suits(a, |s.m.ram|, |s.m.chip.mem|) && !InBounds(a, flashaddr, |image|)
    ensures Flash(e, a, s, flashaddr, image) == (s, -1)
  {
  }

  /** The erase command, where address 0 and a size of all ones stand for the whole flash: the same, with every
      sector blank that the range reaches into. */
  lemma EraseCommandMeans(e: Env, a: Agent, s: State, flashaddr: u32, length: u32)
    requires Suits(a, |s.m.ram|, |s.m.chip.mem|)
    ensures var (s', r) := EraseCommand(e, a, s, flashaddr, length);
      var (start, size) := EraseRange(a, flashaddr, length);
      var mem0, mem, c := s.m.chip.mem, s'.m.chip.mem, Call(a.erase, start, size, 0);
      var needed := NeededTook(e.took, s.puts, a, c);
      && (r == 0 || r == -1)
      && if !InBounds(a, start, size) then r == -1 && s' == s
      else if start % SECTOR == 0 then
        && start + SECTOR * Sectors(size) <= |mem0|
        && (Secure(e.took, e.link, s.puts, s.asks, a, c) && r == 0 ==> mem == Erased(mem0, start, size))
        && (needed ==> Kept(mem0, mem, start, start + SECTOR * Sectors(size)))
        && (needed && Smooth(e) ==> r == 0)
      else needed ==> r != 0 && mem == mem0
  {
    hide Sectors, EraseRun, Ones, Kept, Holds, InBounds, Invoked, Secure, NeededTook, Erased;
    var mem0 := s.m.chip.mem;
    var (start, size) := EraseRange(a, flashaddr, length);
    var c := Call(a.erase, start, size, 0);
    if InBounds(a, start, size) {
      BufferSize(a, |s.m.ram|, |mem0|);
      if start % SECTOR == 0 {
        RangeFits(a, start, size, |s.m.ram|, |mem0|);
        KeptSame(mem0, start, start + SECTOR * Sectors(size));
        EraseMeans(e.fault, s.m.chip, start, Sectors(size));
        if Secure(e.took, e.link, s.puts, s.asks, a, c) && Invoked(e, a, s, c).1 == 0 {
          SecureSuffices(e, a, s, c);
          EnteredErase(e, a, s, c);
          ErasedIs(mem0, Invoked(e, a, s, c).0.m.chip.mem, start, size);
        }
      }
      if NeededTook(e.took, s.puts, a, c) {
        EraseCall(e, a, s, c);
      }
    }
  }

  /** Address 0 with a size of all ones erases the whole flash, unless it ends at the top of the address space. */
  lemma EraseAllMeans(e: Env, a: Agent, s: State)
    requires Suits(a, |s.m.ram|, |s.m.chip.mem|)
    ensures var (s', r) := EraseCommand(e, a, s, 0, 0xFFFF_FFFF);
      var mem0, mem, c := s.m.chip.mem, s'.m.chip.mem, Call(a.erase, a.flash_addr, a.flash_size, 0);
      var needed := NeededTook(e.took, s.puts, a, c);
      if a.flash_addr + a.flash_size >= TWO_32 then r != 0 && s' == s
      else
        && (Secure(e.took, e.link, s.puts, s.asks, a, c) && r == 0 ==>
              && Holds(mem, a.flash_addr, Ones(a.flash_size))
              && Kept(mem0, mem, a.flash_addr, a.flash_addr + a.flash_size))
        && (needed ==> Kept(mem0, mem, a.flash_addr, a.flash_addr + a.flash_size))
        && (needed && Smooth(e) ==> r == 0)
  {
    hide EraseCommand, InBounds, NeededTook, Secure, Smooth, Sectors, Ones, Kept, Holds;
    BoundsTestExactly(a, a.flash_addr, a.flash_size);
    EraseCommandMeans(e, a, s, 0, 0xFFFF_FFFF);
    WholeSectors(a.flash_size);
    if a.flash_addr + a.flash_size < TWO_32 {
      ErasedHolds(s.m.chip.mem, a.flash_addr, a.flash_size);
    }
  }

  lemma WholeSectors(n: nat)
    requires n % SECTOR == 0
    ensures SECTOR * Sectors(n) == n
  {
  }

  lemma ErasedHolds(mem: seq<byte>, start: nat, length: nat)
    requires Sectors(length) >= 0 && start + SECTOR * Sectors(length) <= |mem|
    ensures var m := Erased(mem, start, length);
      Holds(m, start, Ones(SECTOR * Sectors(length))) && Kept(mem, m, start, start + SECTOR * Sectors(length))
  {
  }

  /** Any other pair erases the range it gives. */
  lemma EraseGivenMeans(e: Env, a: Agent, s: State, flashaddr: u32, length: u32)
    requires Suits(a, |s.m.ram|, |s.m.chip.mem|) && (flashaddr != 0 || length != 0xFFFF_FFFF)
    ensures var (s', r) := EraseCommand(e, a, s, flashaddr, length);
      var mem0, mem, c := s.m.chip.mem, s'.m.chip.mem, Call(a.erase, flashaddr, length, 0);
      var needed, size := NeededTook(e.took, s.puts, a, c), SECTOR * Sectors(length);
      if !InBounds(a, flashaddr, length) then r != 0 && s' == s
      else if flashaddr % SECTOR == 0 then
        && 0 <= size
        && (Secure(e.took, e.link, s.puts, s.asks, a, c) && r == 0 ==>
              Holds(mem, flashaddr, Ones(size)) && Kept(mem0, mem, flashaddr, flashaddr + size))
        && (needed ==> Kept(mem0, mem, flashaddr, flashaddr + size))
        && (needed && Smooth(e) ==> r == 0)
      else needed ==> r != 0 && mem == mem0
  {
    hide EraseCommand, InBounds, NeededTook, Secure, Smooth, Sectors, Ones, Kept, Holds;
    EraseCommandMeans(e, a, s, flashaddr, length);
    if InBounds(a, flashaddr, length) && flashaddr % SECTOR == 0 {
      SectorsOf(length);
      ErasedHolds(s.m.chip.mem, flashaddr, length);
    }
  }

  // ----- the code -----

  // swdp_ahb_write32 into the agent's buffer.
  method Download(core: Core, bytes: seq<byte>) returns (err: int)
    requires |bytes| <= core.target.ram.Length
    modifies core`asks, core.target.ram
    ensures (core.Now(), err) == Downloaded(core.env, old(core.Now()), bytes)
  {
    var fate := core.env.link(core.asks);
    core.asks := core.asks + 1;
    if fate != RequestLost {
      forall i | 0 <= i < |bytes| {
        core.target.ram[i] := bytes[i];
      }
      assert core.target.ram[..] == bytes + old(core.target.ram[..])[|bytes|..];
    }
    return if fate == Delivered then 0 else -1;
  }

  // The chunk loop.
  method FlashChunks(core: Core, flashaddr: u32, image: seq<byte>) returns (r: int)
    requires core.Valid() && 0 < core.agent.data_size <= core.target.ram.Length && flashaddr + |image| < TWO_32
    modifies core`regs, core`puts, core`asks, core.target`chip, core.target.ram
    ensures (core.Now(), r) == Chunks(core.env, core.agent, old(core.Now()), flashaddr, image, 0)
  {
    hide Invoked, Downloaded;
    var ptr, left, at: int := 0, |image|, flashaddr;
    while left > 0
      invariant 0 <= left && ptr + left == |image| && at == flashaddr + ptr
      invariant Chunks(core.env, core.agent, core.Now(), flashaddr, image, ptr)
             == Chunks(core.env, core.agent, old(core.Now()), flashaddr, image, 0)
    {
      var xfer := if left > core.agent.data_size then core.agent.data_size else left;
      var err := Download(core, image[ptr..ptr + xfer]);
      if err != 0 {
        return -1;
      }
      err := core.Invoke(core.agent.write, at, core.agent.data_addr, xfer);
      if err != 0 {
        return -1;
      }
      ptr := ptr + xfer;
      left := left - xfer;
      at := at + xfer;
    }
    return 0;
  }

  /** run_flash_agent with data. */
  method RunFlashAgent(core: Core, prepared: bool, flashaddr: u32, image: seq<byte>) returns (r: int)
    requires core.Valid() && Suits(core.agent, core.target.ram.Length, |core.target.chip.mem|)
    modifies core`regs, core`puts, core`asks, core.target`chip, core.target.ram
    ensures (core.Now(), r)
         == if prepared then Flash(core.env, core.agent, old(core.Now()), flashaddr, image) else (old(core.Now()), -1)
  {
    hide Invoked, InBounds, Chunks;
    if !prepared || !InBounds(core.agent, flashaddr, |image|) {
      return -1;
    }
    BoundsTestExactly(core.agent, flashaddr, |image|);
    BufferSize(core.agent, core.target.ram.Length, |core.target.chip.mem|);
    var err := core.Invoke(core.agent.erase, flashaddr, |image|, 0);
    if err != 0 {
      return -1;
    }
    r := FlashChunks(core, flashaddr, image);
  }

  /** run_flash_agent without data. */
  method RunErase(core: Core, prepared: bool, flashaddr: u32, length: u32) returns (r: int)
    requires core.Valid() && Suits(core.agent, core.target.ram.Length, |core.target.chip.mem|)
    modifies core`regs, core`puts, core`asks, core.target`chip, core.target.ram
    ensures (core.Now(), r)
         == if prepared then EraseCommand(core.env, core.agent, old(core.Now()), flashaddr, length)
            else (old(core.Now()), -1)
  {
    hide Invoked, InBounds;
    var start, size := flashaddr, length;
    if flashaddr == 0 && length == 0xFFFF_FFFF {
      start := core.agent.flash_addr;
      size := core.agent.flash_size;
    }
    if !prepared || !InBounds(core.agent, start, size) {
      return -1;
    }
    BufferSize(core.agent, core.target.ram.Length, |core.target.chip.mem|);
    var err := core.Invoke(core.agent.erase, start, size, 0);
    return if err != 0 then -1 else 0;
  }

  function WordLength(n: nat): (m: nat)
    ensures n <= m < n + 4 && m % 4 == 0
  {
    n + (4 - n % 4) % 4
  }

  // The file with what lies behind it in the host's buffer, up to a whole number of words.
  function WordAligned(file: seq<byte>, slack: seq<byte>): (image: seq<byte>)
    requires |slack| == 4
    ensures file <= image && |image| == WordLength(|file|)
  {
    file + slack[..(4 - |file| % 4) % 4]
  }

  lemma NoFurtherSector(n: nat, m: nat)
    requires n <= m < n + 4 && m % 4 == 0
    ensures Sectors(m) == Sectors(n)
  {
    hide Sectors;
    SectorsOf(n);
    SectorsOf(m);
    SectorInWords(Sectors(n));
    WordsFit(SECTOR * Sectors(n), n, m);
  }

  lemma SectorInWords(k: int)
    ensures SECTOR * k % 4 == 0
  {
  }

  lemma WordsFit(room: int, n: nat, m: nat)
    requires room % 4 == 0 && n <= m < n + 4 && m % 4 == 0
    ensures n <= room <==> m <= room
  {
  }

  // Rounding up to words reaches no further sector.
  lemma RoundedUp(a: Agent, flashaddr: u32, n: nat)
    requires a.flash_addr % SECTOR == 0 && a.flash_size % SECTOR == 0
    ensures Sectors(WordLength(n)) == Sectors(n) && (Good(a, flashaddr, WordLength(n)) <==> Good(a, flashaddr, n))
  {
    hide InBounds, Sectors, WordLength;
    var m := WordLength(n);
    NoFurtherSector(n, m);
    BoundsTestExactly(a, flashaddr, n);
    BoundsTestExactly(a, flashaddr, m);
    if flashaddr % SECTOR == 0 {
      RoomInWords(flashaddr, a.flash_addr, a.flash_size);
      WordsFit(a.flash_addr + a.flash_size - flashaddr, n, m);
    }
  }

  lemma RoomInWords(start: int, flash: int, size: int)
    requires start % SECTOR == 0 && flash % SECTOR == 0 && size % SECTOR == 0
    ensures (flash + size - start) % 4 == 0
  {
  }

  /** The flash command: the file is rounded up to words with whatever lies behind it in the host's buffer.  For a
      range inside the flash that starts a sector, under FlashSafe success means that the file is in the flash; when
      every call that is made has the register writes it needs, only the sectors it reaches into can change, and
      without any other failure it succeeds.  Any other range is refused then and changes nothing. */
  method DoFlash(core: Core, prepared: bool, flashaddr: u32, file: seq<byte>, slack: seq<byte>) returns (r: int)
    requires |slack| == 4
    requires core.Valid() && Suits(core.agent, core.target.ram.Length, |core.target.chip.mem|)
    modifies core`regs, core`puts, core`asks, core.target`chip, core.target.ram
    ensures (
      var a, took, size := core.agent, core.env.took, WordLength(|file|);
      var mem0, mem := old(core.target.chip.mem), core.target.chip.mem;
      if !InBounds(a, flashaddr, size) then r != 0 && mem == mem0
      else (
        GoodRange(a, flashaddr, size);
        var needed := FlashNeeded(took, old(core.puts), core.puts, a, flashaddr, size);
        if Good(a, flashaddr, |file|) then
          && Sectors(|file|) >= 0
          && (FlashSafe(took, core.env.link, old(core.puts), old(core.asks), a, flashaddr, size) && r == 0 ==>
                Holds(mem, flashaddr, file))
          && (needed ==> Kept(mem0, mem, flashaddr, flashaddr + SECTOR * Sectors(|file|)))
          && (prepared && needed && Smooth(core.env) ==> r == 0)
        else needed ==> r != 0 && mem == mem0))
    ensures Good(core.agent, flashaddr, |file|) ==> InBounds(core.agent, flashaddr, WordLength(|file|))
  {
    hide Flashed, Padded, Pages, Sectors, Ones, Kept, Flash, InBounds, WordAligned, WordLength, SECTOR, FlashNeeded,
      FlashSafe, Smooth;
    var image := WordAligned(file, slack);
    r := RunFlashAgent(core, prepared, flashaddr, image);
    ghost var agent, s, mem0 := core.agent, old(core.Now()), old(core.target.chip.mem);
    SectorsOf(|file|);
    RoundedUp(agent, flashaddr, |file|);
    KeptSame(mem0, flashaddr, flashaddr + SECTOR * Sectors(|file|));
    if prepared {
      FlashMeans(core.env, agent, s, flashaddr, image);
    }
    if Good(agent, flashaddr, |file|) && r == 0 && core.target.chip.mem == Flashed(mem0, flashaddr, image) {
      FlashedReadsBack(mem0, flashaddr, image);
      PagesInSectors(|image|);
      FrontHeld(core.target.chip.mem, flashaddr, file, image);
    }
  }

  lemma FrontHeld(mem: seq<byte>, at: nat, file: seq<byte>, image: seq<byte>)
    requires file <= image && at + |image| <= |mem| && mem[at..at + |image|] == image
    ensures Holds(mem, at, file)
  {
    assert mem[at..at + |file|] == mem[at..at + |image|][..|file|];
  }
}
