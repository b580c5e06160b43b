/** The flash agent of agents/lpc43xx-spifi.c, which runs on the target: sector erase and page program, each read
    back and compared. */
module SpifiAgent {
  import opened Words
  import opened NorFlash

  const ERR_NONE: int := 0
  const ERR_FAIL: int := -1
  const ERR_ALIGNMENT: int := -3

  // Sectors and pages that n bytes reach into.
  function Sectors(n: int): int {
    (n + SECTOR - 1) / SECTOR
  }

  function Pages(n: int): int {
    (n + PAGE - 1) / PAGE
  }

  lemma SectorsOf(n: int)
    requires n >= 0
    ensures n <= SECTOR * Sectors(n) < n + SECTOR && Sectors(n) >= 0
    ensures n == 0 ==> Sectors(n) == 0
    ensures 0 < n <= SECTOR ==> Sectors(n) == 1
    ensures n >= SECTOR ==> Sectors(n - SECTOR) == Sectors(n) - 1
  {
  }

  lemma SectorsStartPages(at: int)
    ensures at % SECTOR == 0 ==> PageStart(at)
  {
  }

  lemma PagesOf(n: int)
    requires n >= 0
    ensures n <= PAGE * Pages(n) < n + PAGE && Pages(n) >= 0 && PAGE * Pages(n) % PAGE == 0
    ensures n % PAGE == 0 ==> PAGE * Pages(n) == n
  {
  }

  // ----- erasing -----

  // The sectors from at on, up to the first that does not come back blank.
  function EraseRun(f: Faults, c: Nor, at: nat, sectors: nat): (Nor, int)
    requires at % SECTOR == 0 && at + SECTOR * sectors <= |c.mem|
    decreases sectors
  {
    if sectors == 0 then (c, ERR_NONE)
    else
      var d := EraseSector(f, c, at);
      if d.mem[at..at + SECTOR] != Ones(SECTOR) then (d, ERR_FAIL)
      else EraseRun(f, d, at + SECTOR, sectors - 1)
  }

  lemma OnesJoin(a: nat, b: nat)
    ensures Ones(a) + Ones(b) == Ones(a + b)
  {
  }

  /** Success means blank, whatever the chip did; nothing outside the sectors is touched in any case; and a chip
      that works is erased. */
  lemma {:induction false} EraseMeans(f: Faults, c: Nor, at: nat, sectors: nat)
    requires at % SECTOR == 0 && at + SECTOR * sectors <= |c.mem|
    ensures var (d, err) := EraseRun(f, c, at, sectors);
      && Kept(c.mem, d.mem, at, at + SECTOR * sectors)
      && (err == ERR_NONE || err == ERR_FAIL)
      && (err == ERR_NONE ==> Holds(d.mem, at, Ones(SECTOR * sectors)))
      && (NoFaults(f) ==> err == ERR_NONE)
    decreases sectors
  {
    hide Ones, Holds, Kept, EraseSector;
    if sectors == 0 {
      NothingErased(c, at);
    } else {
      var d := EraseSector(f, c, at);
      SectorBlank(f, c, at);
      if Holds(d.mem, at, Ones(SECTOR)) {
        EraseMeans(f, d, at + SECTOR, sectors - 1);
        var (e, err) := EraseRun(f, d, at + SECTOR, sectors - 1);
        KeptJoin(c.mem, d.mem, e.mem, at, at + SECTOR, at + SECTOR * sectors);
        if err == ERR_NONE {
          OnlyAfter(d, e, at, sectors);
        }
      } else {
        KeptWider(c.mem, d.mem, at, at + SECTOR, at + SECTOR * sectors);
      }
    }
  }

  lemma NothingErased(c: Nor, at: nat)
    requires at <= |c.mem|
    ensures Kept(c.mem, c.mem, at, at) && Holds(c.mem, at, Ones(0))
  {
  }

  lemma SectorBlank(f: Faults, c: Nor, at: nat)
    requires at % SECTOR == 0 && at + SECTOR <= |c.mem|
    ensures var d := EraseSector(f, c, at);
      && |d.mem| == |c.mem| && Kept(c.mem, d.mem, at, at + SECTOR)
      && (Holds(d.mem, at, Ones(SECTOR)) <==> d.mem[at..at + SECTOR] == Ones(SECTOR))
      && (NoFaults(f) ==> Holds(d.mem, at, Ones(SECTOR)))
  {
  }

  lemma OnlyAfter(d: Nor, e: Nor, at: nat, sectors: nat)
    requires sectors > 0 && Kept(d.mem, e.mem, at + SECTOR, at + SECTOR * sectors)
    requires Holds(d.mem, at, Ones(SECTOR)) && Holds(e.mem, at + SECTOR, Ones(SECTOR * (sectors - 1)))
    ensures Holds(e.mem, at, Ones(SECTOR * sectors))
  {
    StillHolds(d.mem, e.mem, at + SECTOR, at + SECTOR * sectors, at, Ones(SECTOR));
    OnesJoin(SECTOR, SECTOR * (sectors - 1));
    HoldsJoin(e.mem, at, Ones(SECTOR), Ones(SECTOR * (sectors - 1)));
  }

  // ----- programming -----

  function Zeros(n: nat): (s: seq<byte>)
    ensures |s| == n && forall i :: 0 <= i < n ==> s[i] == 0
  {
    seq(n, i => 0)
  }

  // The last page is filled up with zeros.
  function Padded(data: seq<byte>): (p: seq<byte>)
    ensures |p| == PAGE * Pages(|data|) && PageStart(|p|) && data <= p
    ensures forall i :: |data| <= i < |p| ==> p[i] == 0
  {
    PagesOf(|data|);
    data + Zeros(PAGE * Pages(|data|) - |data|)
  }

  // The agent's buffer once its last page is filled up.
  function PaddedBuffer(ram: seq<byte>, n: nat): (r: seq<byte>)
    requires n <= |ram| && PageStart(|ram|)
    ensures |r| == |ram|
  {
    PagesFit(|ram|, n);
    Padded(ram[..n]) + ram[PAGE * Pages(n)..]
  }

  lemma PagesFit(size: nat, n: nat)
    requires n <= size && PageStart(size)
    ensures n <= PAGE * Pages(n) <= size
  {
    PagesOf(n);
    PagesOf(size);
  }

  // Whole pages, up to the first that does not come back as it was sent.
  function WriteRun(f: Faults, c: Nor, at: nat, pages: seq<byte>): (Nor, int)
    requires PageStart(at) && PageStart(|pages|) && at + |pages| <= |c.mem|
    decreases |pages|
  {
    if pages == [] then (c, ERR_NONE)
    else
      var d := ProgramPage(f, c, at, pages[..PAGE]);
      if d.mem[at..at + PAGE] != pages[..PAGE] then (d, ERR_FAIL)
      else WriteRun(f, d, at + PAGE, pages[PAGE..])
  }

  lemma WriteStep(f: Faults, c: Nor, at: nat, pages: seq<byte>)
    requires PageStart(at) && PageStart(|pages|) && at + |pages| <= |c.mem|
    ensures pages == [] ==> WriteRun(f, c, at, pages) == (c, ERR_NONE)
    ensures pages != [] ==> |pages| >= PAGE && PageStart(|pages[PAGE..]|) && PageStart(at + PAGE)
    ensures pages != [] ==>
      var d := ProgramPage(f, c, at, pages[..PAGE]);
      && |d.mem| == |c.mem|
      && (d.mem[at..at + PAGE] != pages[..PAGE] ==> WriteRun(f, c, at, pages) == (d, ERR_FAIL))
      && (d.mem[at..at + PAGE] == pages[..PAGE] ==>
            WriteRun(f, c, at, pages) == WriteRun(f, d, at + PAGE, pages[PAGE..]))
  {
  }

  /** Success means the pages are there, whatever the chip did before; nothing outside them is touched in any case;
      and a chip that works takes any pages where it was blank. */
  lemma {:induction false} WriteMeans(f: Faults, c: Nor, at: nat, pages: seq<byte>)
    requires PageStart(at) && PageStart(|pages|) && at + |pages| <= |c.mem|
    ensures var (d, err) := WriteRun(f, c, at, pages);
      && Kept(c.mem, d.mem, at, at + |pages|)
      && (err == ERR_NONE || err == ERR_FAIL)
      && (err == ERR_NONE ==> Holds(d.mem, at, pages))
      && (NoFaults(f) && Holds(c.mem, at, Ones(|pages|)) ==> err == ERR_NONE)
    decreases |pages|
  {
    hide Ones, Holds, Kept, ProgramPage, PageStart, WriteRun;
    WriteStep(f, c, at, pages);
    if pages == [] {
      NothingWritten(c, at);
    } else {
      var page, rest := pages[..PAGE], pages[PAGE..];
      var d := ProgramPage(f, c, at, page);
      assert pages == page + rest;
      NextPageStart(at);
      PageWritten(f, c, at, page);
      BlankFirst(c, d, at, |rest|);
      if d.mem[at..at + PAGE] == page {
        WriteMeans(f, d, at + PAGE, rest);
        var (e, err) := WriteRun(f, d, at + PAGE, rest);
        KeptJoin(c.mem, d.mem, e.mem, at, at + PAGE, at + |pages|);
        StillHolds(d.mem, e.mem, at + PAGE, at + |pages|, at, page);
        HoldsJoin(e.mem, at, page, rest);
      } else {
        KeptWider(c.mem, d.mem, at, at + PAGE, at + |pages|);
      }
    }
  }

  lemma NothingWritten(c: Nor, at: nat)
    requires at <= |c.mem|
    ensures Kept(c.mem, c.mem, at, at) && Holds(c.mem, at, [])
  {
  }

  lemma PageWritten(f: Faults, c: Nor, at: nat, page: seq<byte>)
    requires |page| == PAGE && PageStart(at) && at + PAGE <= |c.mem|
    ensures var d := ProgramPage(f, c, at, page);
      && |d.mem| == |c.mem| && Kept(c.mem, d.mem, at, at + PAGE)
      && (Holds(d.mem, at, page) <==> d.mem[at..at + PAGE] == page)
      && (NoFaults(f) && Holds(c.mem, at, Ones(PAGE)) ==> Holds(d.mem, at, page))
  {
    if NoFaults(f) && Holds(c.mem, at, Ones(PAGE)) {
      BlankTakes(c.mem, at, page);
    }
  }

  lemma BlankFirst(c: Nor, d: Nor, at: nat, n: nat)
    requires Kept(c.mem, d.mem, at, at + PAGE)
    ensures Holds(c.mem, at, Ones(PAGE + n)) ==> Holds(c.mem, at, Ones(PAGE)) && Holds(d.mem, at + PAGE, Ones(n))
  {
    if Holds(c.mem, at, Ones(PAGE + n)) {
      OnesJoin(PAGE, n);
      HoldsJoin(c.mem, at, Ones(PAGE), Ones(n));
      StillHolds(c.mem, d.mem, at, at + PAGE, at + PAGE, Ones(n));
    }
  }

  /** Over flash that is not blank, a chip that works takes a page only where no bit has to be set again. */
  lemma OnlyClearsBits(f: Faults, c: Nor, at: nat, page: seq<byte>)
    requires PageStart(at) && |page| == PAGE && at + PAGE <= |c.mem| && NoFaults(f)
    ensures WriteRun(f, c, at, page).1 == ERR_NONE
        <==> forall i :: 0 <= i < PAGE ==> And(c.mem[at + i], page[i]) == page[i]
  {
    var d := ProgramPage(f, c, at, page);
    assert page[..PAGE] == page && page[PAGE..] == [];
    assert d.mem[at..at + PAGE] == AndAll(c.mem[at..at + PAGE], page);
    if forall i :: 0 <= i < PAGE ==> And(c.mem[at + i], page[i]) == page[i] {
      assert AndAll(c.mem[at..at + PAGE], page) == page;
    } else {
      var i :| 0 <= i < PAGE && And(c.mem[at + i], page[i]) != page[i];
      assert AndAll(c.mem[at..at + PAGE], page)[i] != page[i];
    }
  }

  class Target {
    var chip: Nor
    const fault: Faults
    const ram: array<byte>  // the agent's data buffer

    constructor (mem: seq<byte>, fault: Faults, size: nat)
      ensures chip == Nor(mem, 0) && this.fault == fault && ram.Length == size && fresh(ram)
    {
      chip, this.fault := Nor(mem, 0), fault;
      ram := new byte[size];
    }

    method SpifiSectorErase(at: nat)
      requires at % SECTOR == 0 && at + SECTOR <= |chip.mem|
      modifies `chip
      ensures chip == EraseSector(fault, old(chip), at)
    {
      chip := EraseSector(fault, chip, at);
    }

    method SpifiPageProgram(at: nat, page: seq<byte>)
      requires |page| == PAGE && PageStart(at) && at + PAGE <= |chip.mem|
      modifies `chip
      ensures chip == ProgramPage(fault, old(chip), at, page)
    {
      chip := ProgramPage(fault, chip, at, page);
    }

    method VerifyErased(at: nat, count: nat) returns (err: int)
      requires at + 4 * count <= |chip.mem|
      ensures err == if chip.mem[at..at + 4 * count] == Ones(4 * count) then 0 else -1
    {
      err := 0;
      var i := 0;
      while i < count
        invariant i <= count
        invariant err == if chip.mem[at..at + 4 * i] == Ones(4 * i) then 0 else -1
      {
        WordMore(chip.mem, at, i, Ones(4 * i + 4));
        assert Ones(4 * i + 4)[..4 * i] == Ones(4 * i) && Ones(4 * i + 4)[4 * i..] == Ones(4);
        if chip.mem[at + 4 * i..at + 4 * i + 4] != Ones(4) {
          err := -1;
        }
        i := i + 1;
      }
    }

    method VerifyPage(at: nat, x: nat) returns (err: int)
      requires at + PAGE <= |chip.mem| && x + PAGE <= ram.Length
      ensures err == if chip.mem[at..at + PAGE] == ram[x..x + PAGE] then 0 else -1
    {
      err := 0;
      var i := 0;
      while i < PAGE / 4
        invariant i <= PAGE / 4
        invariant err == if chip.mem[at..at + 4 * i] == ram[x..x + 4 * i] then 0 else -1
      {
        WordMore(chip.mem, at, i, ram[x..x + 4 * i + 4]);
        assert ram[x..x + 4 * i + 4][..4 * i] == ram[x..x + 4 * i];
        assert ram[x..x + 4 * i + 4][4 * i..] == ram[x + 4 * i..x + 4 * i + 4];
        if chip.mem[at + 4 * i..at + 4 * i + 4] != ram[x + 4 * i..x + 4 * i + 4] {
          err := -1;
        }
        i := i + 1;
      }
    }

    method FlashAgentErase(flash_addr: u32, length: u32) returns (err: int)
      requires flash_addr % SECTOR == 0 ==> flash_addr + SECTOR * Sectors(length) <= |chip.mem|
      modifies `chip
      ensures flash_addr % SECTOR != 0 ==> err == ERR_ALIGNMENT && chip == old(chip)
      ensures flash_addr % SECTOR == 0 ==> (chip, err) == EraseRun(fault, old(chip), flash_addr, Sectors(length))
    {
      hide Sectors, EraseSector, Ones;
      if flash_addr % SECTOR != 0 {
        return ERR_ALIGNMENT;
      }
      SectorsOf(length);
      var at: int, left: int := flash_addr, length;
      ghost var n := Sectors(length);
      ghost var plan := EraseRun(fault, chip, flash_addr, n);
      while left != 0
        invariant 0 <= left && n == Sectors(left) && n >= 0
        invariant at % SECTOR == 0 && 0 <= at && at + SECTOR * n <= |chip.mem|
        invariant EraseRun(fault, chip, at, n) == plan
      {
        SectorsOf(left);
        SpifiSectorErase(at);
        var bad := VerifyErased(at, SECTOR / 4);
        if bad != 0 {
          return ERR_FAIL;
        }
        n := n - 1;
        if left < SECTOR {
          return ERR_NONE;
        }
        left := left - SECTOR;
        at := at + SECTOR;
      }
      SectorsOf(0);
      return ERR_NONE;
    }

    // The zeros behind the last bytes of the data.
    method PadPage(x: nat, length: nat)
      requires length < PAGE && x + PAGE <= ram.Length
      modifies ram
      ensures ram[x..x + PAGE] == old(ram[x..x + length]) + Zeros(PAGE - length)
      ensures ram[..x + length] == old(ram[..x + length]) && ram[x + PAGE..] == old(ram[x + PAGE..])
    {
      var n := length;
      while n < PAGE
        invariant length <= n <= PAGE
        invariant ram[..x + length] == old(ram[..x + length]) && ram[x + PAGE..] == old(ram[x + PAGE..])
        invariant forall i :: x + length <= i < x + n ==> ram[i] == 0
      {
        ram[x + n] := 0;
        n := n + 1;
      }
      assert ram[x..x + length] == ram[..x + length][x..];
      assert old(ram[x..x + length]) == old(ram[..x + length])[x..];
    }

    // The next page of length bytes, filled up when it is a short one.
    method PreparePage(x: nat, left: nat)
      requires 0 < left && PageStart(x) && PageStart(ram.Length) && x + left <= ram.Length
      modifies ram
      ensures x + PAGE <= ram.Length && |Padded(old(ram[x..x + left]))| >= PAGE
      ensures ram[x..x + PAGE] == Padded(old(ram[x..x + left]))[..PAGE]
      ensures ram[..x + left] == old(ram[..x + left]) && ram[x + PAGE..] == old(ram[x + PAGE..])
      ensures left >= PAGE ==> ram[..] == old(ram[..])
    {
      hide Pages, Padded;
      PaddedPage(ram[x..x + left]);
      PageFits(ram.Length, x, left);
      if left < PAGE {
        PadPage(x, left);
      } else {
        assert ram[x..x + left][..PAGE] == ram[x..x + PAGE];
      }
    }

    method FlashAgentWrite(flash_addr: u32, length: u32) returns (err: int)
      requires PageStart(ram.Length) && length <= ram.Length
      requires flash_addr % SECTOR == 0 ==> flash_addr + PAGE * Pages(length) <= |chip.mem|
      modifies `chip, ram
      ensures ram[..length] == old(ram[..length])
      ensures flash_addr % SECTOR != 0 ==> ram[..] == old(ram[..])
      ensures flash_addr % SECTOR == 0 ==>
        ram[..]
          == if chip.ops == old(chip.ops) + Pages(length) then PaddedBuffer(old(ram[..]), length) else old(ram[..])
      ensures flash_addr % SECTOR != 0 ==> err == ERR_ALIGNMENT && chip == old(chip)
      ensures flash_addr % SECTOR == 0 ==> (
        SectorsStartPages(flash_addr);
        (chip, err) == WriteRun(fault, old(chip), flash_addr, Padded(old(ram[..length]))))
    {
      hide Pages, ProgramPage, Padded, WriteRun, Zeros, PageStart;
      SectorsStartPages(flash_addr);
      if flash_addr % SECTOR != 0 {
        return ERR_ALIGNMENT;
      }
      var at: int, left: int, x := flash_addr, length, 0;
      ghost var data := ram[..length];
      ghost var rest := Padded(data);
      ghost var plan := WriteRun(fault, chip, flash_addr, rest);
      FirstPageStart();
      while left != 0
        invariant 0 <= left && x + left == length && at == flash_addr + x && PageStart(x) && PageStart(at)
        invariant ram[..] == old(ram[..]) && rest == Padded(ram[x..x + left]) && at + |rest| <= |chip.mem|
        invariant WriteRun(fault, chip, at, rest) == plan
        invariant chip.ops + Pages(left) == old(chip.ops) + Pages(length)
      {
        PagesStep(left);
        if left > PAGE {
          PagesStep(left - PAGE);
        }
        var bad := WriteNext(at, x, left, rest);
        if left < PAGE {
          BufferPadded(old(ram[..]), ram[..], x, left);
        } else if left == PAGE {
          NextPageStart(x);
          NothingPadded(ram[..], length);
        }
        if bad != 0 {
          return ERR_FAIL;
        }
        rest := rest[PAGE..];
        NextPageStart(x);
        NextPageStart(at);
        if left < PAGE {
          return ERR_NONE;
        }
        left := left - PAGE;
        at := at + PAGE;
        x := x + PAGE;
      }
      PagesStep(0);
      PaddedPage(ram[x..x + left]);
      WriteStep(fault, chip, at, rest);
      NothingPadded(ram[..], length);
      return ERR_NONE;
    }

    // The body of the loop: the next page prepared, programmed and compared.
    method WriteNext(at: nat, x: nat, left: nat, ghost rest: seq<byte>) returns (bad: int)
      requires 0 < left && PageStart(at) && PageStart(x) && PageStart(ram.Length) && x + left <= ram.Length
      requires rest == Padded(ram[x..x + left]) && at + |rest| <= |chip.mem|
      modifies `chip, ram
      ensures ram[..x + left] == old(ram[..x + left]) && |chip.mem| == |old(chip.mem)| && chip.ops == old(chip.ops) + 1
      ensures left >= PAGE ==> ram[..] == old(ram[..])
      ensures left < PAGE ==> x + PAGE <= ram.Length
      ensures left < PAGE ==> ram[x..x + PAGE] == rest && ram[x + PAGE..] == old(ram[x + PAGE..])
      ensures |rest| >= PAGE && PageStart(|rest[PAGE..]|) && PageStart(at + PAGE)
      ensures bad != 0 ==> (chip, ERR_FAIL) == WriteRun(fault, old(chip), at, rest)
      ensures bad == 0 ==> WriteRun(fault, chip, at + PAGE, rest[PAGE..]) == WriteRun(fault, old(chip), at, rest)
      ensures bad == 0 && left < PAGE ==> WriteRun(fault, old(chip), at, rest) == (chip, ERR_NONE)
      ensures left >= PAGE ==> rest[PAGE..] == Padded(ram[x + PAGE..x + left])
    {
      hide Pages, ProgramPage, Padded, WriteRun, Zeros, PageStart;
      ghost var data := ram[x..x + left];
      PaddedPage(data);
      WriteStep(fault, chip, at, rest);
      NextPageStart(at);
      PageStartLess(|rest|);
      PreparePage(x, left);
      assert ram[x..x + left] == ram[..x + left][x..] == data;
      SpifiPageProgram(at, ram[x..x + PAGE]);
      bad := VerifyPage(at, x);
      WriteStep(fault, chip, at + PAGE, rest[PAGE..]);
      assert left >= PAGE ==> data[PAGE..] == ram[x + PAGE..x + left];
    }
  }

  // The last page filled up makes the whole buffer as it should be.
  lemma BufferPadded(was: seq<byte>, now: seq<byte>, x: nat, left: nat)
    requires 0 < left < PAGE && PageStart(x) && PageStart(|was|) && |now| == |was| && x + PAGE <= |was|
    requires now[..x + left] == was[..x + left] && now[x + PAGE..] == was[x + PAGE..]
    requires now[x..x + PAGE] == Padded(was[x..x + left])
    ensures now == PaddedBuffer(was, x + left)
  {
    PagesOf(x);
    PagesStep(left);
    PagesAfter(x, left);
    PaddedPage(was[x..x + left]);
    PagesFit(|was|, x + left);
    assert was[..x + left] == was[..x] + was[x..x + left];
    PaddedTail(was[..x], was[x..x + left]);
    assert now[..x] == now[..x + left][..x] == was[..x];
    assert now == now[..x] + now[x..x + PAGE] + now[x + PAGE..];
  }

  lemma NothingPadded(ram: seq<byte>, n: nat)
    requires n <= |ram| && PageStart(|ram|) && PageStart(n)
    ensures PaddedBuffer(ram, n) == ram
  {
    PaddedWhole(ram[..n]);
    PagesOf(n);
  }

  lemma PaddedWhole(a: seq<byte>)
    requires PageStart(|a|)
    ensures Padded(a) == a
  {
    PagesOf(|a|);
  }

  lemma PaddedTail(a: seq<byte>, b: seq<byte>)
    requires PageStart(|a|)
    ensures Padded(a + b) == a + Padded(b)
  {
    PagesAfter(|a|, |b|);
  }

  lemma PagesAfter(a: nat, b: nat)
    requires PageStart(a)
    ensures PAGE * Pages(a + b) == a + PAGE * Pages(b)
  {
  }

  lemma FirstPageStart()
    ensures PageStart(0)
  {
  }

  lemma NextPageStart(at: int)
    requires PageStart(at)
    ensures PageStart(at + PAGE)
  {
  }

  lemma PageStartLess(n: int)
    requires PageStart(n) && n >= PAGE
    ensures PageStart(n - PAGE)
  {
  }

  lemma PageFits(size: nat, x: nat, left: nat)
    requires 0 < left && PageStart(x) && PageStart(size) && x + left <= size
    ensures x + PAGE <= size
  {
  }

  // The first page of what is left to write.
  lemma PaddedPage(data: seq<byte>)
    ensures data == [] ==> Padded(data) == []
    ensures 0 < |data| < PAGE ==>
      |Padded(data)| == PAGE && Padded(data)[..PAGE] == data + Zeros(PAGE - |data|) && Padded(data)[PAGE..] == []
    ensures |data| >= PAGE ==>
      |Padded(data)| >= PAGE && Padded(data)[..PAGE] == data[..PAGE] && Padded(data)[PAGE..] == Padded(data[PAGE..])
  {
    PagesStep(|data|);
  }

  lemma PagesStep(n: int)
    requires n >= 0
    ensures n == 0 ==> Pages(n) == 0
    ensures 0 < n <= PAGE ==> Pages(n) == 1
    ensures n >= PAGE ==> Pages(n - PAGE) == Pages(n) - 1
  {
  }

  // One word more of a comparison.
  lemma WordMore(mem: seq<byte>, at: nat, i: nat, want: seq<byte>)
    requires at + 4 * i + 4 <= |mem| && |want| == 4 * i + 4
    ensures (mem[at..at + 4 * i + 4] == want)
         == (mem[at..at + 4 * i] == want[..4 * i] && mem[at + 4 * i..at + 4 * i + 4] == want[4 * i..])
  {
    var a, b := mem[at..at + 4 * i], mem[at + 4 * i..at + 4 * i + 4];
    assert mem[at..at + 4 * i + 4] == a + b;
    assert want == want[..4 * i] + want[4 * i..];
    assert (a + b)[..4 * i] == a && (a + b)[4 * i..] == b;
  }
}
