/** The flash agent of agents/stm32fxxx.c: twelve sectors of three sizes, erased one by one, and programming word by
    word. The flash controller reports an error for an operation, or none. */
module Stm32Agent {
  import opened Words

  const SECTORS: int := 12
  const ERR_NONE: int := 0
  const ERR_FAIL: int := -1
  const ERR_ALIGNMENT: int := -3

  // Where sector n starts; sector 12 is the end of the flash.
  function SectorStart(n: nat): (a: u32)
    requires n <= SECTORS
  {
    match n
    case 0 => 0x0000_0000
    case 1 => 0x0000_4000
    case 2 => 0x0000_8000
    case 3 => 0x0000_C000
    case 4 => 0x0001_0000
    case 5 => 0x0002_0000
    case 6 => 0x0004_0000
    case 7 => 0x0006_0000
    case 8 => 0x0008_0000
    case 9 => 0x000A_0000
    case 10 => 0x000C_0000
    case 11 => 0x000E_0000
    case _ => 0x0010_0000
  }

  /** Four sectors of 16 KB, one of 64 KB and seven of 128 KB, without a gap from the first address on. */
  lemma SectorSizes(n: nat)
    requires n < SECTORS
    ensures SectorStart(0) == 0 && SectorStart(SECTORS) == 1024 * 1024
    ensures SectorStart(n + 1) - SectorStart(n) == 1024 * if n < 4 then 16 else if n == 4 then 64 else 128
  {
  }

  lemma {:induction false} StartsRise(i: nat, j: nat)
    requires i < j <= SECTORS
    ensures SectorStart(i) < SectorStart(j)
    decreases j
  {
    if i < j - 1 {
      StartsRise(i, j - 1);
    }
  }

  // The sector after the last one erased for length bytes from the start of sector first; next is the first one
  // that may be it.
  function EndSector(first: nat, next: nat, length: u32): (n: nat)
    requires first < next <= SECTORS
    ensures next <= n <= SECTORS
    decreases SECTORS - next
  {
    if next == SECTORS || Sub32(SectorStart(next), SectorStart(first)) >= length then next
    else EndSector(first, next + 1, length)
  }

  // Sector n holds a byte of the range.
  predicate Meets(n: nat, addr: u32, length: u32)
    requires n < SECTORS
  {
    SectorStart(n) < addr + length && addr < SectorStart(n + 1) && length > 0
  }

  lemma {:induction false} EndSectorStops(first: nat, next: nat, length: u32)
    requires first < next <= SECTORS
    ensures var n := EndSector(first, next, length);
      && (n == SECTORS || SectorStart(n) >= SectorStart(first) + length)
      && forall k :: next <= k < n ==> SectorStart(k) < SectorStart(first) + length
    decreases SECTORS - next
  {
    StartsRise(first, next);
    if EndSector(first, next, length) != next {
      EndSectorStops(first, next + 1, length);
    }
  }

  /** The sectors erased are exactly those the range meets, unless the range is empty: then the first sector is
      erased although nothing was asked for. */
  lemma ErasesExactly(first: nat, length: u32)
    requires first < SECTORS
    ensures var end := EndSector(first, first + 1, length);
      (forall n: nat :: n < SECTORS ==> (first <= n < end <==> Meets(n, SectorStart(first), length)))
      <==> length > 0
  {
    var end := EndSector(first, first + 1, length);
    EndSectorStops(first, first + 1, length);
    if length > 0 {
      forall n: nat | n < SECTORS
        ensures first <= n < end <==> Meets(n, SectorStart(first), length)
      {
        SectorMeets(first, end, length, n);
      }
    } else {
      assert !Meets(first, SectorStart(first), length);
    }
  }

  lemma SectorMeets(first: nat, end: nat, length: u32, n: nat)
    requires first < SECTORS && n < SECTORS && length > 0 && first < end <= SECTORS
    requires end == SECTORS || SectorStart(end) >= SectorStart(first) + length
    requires forall k :: first + 1 <= k < end ==> SectorStart(k) < SectorStart(first) + length
    ensures first <= n < end <==> Meets(n, SectorStart(first), length)
  {
    hide SectorStart;
    if n < first {
      StartNotBelow(n + 1, first);
    } else {
      StartNotBelow(first + 1, n + 1);
      StartsRise(first, first + 1);
      if n >= end {
        StartNotBelow(end, n);
      }
    }
  }

  lemma StartNotBelow(i: nat, j: nat)
    requires i <= j <= SECTORS
    ensures SectorStart(i) <= SectorStart(j)
  {
    if i < j {
      StartsRise(i, j);
    }
  }

  /** What is erased covers the range up to the end of the flash, and one sector less would not. */
  lemma CoversMinimally(first: nat, length: u32)
    requires first < SECTORS && length > 0
    ensures var end, top := EndSector(first, first + 1, length), SectorStart(first) + length;
      && SectorStart(end) >= (if top <= SectorStart(SECTORS) then top else SectorStart(SECTORS))
      && SectorStart(end - 1) < (if top <= SectorStart(SECTORS) then top else SectorStart(SECTORS))
  {
    hide SectorStart;
    var end := EndSector(first, first + 1, length);
    EndSectorStops(first, first + 1, length);
    StartsRise(end - 1, SECTORS);
  }

  // The sectors from n on, up to end or to the first one the controller reports an error for.
  function SectorRun(failed: nat -> bool, op: nat, n: nat, end: nat): (seq<nat>, int)
    requires n < end
    decreases end - n
  {
    if failed(op) then ([n], ERR_FAIL)
    else if n + 1 == end then ([n], ERR_NONE)
    else var (rest, err) := SectorRun(failed, op + 1, n + 1, end); ([n] + rest, err)
  }

  /** Consecutive sectors, up to the first for which the operation fails, and all of them just when none does. */
  lemma {:induction false} SectorRunMeans(failed: nat -> bool, op: nat, n: nat, end: nat)
    requires n < end
    ensures var (run, err) := SectorRun(failed, op, n, end);
      && 1 <= |run| <= end - n
      && (forall i :: 0 <= i < |run| ==> run[i] == n + i)
      && (err == ERR_NONE <==> forall i :: op <= i < op + (end - n) ==> !failed(i))
      && (err == ERR_NONE ==> |run| == end - n)
      && (err == ERR_NONE || err == ERR_FAIL)
      && (forall i :: op <= i < op + |run| - 1 ==> !failed(i))
      && (err == ERR_FAIL ==> failed(op + |run| - 1))
    decreases end - n
  {
    if !failed(op) && n + 1 < end {
      SectorRunMeans(failed, op + 1, n + 1, end);
    }
  }

  // The words programmed, up to the first the controller reports an error for.
  function WordRun(failed: nat -> bool, op: nat, addr: u32, words: seq<u32>): (seq<(u32, u32)>, int)
    decreases |words|
  {
    if words == [] then ([], ERR_NONE)
    else if failed(op) then ([(addr, words[0])], ERR_FAIL)
    else var (rest, err) := WordRun(failed, op + 1, Add32(addr, 4), words[1..]); ([(addr, words[0])] + rest, err)
  }

  /** The words go to consecutive addresses in order, up to the first whose operation fails, and all of them just when
      none does. */
  lemma {:induction false} WordRunMeans(failed: nat -> bool, op: nat, addr: u32, words: seq<u32>)
    ensures var (run, err) := WordRun(failed, op, addr, words);
      && |run| <= |words|
      && (forall i :: 0 <= i < |run| ==> run[i] == (Add32(addr, 4 * i), words[i]))
      && (err == ERR_NONE <==> forall i :: op <= i < op + |words| ==> !failed(i))
      && (err == ERR_NONE ==> |run| == |words|)
      && (err == ERR_NONE || err == ERR_FAIL)
      && (forall i :: op <= i < op + |run| - 1 ==> !failed(i))
      && (err == ERR_FAIL ==> run != [] && failed(op + |run| - 1))
    decreases |words|
  {
    if words != [] && !failed(op) {
      WordRunMeans(failed, op + 1, Add32(addr, 4), words[1..]);
      var (rest, err) := WordRun(failed, op + 1, Add32(addr, 4), words[1..]);
      var (run, e) := WordRun(failed, op, addr, words);
      assert run == [(addr, words[0])] + rest && e == err;
      forall i | 0 <= i < |run|
        ensures run[i] == (Add32(addr, 4 * i), words[i])
      {
        if i > 0 {
          Add32Twice(addr, 4, 4 * (i - 1));
          assert run[i] == rest[i - 1];
        }
      }
    }
  }

  class Controller {
    const failed: nat -> bool  // what the status register says of the k-th operation
    var ops: nat
    var erased: seq<nat>
    var written: seq<(u32, u32)>

    constructor (failed: nat -> bool)
      ensures this.failed == failed && ops == 0 && erased == [] && written == []
    {
      this.failed, ops, erased, written := failed, 0, [], [];
    }

    method EraseSector(n: nat) returns (bad: bool)
      modifies `ops, `erased
      ensures bad == failed(old(ops)) && ops == old(ops) + 1 && erased == old(erased) + [n]
    {
      erased := erased + [n];
      bad := failed(ops);
      ops := ops + 1;
    }

    method ProgramWord(addr: u32, w: u32) returns (bad: bool)
      modifies `ops, `written
      ensures bad == failed(old(ops)) && ops == old(ops) + 1 && written == old(written) + [(addr, w)]
    {
      written := written + [(addr, w)];
      bad := failed(ops);
      ops := ops + 1;
    }

    method FlashAgentErase(flash_addr: u32, length: u32) returns (err: int)
      modifies `ops, `erased
      ensures (forall n: nat :: n < SECTORS ==> SectorStart(n) != flash_addr) ==>
        err == ERR_ALIGNMENT && erased == old(erased)
      ensures forall n: nat :: n < SECTORS && SectorStart(n) == flash_addr ==>
        var (run, e) := SectorRun(failed, old(ops), n, EndSector(n, n + 1, length));
        erased == old(erased) + run && err == e && ops == old(ops) + |run|
    {
      hide SectorStart, SectorRun;
      var n := 0;
      while n < SECTORS && flash_addr != SectorStart(n)
        invariant n <= SECTORS && forall k: nat :: k < n ==> SectorStart(k) != flash_addr
      {
        n := n + 1;
      }
      if n == SECTORS {
        return ERR_ALIGNMENT;
      }
      ghost var first := n;
      OnlyOneStart(first);
      ghost var end := EndSector(first, first + 1, length);
      ghost var plan := SectorRun(failed, ops, first, end);
      while true
        invariant first <= n < end && end == EndSector(first, n + 1, length)
        invariant var (rest, e) := SectorRun(failed, ops, n, end);
          old(erased) + plan.0 == erased + rest && plan.1 == e && old(ops) + |plan.0| == ops + |rest|
        decreases SECTORS - n
      {
        SectorRunStep(failed, ops, n, end);
        ghost var was := erased;
        ghost var rest := SectorRun(failed, ops, n, end).0;
        var bad := EraseSector(n);
        if bad {
          return ERR_FAIL;
        }
        n := n + 1;
        if n == SECTORS {
          break;
        }
        if Sub32(SectorStart(n), flash_addr) >= length {
          break;
        }
        assert was + ([n - 1] + SectorRun(failed, ops, n, end).0) == erased + SectorRun(failed, ops, n, end).0;
      }
      return ERR_NONE;
    }

    method FlashAgentWrite(flash_addr: u32, data: seq<u32>, length: u32) returns (err: int)
      requires length <= 4 * |data|
      modifies `ops, `written
      ensures flash_addr % 4 != 0 || length % 4 != 0 ==> err == ERR_ALIGNMENT && written == old(written)
      ensures flash_addr % 4 == 0 && length % 4 == 0 ==>
        var (run, e) := WordRun(failed, old(ops), flash_addr, data[..length / 4]);
        written == old(written) + run && err == e && ops == old(ops) + |run|
    {
      if flash_addr % 4 != 0 || length % 4 != 0 {
        return ERR_ALIGNMENT;
      }
      var i, left, at := 0, length, flash_addr;
      ghost var n: nat := length / 4;
      ghost var plan := WordRun(failed, ops, at, data[..n]);
      while left > 0
        invariant i <= n && left == 4 * (n - i)
        invariant var (rest, e) := WordRun(failed, ops, at, data[i..n]);
          old(written) + plan.0 == written + rest && plan.1 == e && old(ops) + |plan.0| == ops + |rest|
      {
        assert data[i..n][0] == data[i] && data[i..n][1..] == data[i + 1..n];
        ghost var was := written;
        var bad := ProgramWord(at, data[i]);
        if bad {
          return ERR_FAIL;
        }
        i := i + 1;
        left := left - 4;
        at := Add32(at, 4);
        assert was + ([(written[|written| - 1])] + WordRun(failed, ops, at, data[i..n]).0)
            == written + WordRun(failed, ops, at, data[i..n]).0;
      }
      assert data[i..n] == [];
      return ERR_NONE;
    }
  }

  lemma OnlyOneStart(n: nat)
    requires n < SECTORS
    ensures forall k: nat :: k < SECTORS && SectorStart(k) == SectorStart(n) ==> k == n
  {
    hide SectorStart;
    forall k: nat | k < SECTORS && SectorStart(k) == SectorStart(n)
      ensures k == n
    {
      if k < n {
        StartsRise(k, n);
      } else if n < k {
        StartsRise(n, k);
      }
    }
  }

  lemma SectorRunStep(failed: nat -> bool, op: nat, n: nat, end: nat)
    requires n < end
    ensures failed(op) ==> SectorRun(failed, op, n, end) == ([n], ERR_FAIL)
    ensures !failed(op) && n + 1 == end ==> SectorRun(failed, op, n, end) == ([n], ERR_NONE)
    ensures !failed(op) && n + 1 < end ==>
      var (rest, err) := SectorRun(failed, op + 1, n + 1, end);
      SectorRun(failed, op, n, end) == ([n] + rest, err)
  {
  }
}
