/** A serial NOR flash: erasing a sector sets every bit of it, programming a page can only clear bits. Any one
    operation may go wrong, and then leaves anything at all in the sector or page it was given. */
module NorFlash {
  import opened Words

  const SECTOR: int := 0x1000
  const PAGE: int := 256

  datatype Nor = Nor(mem: seq<byte>, ops: nat)

  // What operation number k leaves behind; nothing for one that works.
  type Faults = nat -> seq<byte>

  ghost predicate NoFaults(f: Faults) {
    forall k: nat :: f(k) == []
  }

  function Fit(s: seq<byte>, n: nat): (r: seq<byte>)
    ensures |r| == n
  {
    seq(n, i requires 0 <= i < n => if i < |s| then s[i] else 0xFF)
  }

  function Ones(n: nat): (s: seq<byte>)
    ensures |s| == n && forall i :: 0 <= i < n ==> s[i] == 0xFF
  {
    seq(n, i => 0xFF)
  }

  // The bits set in both.
  function And(a: byte, b: byte): (r: byte)
    ensures r <= b
  {
    if a == 0 || b == 0 then 0
    else 2 * And(a / 2, b / 2) + if a % 2 == 1 && b % 2 == 1 then 1 else 0
  }

  lemma {:induction false} AndOnes(n: nat, p: nat, b: byte)
    requires n <= 8 && p == Pow2(n) && b < p && p <= 0x100
    ensures And(p - 1, b) == b
    decreases n
  {
    if b > 0 {
      assert n > 0 && p == 2 * Pow2(n - 1);
      assert (p - 1) / 2 == Pow2(n - 1) - 1;
      AndOnes(n - 1, Pow2(n - 1), b / 2);
    }
  }

  function Pow2(n: nat): (p: nat)
    ensures p > 0
  {
    if n == 0 then 1 else 2 * Pow2(n - 1)
  }

  // A blank byte takes any value.
  lemma BlankTakesAll(b: byte)
    ensures And(0xFF, b) == b
  {
    assert Pow2(8) == 0x100 by {
      assert Pow2(3) == 8 && Pow2(6) == 64;
    }
    AndOnes(8, 0x100, b);
  }

  function AndAll(was: seq<byte>, page: seq<byte>): (r: seq<byte>)
    requires |was| == |page|
    ensures |r| == |page|
  {
    seq(|page|, i requires 0 <= i < |page| => And(was[i], page[i]))
  }

  function Put(mem: seq<byte>, at: nat, bytes: seq<byte>): (m: seq<byte>)
    requires at + |bytes| <= |mem|
    ensures |m| == |mem| && Holds(m, at, bytes) && Kept(mem, m, at, at + |bytes|)
  {
    mem[..at] + bytes + mem[at + |bytes|..]
  }

  predicate Holds(mem: seq<byte>, at: nat, bytes: seq<byte>) {
    at + |bytes| <= |mem| && mem[at..at + |bytes|] == bytes
  }

  // Nothing outside [lo, hi) has changed.
  ghost predicate Kept(m0: seq<byte>, m1: seq<byte>, lo: nat, hi: nat) {
    |m0| == |m1| && forall i :: 0 <= i < |m0| && (i < lo || hi <= i) ==> m1[i] == m0[i]
  }

  predicate SectorStart(at: int) {
    at % SECTOR == 0
  }

  function EraseSector(f: Faults, c: Nor, at: nat): (d: Nor)
    requires at % SECTOR == 0 && at + SECTOR <= |c.mem|
    ensures |d.mem| == |c.mem| && Kept(c.mem, d.mem, at, at + SECTOR)
    ensures f(c.ops) == [] ==> Holds(d.mem, at, Ones(SECTOR))
  {
    Nor(Put(c.mem, at, if f(c.ops) == [] then Ones(SECTOR) else Fit(f(c.ops), SECTOR)), c.ops + 1)
  }

  predicate PageStart(at: int) {
    at % PAGE == 0
  }

  function ProgramPage(f: Faults, c: Nor, at: nat, page: seq<byte>): (d: Nor)
    requires |page| == PAGE && PageStart(at) && at + PAGE <= |c.mem|
    ensures |d.mem| == |c.mem| && Kept(c.mem, d.mem, at, at + PAGE) && d.ops == c.ops + 1
    ensures f(c.ops) == [] ==> Holds(d.mem, at, AndAll(c.mem[at..at + PAGE], page))
  {
    Nor(Put(c.mem, at, if f(c.ops) == [] then AndAll(c.mem[at..at + PAGE], page) else Fit(f(c.ops), PAGE)), c.ops + 1)
  }

  // What lies outside a change is still held.
  lemma StillHolds(m0: seq<byte>, m1: seq<byte>, lo: nat, hi: nat, at: nat, bytes: seq<byte>)
    requires Kept(m0, m1, lo, hi) && Holds(m0, at, bytes) && (at + |bytes| <= lo || hi <= at)
    ensures Holds(m1, at, bytes)
  {
    assert m1[at..at + |bytes|] == m0[at..at + |bytes|];
  }

  lemma HoldsJoin(mem: seq<byte>, at: nat, a: seq<byte>, b: seq<byte>)
    ensures Holds(mem, at, a + b) <==> Holds(mem, at, a) && Holds(mem, at + |a|, b)
  {
    if Holds(mem, at, a + b) {
      assert mem[at..at + |a|] == (a + b)[..|a|];
      assert mem[at + |a|..at + |a| + |b|] == (a + b)[|a|..];
    }
  }

  lemma KeptJoin(m0: seq<byte>, m1: seq<byte>, m2: seq<byte>, lo: nat, mid: nat, hi: nat)
    requires lo <= mid <= hi && Kept(m0, m1, lo, mid) && Kept(m1, m2, mid, hi)
    ensures Kept(m0, m2, lo, hi)
  {
  }

  lemma KeptWider(m0: seq<byte>, m1: seq<byte>, lo: nat, mid: nat, hi: nat)
    requires mid <= hi && Kept(m0, m1, lo, mid)
    ensures Kept(m0, m1, lo, hi)
  {
  }

  lemma BlankTakes(mem: seq<byte>, at: nat, page: seq<byte>)
    requires Holds(mem, at, Ones(|page|))
    ensures AndAll(mem[at..at + |page|], page) == page
  {
    forall i | 0 <= i < |page|
      ensures AndAll(mem[at..at + |page|], page)[i] == page[i]
    {
      BlankTakesAll(page[i]);
    }
  }
}
