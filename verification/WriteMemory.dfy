/** write_memory (tools/gdb-bridge.c): bytes written to any address, out of word accesses only. */
module WriteMemory {
  import opened Words
  import opened MemAp
  import opened ProbeRuns
  import opened BulkCode
  import opened BulkSemantics
  import opened Session
  import opened Ahb
  import opened Bulk

  // ----- memory as bytes -----

  function ByteAt(m: Memory, a: u32): byte {
    ByteOf(Load(m, a), a % 4)
  }

  // How far a lies beyond from, going round at the end of the address space.
  function Distance(from: u32, a: u32): (d: nat)
    ensures d < TWO_32
  {
    if a >= from then a - from else a - from + TWO_32
  }

  /** m1 is m0 with data written at addr: those bytes hold the data, every other byte is what it was. */
  ghost predicate Spliced(m0: Memory, m1: Memory, addr: u32, data: seq<byte>) {
    forall a: u32 :: ByteAt(m1, a) == SplicedByte(m0, addr, data, a)
  }

  function SplicedByte(m0: Memory, addr: u32, data: seq<byte>, a: u32): byte {
    if Distance(addr, a) < |data| then data[Distance(addr, a)] else ByteAt(m0, a)
  }

  lemma DistanceOn(addr: u32, n: nat, a: u32)
    requires n < TWO_32
    ensures var next := Add32(addr, n);
      Distance(next, a) == if Distance(addr, a) >= n then Distance(addr, a) - n else Distance(addr, a) - n + TWO_32
  {
  }

  // Two adjacent writes are one.
  lemma SpliceTwice(m0: Memory, m1: Memory, m2: Memory, addr: u32, a: seq<byte>, b: seq<byte>)
    requires |a| + |b| <= TWO_32 && |a| < TWO_32
    requires Spliced(m0, m1, addr, a) && Spliced(m1, m2, Add32(addr, |a|), b)
    ensures Spliced(m0, m2, addr, a + b)
  {
    forall x: u32
      ensures ByteAt(m2, x) == SplicedByte(m0, addr, a + b, x)
    {
      DistanceOn(addr, |a|, x);
      assert ByteAt(m1, x) == SplicedByte(m0, addr, a, x);
      assert ByteAt(m2, x) == SplicedByte(m1, Add32(addr, |a|), b, x);
    }
  }

  // ----- one word -----

  // memcpy of a few bytes into a word.
  function Patch(w: u32, offset: nat, bytes: seq<byte>): (r: u32)
    requires offset + |bytes| <= 4
    ensures forall k :: 0 <= k < 4 ==>
      ByteOf(r, k) == if offset <= k < offset + |bytes| then bytes[k - offset] else ByteOf(w, k)
  {
    var pick := (k: nat) requires k < 4 =>
      if offset <= k < offset + |bytes| then bytes[k - offset] else ByteOf(w, k);
    FromBytes(pick(0), pick(1), pick(2), pick(3))
  }

  lemma PatchSplices(m: Memory, addr: u32, bytes: seq<byte>)
    requires addr % 4 + |bytes| <= 4
    ensures Spliced(m, Store(m, addr, Patch(Load(m, addr), addr % 4, bytes)), addr, bytes)
  {
    var w := Patch(Load(m, addr), addr % 4, bytes);
    var m1 := Store(m, addr, w);
    forall a: u32
      ensures ByteAt(m1, a) == SplicedByte(m, addr, bytes, a)
    {
      SameWord(addr, a, |bytes|);
      if WordAt(a) == WordAt(addr) {
        assert Load(m1, a) == w && Load(m, a) == Load(m, addr);
      } else {
        assert Load(m1, a) == Load(m, a);
      }
    }
  }

  lemma SameWord(addr: u32, a: u32, n: nat)
    requires addr % 4 + n <= 4
    ensures WordAt(a) == WordAt(addr) && addr % 4 <= a % 4 ==> Distance(addr, a) == a % 4 - addr % 4
    ensures Distance(addr, a) < n <==> WordAt(a) == WordAt(addr) && addr % 4 <= a % 4 < addr % 4 + n
  {
  }

  // ----- whole words -----

  lemma OneWordSplices(m: Memory, addr: u32, w: u32)
    requires addr % 4 == 0
    ensures Spliced(m, Store(m, addr, w), addr, WordBytes(w))
  {
    var r := Patch(Load(m, addr), 0, WordBytes(w));
    assert ByteOf(r, 0) == ByteOf(w, 0) && ByteOf(r, 1) == ByteOf(w, 1);
    assert ByteOf(r, 2) == ByteOf(w, 2) && ByteOf(r, 3) == ByteOf(w, 3);
    BytesDetermineWord(r);
    BytesDetermineWord(w);
    PatchSplices(m, addr, WordBytes(w));
  }

  lemma NextAligned(addr: u32)
    requires addr % 4 == 0
    ensures Add32(addr, 4) % 4 == 0
  {
  }

  lemma {:induction false} StoreWordsSplices(m: Memory, addr: u32, words: seq<u32>)
    requires addr % 4 == 0 && 4 * |words| <= TWO_32
    ensures Spliced(m, StoreWords(m, addr, words), addr, BytesOfWords(words))
    decreases |words|
  {
    if words != [] {
      var m1, rest := Store(m, addr, words[0]), words[1..];
      OneWordSplices(m, addr, words[0]);
      NextAligned(addr);
      StoreWordsSplices(m1, Add32(addr, 4), rest);
      SpliceTwice(m, m1, StoreWords(m1, Add32(addr, 4), rest), addr, WordBytes(words[0]), BytesOfWords(rest));
    }
  }

  // ----- what stays as it was even when exchanges fail -----

  ghost predicate Confined(m0: Memory, m1: Memory, base: u32, span: nat) {
    forall a: u32 :: Distance(base, a) >= span ==> ByteAt(m1, a) == ByteAt(m0, a)
  }

  lemma ConfinedWithin(m0: Memory, m1: Memory, base: u32, at: nat, n: nat, span: nat)
    requires at < TWO_32 && at + n <= span && Confined(m0, m1, Add32(base, at), n)
    ensures Confined(m0, m1, base, span)
  {
    forall a: u32 | Distance(base, a) >= span
      ensures ByteAt(m1, a) == ByteAt(m0, a)
    {
      DistanceOn(base, at, a);
    }
  }

  lemma ConfinedTwice(m0: Memory, m1: Memory, m2: Memory, base: u32, span: nat)
    requires Confined(m0, m1, base, span) && Confined(m1, m2, base, span)
    ensures Confined(m0, m2, base, span)
  {
  }

  lemma SpliceConfined(m0: Memory, m1: Memory, addr: u32, data: seq<byte>)
    requires Spliced(m0, m1, addr, data)
    ensures Confined(m0, m1, addr, |data|)
  {
    forall a: u32 | Distance(addr, a) >= |data|
      ensures ByteAt(m1, a) == ByteAt(m0, a)
    {
      assert ByteAt(m1, a) == SplicedByte(m0, addr, data, a);
    }
  }

  lemma WordConfined(m: Memory, addr: u32, w: u32)
    requires addr % 4 == 0
    ensures Confined(m, Store(m, addr, w), addr, 4)
  {
    OneWordSplices(m, addr, w);
    SpliceConfined(m, Store(m, addr, w), addr, WordBytes(w));
  }

  // ----- which exchanges have to arrive -----

  // A read-modify-write: the word is read and reported, and the write arrives, reported or not.
  predicate PatchLands(ok: nat -> bool, fate: nat -> Delivery, k: nat, clock: nat) {
    && fate(k) == Delivered && Acked(ok, clock, 4) == 4
    && fate(k + 1) != RequestLost && Acked(ok, clock + 4, 3) == 3
  }

  // Bytes up to the first word boundary, or all of them.
  function HeadLength(addr: u32, len: nat): (n: nat)
    ensures n <= len && (n < len ==> Add32(addr, n) % 4 == 0)
  {
    if addr % 4 == 0 then 0 else if 4 - addr % 4 > len then len else 4 - addr % 4
  }

  /** The exchanges that a byte splice needs, by their numbers: the read-modify-write of the first word, unless it is
      whole, the bulk write, and the read-modify-write of the last word. */
  predicate SpliceLands(ok: nat -> bool, fate: nat -> Delivery, maxwords: nat, k: nat, clock: nat, addr: u32, len: nat)
    requires 17 <= maxwords <= RX_WORDS
  {
    var head := HeadLength(addr, len);
    var (k1, clock1) := if head == 0 then (k, clock) else (k + 2, clock + 7);
    && (head == 0 || PatchLands(ok, fate, k, clock))
    && (head == len || RestLands(ok, fate, maxwords, k1, clock1, Add32(addr, head), len - head))
  }

  predicate RestLands(ok: nat -> bool, fate: nat -> Delivery, maxwords: nat, k: nat, clock: nat, at: u32, len: nat)
    requires 17 <= maxwords <= RX_WORDS && at % 4 == 0
  {
    var (k1, clock1) := WritesEnd(ok, fate, maxwords, k, clock, at, len / 4);
    && WritesLand(ok, fate, maxwords, k, clock, at, len / 4)
    && (len % 4 == 0 || PatchLands(ok, fate, k1, clock1))
  }

  /** A lost first read is enough to miss it: WriteBytes then puts back what the variable held. */
  lemma LostRead(ok: nat -> bool, fate: nat -> Delivery, maxwords: nat, k: nat, clock: nat, addr: u32, len: nat)
    requires 17 <= maxwords <= RX_WORDS && addr % 4 != 0 && len > 0 && fate(k) != Delivered
    ensures !SpliceLands(ok, fate, maxwords, k, clock, addr, len)
  {
  }

  // ----- memory on which a failure shows -----

  // The byte of its word that a read-modify-write has to keep.
  function Beside(addr: u32): nat {
    if addr % 4 > 0 then 0 else 3
  }

  // Every byte of the words touched differs from all the data, from what a refused read leaves, and from what the
  // variable held before.
  ghost predicate Telling(m: Memory, addr: u32, data: seq<byte>, x: u32) {
    forall a: u32 :: Distance(WordAt(addr), a) < Span(addr, |data|) ==>
      && ByteAt(m, a) !in data && ByteAt(m, a) != 0xFF
      && ByteAt(m, a) != ByteOf(x, 0) && ByteAt(m, a) != ByteOf(x, 3)
  }

  // The same for one step, where only one byte of the variable counts.
  ghost predicate Tells(m: Memory, addr: u32, bytes: seq<byte>, x: u32) {
    forall a: u32 :: Distance(WordAt(addr), a) < Span(addr, |bytes|) ==>
      ByteAt(m, a) !in bytes && ByteAt(m, a) != 0xFF && ByteAt(m, a) != ByteOf(x, Beside(addr))
  }

  // Some byte of the words touched is not what it should be.
  ghost predicate Spoiled(m0: Memory, m1: Memory, addr: u32, data: seq<byte>, span: nat) {
    exists a: u32 :: Distance(WordAt(addr), a) < span && ByteAt(m1, a) != SplicedByte(m0, addr, data, a)
  }

  // The bytes of the words that the range touches.
  function Span(addr: u32, len: nat): nat {
    (addr % 4 + len + 3) / 4 * 4
  }

  // What one step does to memory.
  ghost predicate Stepped(m0: Memory, m1: Memory, addr: u32, bytes: seq<byte>, x: u32, good: bool) {
    && (good ==> Spliced(m0, m1, addr, bytes))
    && Confined(m0, m1, WordAt(addr), Span(addr, |bytes|))
    && (!good && Tells(m0, addr, bytes, x) ==> Spoiled(m0, m1, addr, bytes, Span(addr, |bytes|)))
  }

  lemma OneWordSpan(addr: u32, n: nat)
    requires 0 < n && addr % 4 + n <= 4
    ensures Span(addr, n) == 4
  {
  }

  // The byte at addr itself, and the one beside the range.
  lemma InWord(addr: u32, n: nat)
    requires 0 < n < 4 && addr % 4 + n <= 4
    ensures Distance(WordAt(addr), addr) < 4 && Distance(addr, addr) == 0
    ensures var a := WordAt(addr) + Beside(addr);
      a < TWO_32 && Distance(WordAt(addr), a) < 4 && WordAt(a) == WordAt(addr) && a % 4 == Beside(addr)
      && Distance(addr, a) >= n && !(addr % 4 <= Beside(addr) < addr % 4 + n)
  {
  }

  // A write that does not arrive, or a word that was not read, can be seen.
  lemma PatchSpoils(m: Memory, addr: u32, bytes: seq<byte>, x: u32, read: u32, landed: bool)
    requires 0 < |bytes| < 4 && addr % 4 + |bytes| <= 4 && Tells(m, addr, bytes, x)
    requires landed ==> read == x || read == 0xFFFF_FFFF
    ensures var m1 := if landed then Store(m, addr, Patch(read, addr % 4, bytes)) else m;
      Spoiled(m, m1, addr, bytes, 4)
  {
    hide Patch;
    OneWordSpan(addr, |bytes|);
    InWord(addr, |bytes|);
    if landed {
      var a: u32 := WordAt(addr) + Beside(addr);
      var w := Patch(read, addr % 4, bytes);
      assert Load(Store(m, addr, w), a) == w;
      assert ByteOf(w, Beside(addr)) == ByteOf(read, Beside(addr));
      assert ByteOf(0xFFFF_FFFF, Beside(addr)) == 0xFF;
      assert SplicedByte(m, addr, bytes, a) == ByteAt(m, a);
    } else {
      assert SplicedByte(m, addr, bytes, addr) == bytes[0];
    }
  }

  // ----- write_memory -----

  // The read-modify-write of one word, by way of the variable x[0].  The read may fail and the write succeed.
  method PatchWord(link: Link, addr: u32, bytes: seq<byte>, x: array<u32>) returns (ghost good: bool)
    requires link.Valid() && 17 <= link.maxwords && WordSize(link.Target().csw) && x.Length == 1
    requires 0 < |bytes| < 4 && addr % 4 + |bytes| <= 4
    modifies link, link.probe, x
    ensures link.Target().csw == old(link.Target().csw)
    ensures Stepped(old(link.Target().mem), link.Target().mem, addr, bytes, old(x[0]), good)
    ensures addr % 4 + |bytes| == 4 ==> ByteOf(x[0], 3) == bytes[|bytes| - 1]
    ensures good == PatchLands(link.probe.w.ok, link.fate, old(link.exchanges), old(link.Clock()))
    ensures good ==> link.exchanges == old(link.exchanges) + 2 && link.Clock() == old(link.Clock()) + 7
    ensures Undisturbed(link) ==> good
  {
    hide Spliced, Confined, Patch, Tells, Spoiled;
    ghost var m, x0, ok := link.Target().mem, x[0], link.probe.w.ok;
    ghost var k, clock := link.exchanges, link.Clock();
    var word := WordAt(addr);
    var r := AhbReadWord(link, word, x, 0);
    ghost var read := x[0];
    x[0] := Patch(x[0], addr % 4, bytes);
    var w := AhbWriteWord(link, word, x[0]);
    good := PatchLands(ok, link.fate, k, clock);
    assert Store(m, word, x[0]) == Store(m, addr, x[0]);
    PatchSplices(m, addr, bytes);
    WordConfined(m, word, x[0]);
    NothingConfined(m, word);
    OneWordSpan(addr, |bytes|);
    if !good && Tells(m, addr, bytes, x0) {
      PatchSpoils(m, addr, bytes, x0, if r == 0 then x0 else read, r != 0 && link.Target().mem != m);
    }
  }

  lemma NothingConfined(m: Memory, base: u32)
    ensures Confined(m, m, base, 4)
  {
  }

  // The words that the first i bytes touch.
  function Done(addr: u32, i: nat): nat {
    if i == 0 then 0 else Span(addr, i)
  }

  // The first i bytes are done, or it shows; the words behind are untouched.
  ghost predicate Written(m0: Memory, m: Memory, addr: u32, data: seq<byte>, i: nat, x0: u32, good: bool) {
    && i <= |data|
    && (good ==> Spliced(m0, m, addr, data[..i]))
    && Confined(m0, m, WordAt(addr), Done(addr, i))
    && (!good && Telling(m0, addr, data, x0) ==> Spoiled(m0, m, addr, data, Done(addr, i)))
  }

  // What the variable holds: at first anything, and then something whose last byte is that or one of the data.
  predicate Holding(data: seq<byte>, i: nat, x0: u32, x: u32) {
    if i == 0 then x == x0 else ByteOf(x, 3) == ByteOf(x0, 3) || ByteOf(x, 3) in data
  }

  // A step of n bytes at i covers the words behind those that are done.
  lemma StepSpan(addr: u32, i: nat, n: nat, len: nat)
    requires i + n <= len < 0x8000_0000 && n > 0
    requires i > 0 ==> Add32(addr, i) % 4 == 0
    ensures WordAt(Add32(addr, i)) == Add32(WordAt(addr), Done(addr, i))
    ensures Done(addr, i) + Span(Add32(addr, i), n) == Done(addr, i + n) <= Span(addr, len) < 0x8000_0008
  {
    if i > 0 {
      AlignedStep(addr, i);
      var off := addr % 4 + i;
      assert Done(addr, i) == off;
      RoundUp(off, n, addr % 4 + len);
    } else {
      Add32None(WordAt(addr));
      Add32None(addr);
      RoundUp(0, addr % 4 + n, addr % 4 + len);
    }
  }

  lemma AlignedStep(addr: u32, i: nat)
    requires i < TWO_32 && Add32(addr, i) % 4 == 0
    ensures (addr % 4 + i) % 4 == 0 && Add32(WordAt(addr), addr % 4 + i) == Add32(addr, i)
  {
  }

  lemma RoundUp(off: nat, n: nat, len: nat)
    requires off % 4 == 0 && off + n <= len
    ensures off + (n + 3) / 4 * 4 <= (len + 3) / 4 * 4
    ensures off + (n + 3) / 4 * 4 == (off + n + 3) / 4 * 4
  {
  }

  // What a step is told about memory follows from what the whole is told.
  lemma StepTells(m0: Memory, m1: Memory, addr: u32, data: seq<byte>, i: nat, n: nat, x0: u32, x: u32)
    requires |data| < 0x8000_0000 && n > 0 && i + n <= |data| && (i > 0 ==> Add32(addr, i) % 4 == 0)
    requires Confined(m0, m1, WordAt(addr), Done(addr, i)) && Telling(m0, addr, data, x0) && Holding(data, i, x0, x)
    ensures Tells(m1, Add32(addr, i), data[i..i + n], x)
  {
    hide Span, Done, WordAt, ByteAt, ByteOf, Add32;
    StepSpan(addr, i, n, |data|);
    if i == 0 {
      Add32None(addr);
    }
    forall a: u32 | Distance(WordAt(Add32(addr, i)), a) < Span(Add32(addr, i), n)
      ensures ByteAt(m1, a) !in data[i..i + n] && ByteAt(m1, a) != 0xFF
      ensures ByteAt(m1, a) != ByteOf(x, Beside(Add32(addr, i)))
    {
      DistanceOn(WordAt(addr), Done(addr, i), a);
      assert ByteAt(m1, a) == ByteAt(m0, a);
      assert forall b :: b in data[i..i + n] ==> b in data;
    }
  }

  // A byte that a step leaves wrong is wrong for the whole.
  lemma StepSpoils(m0: Memory, m1: Memory, m2: Memory, addr: u32, data: seq<byte>, i: nat, n: nat)
    requires |data| < 0x8000_0000 && n > 0 && i + n <= |data| && (i > 0 ==> Add32(addr, i) % 4 == 0)
    requires i + n < |data| ==> Add32(addr, i + n) % 4 == 0
    requires Confined(m0, m1, WordAt(addr), Done(addr, i))
    requires Spoiled(m1, m2, Add32(addr, i), data[i..i + n], Span(Add32(addr, i), n))
    ensures Spoiled(m0, m2, addr, data, Done(addr, i + n))
  {
    hide Span, Done, WordAt, ByteAt, Add32;
    var at, bytes := Add32(addr, i), data[i..i + n];
    var a: u32 :| Distance(WordAt(at), a) < Span(at, n) && ByteAt(m2, a) != SplicedByte(m1, at, bytes, a);
    StepSpan(addr, i, n, |data|);
    DistanceOn(WordAt(addr), Done(addr, i), a);
    assert ByteAt(m1, a) == ByteAt(m0, a);
    DistanceOn(addr, i, a);
    if Distance(at, a) >= n {
      StepCovers(addr, i, n, |data|, a);
    }
    assert SplicedByte(m0, addr, data, a) == SplicedByte(m1, at, bytes, a);
  }

  // Bytes of a step's words that the step does not write are outside the whole range.
  lemma StepCovers(addr: u32, i: nat, n: nat, len: nat, a: u32)
    requires len < 0x8000_0000 && n > 0 && i + n <= len && (i > 0 ==> Add32(addr, i) % 4 == 0)
    requires i + n < len ==> Add32(addr, i + n) % 4 == 0
    requires Distance(WordAt(Add32(addr, i)), a) < Span(Add32(addr, i), n) && Distance(Add32(addr, i), a) >= n
    ensures Distance(addr, a) >= len
  {
    var at := Add32(addr, i);
    DistanceOn(addr, i, a);
    FromWord(at, a);
    if i > 0 {
      assert at % 4 == 0;
    } else {
      Add32None(addr);
    }
    if i + n < len {
      Add32Twice(addr, i, n);
      WholeSpan(at, n);
    }
  }

  lemma FromWord(at: u32, a: u32)
    ensures Distance(WordAt(at), a) == (if Distance(at, a) < TWO_32 - at % 4 then Distance(at, a) + at % 4
                                        else Distance(at, a) + at % 4 - TWO_32)
  {
  }

  lemma WholeSpan(at: u32, n: nat)
    requires Add32(at, n) % 4 == 0 && n < TWO_32
    ensures Span(at, n) == at % 4 + n
  {
  }

  lemma StillSpoiled(m0: Memory, m1: Memory, m2: Memory, addr: u32, data: seq<byte>, i: nat, n: nat)
    requires |data| < 0x8000_0000 && n > 0 && i + n <= |data| && (i > 0 ==> Add32(addr, i) % 4 == 0)
    requires Spoiled(m0, m1, addr, data, Done(addr, i))
    requires Confined(m1, m2, WordAt(Add32(addr, i)), Span(Add32(addr, i), n))
    ensures Spoiled(m0, m2, addr, data, Done(addr, i + n))
  {
    hide Span, Done, WordAt, ByteAt, Add32, SplicedByte;
    var a: u32 :| Distance(WordAt(addr), a) < Done(addr, i) && ByteAt(m1, a) != SplicedByte(m0, addr, data, a);
    StepSpan(addr, i, n, |data|);
    DistanceOn(WordAt(addr), Done(addr, i), a);
    assert ByteAt(m2, a) == ByteAt(m1, a);
  }

  // The next n bytes.
  lemma WrittenNext(m0: Memory, m1: Memory, m2: Memory, addr: u32, data: seq<byte>, i: nat, n: nat, x0: u32, x: u32,
                    good: bool, now: bool)
    requires |data| < 0x8000_0000 && n > 0 && i + n <= |data| && Written(m0, m1, addr, data, i, x0, good)
    requires i > 0 ==> Add32(addr, i) % 4 == 0
    requires i + n < |data| ==> Add32(addr, i + n) % 4 == 0
    requires Stepped(m1, m2, Add32(addr, i), data[i..i + n], x, now) && Holding(data, i, x0, x)
    ensures Written(m0, m2, addr, data, i + n, x0, good && now)
  {
    hide Spliced, Confined, Span, Done, WordAt, Add32, Telling, Tells, Spoiled, Holding;
    StepSpan(addr, i, n, |data|);
    ConfinedWithin(m1, m2, WordAt(addr), Done(addr, i), Span(Add32(addr, i), n), Done(addr, i + n));
    ConfinedMore(m0, m1, WordAt(addr), Done(addr, i), Done(addr, i + n));
    ConfinedTwice(m0, m1, m2, WordAt(addr), Done(addr, i + n));
    if good && now {
      SpliceTwice(m0, m1, m2, addr, data[..i], data[i..i + n]);
      assert data[..i] + data[i..i + n] == data[..i + n];
    } else if Telling(m0, addr, data, x0) {
      if good {
        StepTells(m0, m1, addr, data, i, n, x0, x);
        StepSpoils(m0, m1, m2, addr, data, i, n);
      } else {
        StillSpoiled(m0, m1, m2, addr, data, i, n);
      }
    }
  }

  lemma ConfinedMore(m0: Memory, m1: Memory, base: u32, span: nat, more: nat)
    requires Confined(m0, m1, base, span) && span <= more
    ensures Confined(m0, m1, base, more)
  {
  }

  // The aligned part, as one bulk write.
  method BodyWords(link: Link, at: u32, bytes: seq<byte>, ghost x: u32) returns (ghost good: bool)
    requires link.Valid() && 17 <= link.maxwords && WordSize(link.Target().csw)
    requires at % 4 == 0 && |bytes| % 4 == 0 && |bytes| < 0x8000_0000
    modifies link, link.probe
    ensures WordSize(link.Target().csw)
    ensures Stepped(old(link.Target().mem), link.Target().mem, at, bytes, x, good)
    ensures good == old(Plan(link, at, |bytes| / 4)).0
    ensures (link.exchanges, link.Clock()) == old(Plan(link, at, |bytes| / 4)).1
    ensures Undisturbed(link) ==> good
  {
    hide Stepped, StoredAll, StoredPart, Undisturbed, Plan;
    ghost var m := link.Target().mem;
    var words := WordsOfBytes(bytes);
    good := Plan(link, at, |bytes| / 4).0;
    StreamRegister();
    var r := AhbWrite32(link, at, words);
    BodyStepped(m, link.Target().mem, at, bytes, x, good);
  }

  lemma BodyStepped(m: Memory, m1: Memory, at: u32, bytes: seq<byte>, x: u32, all: bool)
    requires at % 4 == 0 && |bytes| % 4 == 0 && |bytes| < 0x8000_0000
    requires StoredAll(m, m1, at, WordsOfBytes(bytes), all)
    ensures Stepped(m, m1, at, bytes, x, all)
  {
    hide Spliced, Confined, Tells, Spoiled, Span;
    var words := WordsOfBytes(bytes);
    var j :| 0 <= j <= |words| && m1 == StoreWords(m, at, words[..j]) && (all <==> j == |words|);
    WholeWordSpan(at, |bytes|);
    StoreWordsSplices(m, at, words[..j]);
    SpliceConfined(m, m1, at, BytesOfWords(words[..j]));
    ConfinedMore(m, m1, at, 4 * j, |bytes|);
    if all {
      BytesSurviveWords(bytes);
      assert words[..j] == words;
    } else if Tells(m, at, bytes, x) {
      BodySpoils(m, m1, at, bytes, x, j, BytesOfWords(words[..j]));
    }
  }

  lemma WholeWordSpan(at: u32, n: nat)
    requires at % 4 == 0 && n % 4 == 0
    ensures WordAt(at) == at && Span(at, n) == n
  {
  }

  // The first word that was not stored can be seen.
  lemma BodySpoils(m: Memory, m1: Memory, at: u32, bytes: seq<byte>, x: u32, j: nat, stored: seq<byte>)
    requires at % 4 == 0 && |bytes| % 4 == 0 && |bytes| < 0x8000_0000 && 4 * j < |bytes|
    requires |stored| == 4 * j && Spliced(m, m1, at, stored) && Tells(m, at, bytes, x)
    ensures Spoiled(m, m1, at, bytes, |bytes|)
  {
    hide ByteAt;
    WholeWordSpan(at, |bytes|);
    var a := Add32(at, 4 * j);
    DistanceOfAdd(at, 4 * j);
    assert ByteAt(m1, a) == SplicedByte(m, at, stored, a) == ByteAt(m, a);
    assert SplicedByte(m, at, bytes, a) == bytes[4 * j];
  }

  lemma DistanceOfAdd(at: u32, n: nat)
    requires n < TWO_32
    ensures Distance(at, Add32(at, n)) == n
  {
  }

  // Where WriteBytes stands between two of its steps.
  ghost predicate Ready(link: Link, m0: Memory, addr: u32, data: seq<byte>, i: nat, x0: u32, x: array<u32>, good: bool)
    reads link, link.probe, x
  {
    && link.Valid() && 17 <= link.maxwords && WordSize(link.Target().csw) && |data| < 0x8000_0000 && x.Length == 1
    && Written(m0, link.Target().mem, addr, data, i, x0, good)
    && (i < |data| ==> Holding(data, i, x0, x[0]))
    && (0 < i < |data| ==> Add32(addr, i) % 4 == 0)
  }

  method PatchNext(link: Link, addr: u32, data: seq<byte>, i: nat, count: nat, x: array<u32>, ghost m0: Memory,
                   ghost x0: u32, ghost before: bool) returns (ghost good: bool)
    requires Ready(link, m0, addr, data, i, x0, x, before) && 0 < count < 4 && i + count <= |data|
    requires Add32(addr, i) % 4 + count <= 4 && (i + count < |data| ==> Add32(addr, i) % 4 + count == 4)
    modifies link, link.probe, x
    ensures Ready(link, m0, addr, data, i + count, x0, x, before && good)
    ensures good == PatchLands(link.probe.w.ok, link.fate, old(link.exchanges), old(link.Clock()))
    ensures good ==> link.exchanges == old(link.exchanges) + 2 && link.Clock() == old(link.Clock()) + 7
    ensures Undisturbed(link) ==> good
  {
    hide Written, Stepped, PatchLands, Undisturbed;
    ghost var m, was := link.Target().mem, x[0];
    good := PatchWord(link, Add32(addr, i), data[i..i + count], x);
    PatchedOn(addr, i, count);
    WrittenNext(m0, m, link.Target().mem, addr, data, i, count, x0, was, before, good);
    StillHolding(data, i, count, x0, was, x[0], Add32(addr, i) % 4 + count == 4);
  }

  // After a full word comes an aligned one.
  lemma PatchedOn(addr: u32, i: nat, count: nat)
    ensures Add32(addr, i) % 4 + count == 4 ==> Add32(addr, i + count) % 4 == 0
  {
    Add32Twice(addr, i, count);
  }

  lemma StillHolding(data: seq<byte>, i: nat, n: nat, x0: u32, was: u32, now: u32, full: bool)
    requires 0 < n && i + n <= |data|
    requires full ==> ByteOf(now, 3) == data[i + n - 1]
    ensures full ==> Holding(data, i + n, x0, now)
  {
  }

  method StoreNext(link: Link, addr: u32, data: seq<byte>, i: nat, count: nat, x: array<u32>, ghost m0: Memory,
                   ghost x0: u32, ghost before: bool) returns (ghost good: bool)
    requires Ready(link, m0, addr, data, i, x0, x, before) && 0 < count && i + count <= |data|
    requires Add32(addr, i) % 4 == 0 && count % 4 == 0 && Add32(addr, i + count) % 4 == 0
    modifies link, link.probe
    ensures Ready(link, m0, addr, data, i + count, x0, x, before && good)
    ensures good == old(Plan(link, Add32(addr, i), count / 4)).0
    ensures (link.exchanges, link.Clock()) == old(Plan(link, Add32(addr, i), count / 4)).1
    ensures Undisturbed(link) ==> good
  {
    hide Written, Stepped, Plan, Undisturbed;
    ghost var m := link.Target().mem;
    good := BodyWords(link, Add32(addr, i), data[i..i + count], x[0]);
    WrittenNext(m0, m, link.Target().mem, addr, data, i, count, x0, x[0], before, good);
  }

  /** write_memory: a byte splice at any address and of any length, wrapping round the address space as the 32-bit
      address does, through a read-modify-write of the first word, a bulk write, and one of the last word.  The code
      looks at no result: good tells whether the exchanges that are needed arrived.  If they did not, words outside
      the range are still untouched; and on memory where that shows, the bytes are not written.  What the variable
      holds to begin with is x0. */
  method WriteBytes(link: Link, addr: u32, data: seq<byte>, x0: u32) returns (ghost good: bool)
    requires link.Valid() && 17 <= link.maxwords && WordSize(link.Target().csw)
    requires |data| < 0x8000_0000
    modifies link, link.probe
    ensures WordSize(link.Target().csw)
    ensures good == SpliceLands(link.probe.w.ok, link.fate, link.maxwords, old(link.exchanges), old(link.Clock()), addr,
                                |data|)
    ensures good ==> Spliced(old(link.Target().mem), link.Target().mem, addr, data)
    ensures !good && Telling(old(link.Target().mem), addr, data, x0) ==>
      !Spliced(old(link.Target().mem), link.Target().mem, addr, data)
    ensures Confined(old(link.Target().mem), link.Target().mem, WordAt(addr), Span(addr, |data|))
    ensures Undisturbed(link) ==> good
  {
    hide Written, Undisturbed, PatchLands, RestLands, Holding, Plan, Telling, Spliced, Confined, Span, WordAt;
    ghost var m0 := link.Target().mem;
    var x := new u32[1](_ => x0);
    Add32None(addr);
    NothingWritten(m0, addr, data, x0);
    var i := HeadLength(addr, |data|);
    good := true;
    if i > 0 {
      good := PatchNext(link, addr, data, 0, i, x, m0, x0, true);
    }
    if i < |data| {
      ghost var rest := WriteRest(link, addr, data, i, x, m0, x0, good);
      good := good && rest;
    }
    WrittenWhole(m0, link.Target().mem, addr, data, x0, good);
  }

  // The part from a word boundary on.
  method WriteRest(link: Link, addr: u32, data: seq<byte>, start: nat, x: array<u32>, ghost m0: Memory, ghost x0: u32,
                   ghost before: bool) returns (ghost good: bool)
    requires Ready(link, m0, addr, data, start, x0, x, before) && start < |data| && Add32(addr, start) % 4 == 0
    modifies link, link.probe, x
    ensures Ready(link, m0, addr, data, |data|, x0, x, before && good)
    ensures good == RestLands(link.probe.w.ok, link.fate, link.maxwords, old(link.exchanges), old(link.Clock()),
                              Add32(addr, start), |data| - start)
    ensures Undisturbed(link) ==> good
  {
    hide Written, Undisturbed, PatchLands, Holding, WritesLand, WritesEnd;
    var i := start;
    good := true;
    if |data| - i > 3 {
      var count := WholeWords(addr, i, |data| - i);
      good := StoreNext(link, addr, data, i, count, x, m0, x0, before);
      i := i + count;
    } else {
      LandsAll(link.probe.w.ok, link.fate, link.maxwords, link.exchanges, link.Clock(), Add32(addr, start));
    }
    if |data| - i > 0 {
      ghost var now := PatchNext(link, addr, data, i, |data| - i, x, m0, x0, before && good);
      good := good && now;
    }
  }

  lemma NothingWritten(m: Memory, addr: u32, data: seq<byte>, x0: u32)
    ensures Written(m, m, addr, data, 0, x0, true) && Holding(data, 0, x0, x0)
  {
  }

  lemma WrittenWhole(m0: Memory, m: Memory, addr: u32, data: seq<byte>, x0: u32, good: bool)
    requires Written(m0, m, addr, data, |data|, x0, good)
    ensures good ==> Spliced(m0, m, addr, data)
    ensures !good && Telling(m0, addr, data, x0) ==> !Spliced(m0, m, addr, data)
    ensures Confined(m0, m, WordAt(addr), Span(addr, |data|))
  {
    assert data[..|data|] == data;
    ConfinedMore(m0, m, WordAt(addr), Done(addr, |data|), Span(addr, |data|));
  }

  // The bytes of the whole words among the next len bytes; what follows them is aligned again.
  method WholeWords(addr: u32, i: nat, len: nat) returns (count: nat)
    requires len > 3 && Add32(addr, i) % 4 == 0
    ensures 0 < count <= len < count + 4 && count % 4 == 0 && count / 4 == len / 4 && len - count == len % 4
    ensures Add32(Add32(addr, i), count) == Add32(addr, i + count) && Add32(addr, i + count) % 4 == 0
  {
    count := len / 4 * 4;
    Add32Twice(addr, i, count);
    StillAligned(Add32(addr, i), count);
  }

  lemma StillAligned(a: u32, n: nat)
    requires a % 4 == 0 && n % 4 == 0
    ensures Add32(a, n) % 4 == 0
  {
  }

  // ----- such memory exists -----

  // A byte other than four given ones.
  function Other(a: byte, b: byte, c: byte): (v: byte)
    ensures v != a && v != b && v != c && v != 0xFF
  {
    if a != 0 && b != 0 && c != 0 then 0
    else if a != 1 && b != 1 && c != 1 then 1
    else if a != 2 && b != 2 && c != 2 then 2
    else 3
  }

  /** For every address, length and byte to write there is memory on which a failure shows: so a byte splice is done on
      all memory, if and only if SpliceLands. */
  lemma TellingMemory(addr: u32, b: byte, n: nat, x0: u32) returns (m: Memory)
    ensures Telling(m, addr, seq(n, i => b), x0)
  {
    var v := Other(b, ByteOf(x0, 0), ByteOf(x0, 3));
    var word := FromBytes(v, v, v, v);
    m := map a: u32 | 0 <= a < TWO_32 && WordAt(a) == a :: word;
    forall a: u32
      ensures ByteAt(m, a) == v
    {
      assert WordAt(WordAt(a)) == WordAt(a);
      assert WordAt(a) in m;
    }
  }
}
