/** The bits on the SWD wire, from two independent drivers: m3debug/swdp.c shifts them through an SPI port in
    chunks, most significant bit first; swdp/swdp.c drives two GPIO lines bit by bit. */
module SwdWire {

  // ----- positions in a word, as shift amounts -----

  function Idx(k: nat): bv6 {
    if k == 0 then 0 else Idx(k - 1) + 1
  }

  lemma IdxValues()
    ensures Idx(0) == 0 && Idx(1) == 1 && Idx(2) == 2 && Idx(3) == 3 && Idx(4) == 4 && Idx(5) == 5
    ensures Idx(6) == 6 && Idx(7) == 7 && Idx(8) == 8 && Idx(9) == 9 && Idx(10) == 10 && Idx(11) == 11
    ensures Idx(12) == 12 && Idx(13) == 13 && Idx(14) == 14 && Idx(15) == 15 && Idx(16) == 16 && Idx(17) == 17
    ensures Idx(18) == 18 && Idx(19) == 19 && Idx(20) == 20 && Idx(21) == 21 && Idx(22) == 22 && Idx(23) == 23
    ensures Idx(24) == 24 && Idx(25) == 25 && Idx(26) == 26 && Idx(27) == 27 && Idx(28) == 28 && Idx(29) == 29
    ensures Idx(30) == 30 && Idx(31) == 31 && Idx(32) == 32 && Idx(33) == 33
  {
    assert Idx(1) == 1 && Idx(2) == 2 && Idx(3) == 3 && Idx(4) == 4 && Idx(5) == 5 && Idx(6) == 6;
    assert Idx(7) == 7 && Idx(8) == 8 && Idx(9) == 9 && Idx(10) == 10 && Idx(11) == 11 && Idx(12) == 12;
    assert Idx(13) == 13 && Idx(14) == 14 && Idx(15) == 15 && Idx(16) == 16 && Idx(17) == 17 && Idx(18) == 18;
    assert Idx(19) == 19 && Idx(20) == 20 && Idx(21) == 21 && Idx(22) == 22 && Idx(23) == 23 && Idx(24) == 24;
    assert Idx(25) == 25 && Idx(26) == 26 && Idx(27) == 27 && Idx(28) == 28 && Idx(29) == 29 && Idx(30) == 30;
  }

  lemma IdxStep(k: nat)
    requires k <= 33
    ensures Idx(k) <= 33 && (k > 0 ==> Idx(k - 1) < Idx(k))
  {
    IdxValues();
  }

  lemma {:induction false} IdxBelow(k: nat, m: nat)
    requires k < m <= 33
    ensures Idx(k) < Idx(m) <= 33
    decreases m
  {
    IdxStep(m);
    if k < m - 1 {
      IdxBelow(k, m - 1);
    }
  }

  lemma {:induction false} IdxAdd(a: nat, b: nat)
    ensures Idx(a + b) == Idx(a) + Idx(b)
    decreases b
  {
    if b > 0 {
      IdxAdd(a, b - 1);
    }
  }

  // ----- the bits of a word -----

  function Bit(v: bv32, k: bv6): bool
    requires k <= 33
  {
    if k < 32 then (v >> k) & 1 == 1 else false
  }

  function BitAt(v: bv32, k: nat): bool {
    if k >= 32 then false else if k == 0 then v & 1 == 1 else BitAt(v >> 1, k - 1)
  }

  lemma BitBelowIs(v: bv32, k: bv6)
    requires 0 < k <= 32
    ensures Bit(v >> 1, k - 1) == Bit(v, k)
  {
  }

  lemma {:induction false} BitAtIs(v: bv32, k: nat)
    requires k < 32
    ensures Idx(k) < 32 && BitAt(v, k) == Bit(v, Idx(k))
    decreases k
  {
    IdxValues();
    IdxBelow(k, 32);
    if k > 0 {
      BitAtIs(v >> 1, k - 1);
      BitBelowIs(v, Idx(k));
    }
  }

  lemma BitZero(v: bv32)
    ensures BitAt(v, 0) == (v & 1 == 1)
  {
  }

  lemma BitStep(v: bv32, k: nat)
    requires 0 < k < 32
    ensures BitAt(v, k) == BitAt(v >> 1, k - 1)
  {
  }

  lemma BitBeyond(v: bv32, k: nat)
    requires k >= 32
    ensures !BitAt(v, k)
  {
  }

  lemma TopGone(v: bv32)
    ensures !BitAt(v >> 1, 31)
  {
    hide BitAt;
    IdxValues();
    BitAtIs(v >> 1, 31);
    assert !Bit(v >> 1, 31);
  }

  // Bits D0, D1, ... of a word.
  function LsbFirst(v: bv32, n: nat): (s: seq<bool>)
    ensures |s| == n
  {
    if n == 0 then [] else LsbFirst(v, n - 1) + [BitAt(v, n - 1)]
  }

  // An SPI frame of n bits, most significant bit first; the port ignores what does not fit the frame.
  function SpiFrame(v: bv32, n: nat): (s: seq<bool>)
    ensures |s| == n
  {
    if n == 0 then [] else [BitAt(v, n - 1)] + SpiFrame(v, n - 1)
  }

  lemma {:induction false} LsbFirstAt(v: bv32, n: nat, k: nat)
    requires k < n
    ensures LsbFirst(v, n)[k] == BitAt(v, k)
  {
    if k < n - 1 {
      LsbFirstAt(v, n - 1, k);
    }
  }

  lemma {:induction false} SpiFrameAt(v: bv32, n: nat, k: nat)
    requires k < n
    ensures SpiFrame(v, n)[k] == BitAt(v, n - 1 - k)
  {
    if k > 0 {
      SpiFrameAt(v, n - 1, k - 1);
    }
  }

  // ----- the mask trees -----

  function RevBits(n: bv32): bv32 {
    var a := ((n >> 1) & 0x5555_5555) | ((n << 1) & 0xaaaa_aaaa);
    var b := ((a >> 2) & 0x3333_3333) | ((a << 2) & 0xcccc_cccc);
    var c := ((b >> 4) & 0x0f0f_0f0f) | ((b << 4) & 0xf0f0_f0f0);
    var d := ((c >> 8) & 0x00ff_00ff) | ((c << 8) & 0xff00_ff00);
    ((d >> 16) & 0x0000_ffff) | ((d << 16) & 0xffff_0000)
  }

  lemma RevBit(n: bv32, k: bv6)
    requires k < 32
    ensures Bit(RevBits(n), k) == Bit(n, 31 - k)
  {
  }

  /** The mask tree reverses the word. */
  lemma RevBitsReverses(n: bv32, k: nat)
    requires k < 32
    ensures BitAt(RevBits(n), k) == BitAt(n, 31 - k)
  {
    IdxValues();
    BitAtIs(RevBits(n), k);
    BitAtIs(n, 31 - k);
    IdxAdd(31 - k, k);
    RevBit(n, Idx(k));
  }

  // The adding steps of parity(), on fields of 1, 2, 4, 8 and 16 bits.
  function Add1(n: bv32): bv32 { (n & 0x5555_5555) + ((n & 0xaaaa_aaaa) >> 1) }
  function Add2(n: bv32): bv32 { (n & 0x3333_3333) + ((n & 0xcccc_cccc) >> 2) }
  function Add3(n: bv32): bv32 { (n & 0x0f0f_0f0f) + ((n & 0xf0f0_f0f0) >> 4) }
  function Add4(n: bv32): bv32 { (n & 0x00ff_00ff) + ((n & 0xff00_ff00) >> 8) }
  function Add5(n: bv32): bv32 { (n & 0x0000_ffff) + ((n & 0xffff_0000) >> 16) }

  function Parity(n: bv32): bv32 {
    Add5(Add4(Add3(Add2(Add1(n))))) & 1
  }

  // The exclusive or of bits D0 to D(n-1), one after the other, as the bit-banging driver keeps it.
  function XorBits(v: bv32, n: nat): bool {
    if n == 0 then false else XorBits(v, n - 1) != BitAt(v, n - 1)
  }

  // The exclusive or of n bits, starting at p and s apart.
  function XorFrom(v: bv32, p: nat, n: nat, s: nat): bool
    decreases n
  {
    if n == 0 then false else BitAt(v, p) != XorFrom(v, p + s, n - 1, s)
  }

  lemma {:induction false} XorFromLast(v: bv32, p: nat, n: nat)
    ensures XorFrom(v, p, n + 1, 1) == (XorFrom(v, p, n, 1) != BitAt(v, p + n))
    decreases n
  {
    if n > 0 {
      XorFromLast(v, p + 1, n - 1);
    } else {
      assert XorFrom(v, p + 1, 0, 1) == false;
    }
  }

  lemma {:induction false} XorInOrder(v: bv32, n: nat)
    ensures XorBits(v, n) == XorFrom(v, 0, n, 1)
  {
    if n > 0 {
      XorInOrder(v, n - 1);
      XorFromLast(v, 0, n - 1);
    }
  }

  function ShiftDown(x: bv32, w: nat): bv32 {
    if w == 0 then x else ShiftDown(x >> 1, w - 1)
  }

  // Each bit combined with the one w places further up.
  function Mix(x: bv32, w: nat): bv32 {
    x ^ ShiftDown(x, w)
  }

  lemma {:induction false} ShiftDownTwice(x: bv32, a: nat, b: nat)
    ensures ShiftDown(ShiftDown(x, a), b) == ShiftDown(x, a + b)
    decreases a
  {
    if a > 0 {
      ShiftDownTwice(x >> 1, a - 1, b);
    }
  }

  lemma ShiftByOne(x: bv32)
    ensures ShiftDown(x, 1) == x >> 1
  {
    assert ShiftDown(x >> 1, 0) == x >> 1;
  }

  lemma Shifts(x: bv32, y: bv32)
    ensures y == x >> 1 ==> y >> 1 == x >> 2
    ensures y == x >> 2 ==> y >> 2 == x >> 4
    ensures y == x >> 4 ==> y >> 4 == x >> 8
    ensures y == x >> 8 ==> y >> 8 == x >> 16
  {
  }

  lemma ShiftByTwo(x: bv32)
    ensures ShiftDown(x, 2) == x >> 2
  {
    hide ShiftDown;
    ShiftDownTwice(x, 1, 1);
    ShiftByOne(x);
    ShiftByOne(x >> 1);
    Shifts(x, x >> 1);
  }

  lemma ShiftByFour(x: bv32)
    ensures ShiftDown(x, 4) == x >> 4
  {
    hide ShiftDown;
    ShiftDownTwice(x, 2, 2);
    ShiftByTwo(x);
    ShiftByTwo(x >> 2);
    Shifts(x, x >> 2);
  }

  lemma ShiftByEight(x: bv32)
    ensures ShiftDown(x, 8) == x >> 8
  {
    hide ShiftDown;
    ShiftDownTwice(x, 4, 4);
    ShiftByFour(x);
    ShiftByFour(x >> 4);
    Shifts(x, x >> 4);
  }

  lemma ShiftBySixteen(x: bv32)
    ensures ShiftDown(x, 16) == x >> 16
  {
    hide ShiftDown;
    ShiftDownTwice(x, 8, 8);
    ShiftByEight(x);
    ShiftByEight(x >> 8);
    Shifts(x, x >> 8);
  }

  lemma ShiftDownStep(x: bv32, w: nat)
    requires w > 0
    ensures ShiftDown(x, w) == ShiftDown(x >> 1, w - 1)
  {
  }

  lemma {:induction false} ShiftedDownAt(x: bv32, w: nat, k: nat)
    ensures BitAt(ShiftDown(x, w), k) == BitAt(x, k + w)
    decreases w
  {
    hide BitAt, ShiftDown;
    if w == 0 {
      ShiftNone(x);
    } else {
      ShiftDownStep(x, w);
      ShiftedDownAt(x >> 1, w - 1, k);
      OneDown(x, k + w);
    }
  }

  lemma ShiftNone(x: bv32)
    ensures ShiftDown(x, 0) == x
  {
  }

  lemma OneDown(x: bv32, k: nat)
    requires k > 0
    ensures BitAt(x >> 1, k - 1) == BitAt(x, k)
  {
    hide BitAt;
    if k < 32 {
      BitStep(x, k);
    } else {
      BitBeyond(x, k);
      if k == 32 {
        TopGone(x);
      } else {
        BitBeyond(x >> 1, k - 1);
      }
    }
  }

  // The lowest bit of each sum is the exclusive or of the lowest bits of the two fields.
  lemma LowOf1(n: bv32, x: bv32)
    requires n & 0xffff_ffff == x & 0xffff_ffff
    ensures Add1(n) & 0x5555_5555 == (x ^ (x >> 1)) & 0x5555_5555
  {
  }

  lemma LowOf2(n: bv32, x: bv32)
    requires n & 0x5555_5555 == x & 0x5555_5555
    ensures Add2(n) & 0x1111_1111 == (x ^ (x >> 2)) & 0x1111_1111
  {
  }

  lemma LowOf3(n: bv32, x: bv32)
    requires n & 0x1111_1111 == x & 0x1111_1111
    ensures Add3(n) & 0x0101_0101 == (x ^ (x >> 4)) & 0x0101_0101
  {
  }

  lemma LowOf4(n: bv32, x: bv32)
    requires n & 0x0101_0101 == x & 0x0101_0101
    ensures Add4(n) & 0x0001_0001 == (x ^ (x >> 8)) & 0x0001_0001
  {
  }

  lemma LowOf5(n: bv32, x: bv32)
    requires n & 0x0001_0001 == x & 0x0001_0001
    ensures Add5(n) & 1 == (x ^ (x >> 16)) & 1
  {
  }

  // c is the exclusive or of a and b, bit by bit.
  lemma XorZero(a: bv32, b: bv32, c: bv32)
    requires c == a ^ b
    ensures BitAt(c, 0) == (BitAt(a, 0) != BitAt(b, 0))
  {
    hide BitAt;
    BitZero(a);
    BitZero(b);
    BitZero(c);
  }

  lemma XorDown(a: bv32, b: bv32, c: bv32)
    requires c == a ^ b
    ensures c >> 1 == (a >> 1) ^ (b >> 1)
  {
  }

  lemma {:induction false} XorAt(a: bv32, b: bv32, c: bv32, k: nat)
    requires c == a ^ b
    ensures BitAt(c, k) == (BitAt(a, k) != BitAt(b, k))
    decreases k
  {
    hide BitAt;
    if k == 0 {
      XorZero(a, b, c);
    } else {
      OneDown(a, k);
      OneDown(b, k);
      OneDown(c, k);
      XorDown(a, b, c);
      XorAt(a >> 1, b >> 1, c >> 1, k - 1);
    }
  }

  lemma MixAt(x: bv32, w: nat, k: nat)
    ensures BitAt(Mix(x, w), k) == (BitAt(x, k) != BitAt(x, k + w))
  {
    hide BitAt, ShiftDown;
    XorAt(x, ShiftDown(x, w), Mix(x, w), k);
    ShiftedDownAt(x, w, k);
  }

  lemma {:induction false} XorOfMix(x: bv32, w: nat, p: nat, n: nat)
    ensures XorFrom(Mix(x, w), p, n, 2 * w) == XorFrom(x, p, 2 * n, w)
    decreases n
  {
    hide Mix, BitAt;
    if n > 0 {
      MixAt(x, w, p);
      XorOfMix(x, w, p + 2 * w, n - 1);
      assert XorFrom(x, p, 2 * n, w) == (BitAt(x, p) != XorFrom(x, p + w, 2 * n - 1, w));
      assert XorFrom(x, p + w, 2 * n - 1, w) == (BitAt(x, p + w) != XorFrom(x, p + w + w, 2 * n - 2, w));
    }
  }

  lemma LowStep1(n: bv32, x: bv32)
    requires n & 0xffff_ffff == x & 0xffff_ffff
    ensures Add1(n) & 0x5555_5555 == Mix(x, 1) & 0x5555_5555
  {
    hide Add1, ShiftDown;
    LowOf1(n, x);
    ShiftByOne(x);
  }

  lemma LowStep2(n: bv32, x: bv32)
    requires n & 0x5555_5555 == x & 0x5555_5555
    ensures Add2(n) & 0x1111_1111 == Mix(x, 2) & 0x1111_1111
  {
    hide Add2, ShiftDown;
    LowOf2(n, x);
    ShiftByTwo(x);
  }

  lemma LowStep3(n: bv32, x: bv32)
    requires n & 0x1111_1111 == x & 0x1111_1111
    ensures Add3(n) & 0x0101_0101 == Mix(x, 4) & 0x0101_0101
  {
    hide Add3, ShiftDown;
    LowOf3(n, x);
    ShiftByFour(x);
  }

  lemma LowStep4(n: bv32, x: bv32)
    requires n & 0x0101_0101 == x & 0x0101_0101
    ensures Add4(n) & 0x0001_0001 == Mix(x, 8) & 0x0001_0001
  {
    hide Add4, ShiftDown;
    LowOf4(n, x);
    ShiftByEight(x);
  }

  lemma LowStep5(n: bv32, x: bv32)
    requires n & 0x0001_0001 == x & 0x0001_0001
    ensures Add5(n) & 1 == Mix(x, 16) & 1
  {
    hide Add5, ShiftDown;
    LowOf5(n, x);
    ShiftBySixteen(x);
  }

  /** The mask tree gives the parity of the word: the exclusive or of its bits one after the other. */
  lemma ParityIsXor(v: bv32)
    ensures (Parity(v) == 1) == XorBits(v, 32) && (Parity(v) == 0 || Parity(v) == 1)
  {
    hide Add1, Add2, Add3, Add4, Add5, Mix, BitAt;
    var a, x := Add1(v), Mix(v, 1);
    var b, y := Add2(a), Mix(x, 2);
    var c, z := Add3(b), Mix(y, 4);
    var d, u := Add4(c), Mix(z, 8);
    LowStep1(v, v);
    LowStep2(a, x);
    LowStep3(b, y);
    LowStep4(c, z);
    LowStep5(d, u);
    XorInOrder(v, 32);
    XorOfMix(v, 1, 0, 16);
    XorOfMix(x, 2, 0, 8);
    XorOfMix(y, 4, 0, 4);
    XorOfMix(z, 8, 0, 2);
    XorOfMix(u, 16, 0, 1);
    LowBit(Mix(u, 16));
  }

  lemma LowBit(x: bv32)
    ensures XorFrom(x, 0, 1, 32) == (x & 1 == 1) && (x & 1 == 0 || x & 1 == 1)
  {
    assert XorFrom(x, 32, 0, 32) == false;
  }

  // ----- words from bits -----

  // r holds exactly these bits, the first one as D0.
  predicate Holds(r: bv32, bits: seq<bool>) {
    |bits| <= 32 && forall k: nat :: k < 32 ==> BitAt(r, k) == (k < |bits| && bits[k])
  }

  lemma HeldWord(r: bv32, bits: seq<bool>)
    requires |bits| == 32 && Holds(r, bits)
    ensures LsbFirst(r, 32) == bits
  {
    hide BitAt;
    forall k: nat | k < 32
      ensures LsbFirst(r, 32)[k] == bits[k]
    {
      LsbFirstAt(r, 32, k);
    }
  }

  lemma NothingHeld(bits: seq<bool>)
    requires bits == []
    ensures Holds(0, bits)
  {
    forall k: nat | k < 32
      ensures !BitAt(0, k)
    {
      BitAtIs(0, k);
      NoBit(Idx(k));
    }
  }

  lemma NoBit(k: bv6)
    requires k <= 33
    ensures !Bit(0, k)
  {
  }

  // The mask the receiving loop has shifted up j times, and the header shifted up.
  function OneAt(j: nat): bv32 {
    if j == 0 then 1 else OneAt(j - 1) << 1
  }

  function Shifted(v: bv32, j: nat): bv32 {
    if j == 0 then v else Shifted(v, j - 1) << 1
  }

  lemma OneAtStart()
    ensures OneAt(0) == 1
  {
  }

  lemma OneAtNext(j: nat)
    ensures OneAt(j + 1) == OneAt(j) << 1
  {
  }

  lemma OneShift(j: bv6)
    requires j < 32
    ensures ((1 as bv32) << j) << 1 == (1 as bv32) << (j + 1)
  {
  }

  lemma {:induction false} OneAtIs(j: nat)
    requires j < 32
    ensures Idx(j) < 32 && OneAt(j) == (1 as bv32) << Idx(j)
  {
    IdxBelow(j, 32);
    IdxValues();
    if j > 0 {
      OneAtIs(j - 1);
      OneShift(Idx(j - 1));
    }
  }

  lemma OneBit(one: bv32, j: bv6, k: bv6)
    requires j < 32 && k < 32 && one == 1 << j
    ensures Bit(one, k) == (k == j)
  {
  }

  lemma OneAtBit(one: bv32, j: nat, k: nat)
    requires j < 32 && k < 32 && one == OneAt(j)
    ensures BitAt(one, k) == (k == j)
  {
    hide BitAt, Bit, OneAt;
    OneAtIs(j);
    BitAtIs(one, k);
    OneBit(one, Idx(j), Idx(k));
    IdxSame(j, k);
  }

  lemma OrZero(a: bv32, b: bv32, c: bv32)
    requires c == a | b
    ensures BitAt(c, 0) == (BitAt(a, 0) || BitAt(b, 0))
  {
    hide BitAt;
    BitZero(a);
    BitZero(b);
    BitZero(c);
  }

  lemma OrDown(a: bv32, b: bv32, c: bv32)
    requires c == a | b
    ensures c >> 1 == (a >> 1) | (b >> 1)
  {
  }

  lemma {:induction false} OrAt(a: bv32, b: bv32, c: bv32, k: nat)
    requires c == a | b
    ensures BitAt(c, k) == (BitAt(a, k) || BitAt(b, k))
    decreases k
  {
    hide BitAt;
    if k == 0 {
      OrZero(a, b, c);
    } else {
      OneDown(a, k);
      OneDown(b, k);
      OneDown(c, k);
      OrDown(a, b, c);
      OrAt(a >> 1, b >> 1, c >> 1, k - 1);
    }
  }

  lemma IdxSame(j: nat, k: nat)
    requires j < 32 && k < 32
    ensures (Idx(j) == Idx(k)) == (j == k)
  {
    if j < k {
      IdxBelow(j, k);
    } else if k < j {
      IdxBelow(k, j);
    }
  }

  lemma SetBitAt(n: bv32, m: bv32, j: nat, k: nat)
    requires j < 32 && k < 32 && m == n | OneAt(j)
    ensures BitAt(m, k) == (BitAt(n, k) || k == j)
  {
    hide BitAt, OneAt;
    OrAt(n, OneAt(j), m, k);
    OneAtBit(OneAt(j), j, k);
  }

  lemma OneMoreBit(n: bv32, m: bv32, bits: seq<bool>, k: nat)
    requires |bits| < 32 && k < 32
    requires BitAt(n, k) == (k < |bits| && bits[k])
    requires BitAt(m, k) == (BitAt(n, k) || k == |bits|)
    ensures BitAt(m, k) == (k < |bits| + 1 && (bits + [true])[k])
  {
  }

  lemma HoldsTrue(n: bv32, m: bv32, bits: seq<bool>)
    requires |bits| < 32 && Holds(n, bits) && m == n | OneAt(|bits|)
    ensures Holds(m, bits + [true])
  {
    hide BitAt, OneAt;
    forall k: nat | k < 32
      ensures BitAt(m, k) == (k < |bits| + 1 && (bits + [true])[k])
    {
      SetBitAt(n, m, |bits|, k);
      OneMoreBit(n, m, bits, k);
    }
  }

  lemma HoldsOneMore(n: bv32, bits: seq<bool>, b: bool)
    requires |bits| < 32 && Holds(n, bits)
    ensures Holds(if b then n | OneAt(|bits|) else n, bits + [b])
  {
    if b {
      HoldsTrue(n, n | OneAt(|bits|), bits);
    }
  }

  // What the sending loop sees after j shifts.
  lemma LowestLeft(v: bv32, j: nat)
    ensures ShiftDown(v, j) & 1 == if BitAt(v, j) then 1 else 0
  {
    hide BitAt, ShiftDown;
    ShiftedDownAt(v, j, 0);
    LowestIs(ShiftDown(v, j));
  }

  lemma LowestIs(x: bv32)
    ensures x & 1 == if BitAt(x, 0) then 1 else 0
  {
    hide BitAt;
    BitZero(x);
  }

  // What the header loop sees after n shifts.
  lemma TopBit(hdr: bv32, n: nat)
    requires n < 8
    ensures (Shifted(hdr, n) & 0x80 != 0) == BitAt(hdr, 7 - n)
  {
    IdxValues();
    ShiftedIs(hdr, n);
    TopOf(hdr, Idx(n));
    IdxAdd(7 - n, n);
    BitAtIs(hdr, 7 - n);
  }

  lemma {:induction false} ShiftedIs(v: bv32, n: nat)
    requires n < 8
    ensures Idx(n) < 8 && Shifted(v, n) == v << Idx(n)
  {
    IdxBelow(n, 8);
    IdxValues();
    if n > 0 {
      ShiftedIs(v, n - 1);
      ShiftOnce(v, Idx(n - 1));
    }
  }

  lemma ShiftOnce(v: bv32, k: bv6)
    requires k < 8
    ensures (v << k) << 1 == v << (k + 1)
  {
  }

  lemma TopOf(v: bv32, k: bv6)
    requires k < 8
    ensures ((v << k) & 0x80 != 0) == Bit(v, 7 - k)
  {
  }

  // ----- what an SPI frame brings in -----

  function MsbWord(bits: seq<bool>): bv32 {
    if |bits| == 0 then 0
    else (MsbWord(bits[..|bits| - 1]) << 1) | (if bits[|bits| - 1] then 1 else 0)
  }

  lemma PushBit(v: bv32, b: bool, k: bv6)
    requires k < 32
    ensures Bit((v << 1) | (if b then 1 else 0), k) == if k == 0 then b else Bit(v, k - 1)
  {
  }

  lemma PushBitAt(v: bv32, b: bool, c: bv32, k: nat)
    requires k < 32 && c == (v << 1) | (if b then 1 else 0)
    ensures BitAt(c, k) == if k == 0 then b else BitAt(v, k - 1)
  {
    hide BitAt, Bit;
    BitAtIs(c, k);
    PushBit(v, b, Idx(k));
    if k > 0 {
      BitAtIs(v, k - 1);
      IdxBelow(0, k);
    }
  }

  lemma MsbWordStep(bits: seq<bool>)
    requires bits != []
    ensures MsbWord(bits) == (MsbWord(bits[..|bits| - 1]) << 1) | (if bits[|bits| - 1] then 1 else 0)
  {
  }

  lemma {:induction false} MsbWordBit(bits: seq<bool>, k: nat)
    requires k < 32
    ensures BitAt(MsbWord(bits), k) == (k < |bits| && bits[|bits| - 1 - k])
    decreases |bits|
  {
    hide BitAt, Bit, MsbWord;
    if |bits| == 0 {
      NoBitsNoWord(bits);
      BitAtIs(0, k);
      NoBit(Idx(k));
    } else {
      var front := bits[..|bits| - 1];
      MsbWordStep(bits);
      PushBitAt(MsbWord(front), bits[|bits| - 1], MsbWord(bits), k);
      if k > 0 {
        MsbWordBit(front, k - 1);
      }
    }
  }

  lemma NoBitsNoWord(bits: seq<bool>)
    requires bits == []
    ensures MsbWord(bits) == 0
  {
  }

  // ----- the frames of the write data phase -----

  lemma TopFrameBit(r: bv32, k: bv6)
    requires k < 9
    ensures Bit(0x100 | (r >> 24), k) == (k == 8 || Bit(r, k + 24))
  {
  }

  lemma LastFrameBit(r: bv32, p: bv32, k: bv6)
    requires p <= 1 && k < 32
    ensures Bit((r << 1) | p, k) == if k == 0 then p == 1 else Bit(r, k - 1)
  {
  }

  lemma TopFrame(r: bv32, k: nat)
    requires k < 9
    ensures BitAt(0x100 | (r >> 24), k) == (k == 8 || BitAt(r, k + 24))
  {
    IdxValues();
    BitAtIs(0x100 | (r >> 24), k);
    IdxBelow(k, 9);
    TopFrameBit(r, Idx(k));
    IdxAdd(k, 24);
    if k < 8 {
      BitAtIs(r, k + 24);
    }
  }

  lemma MiddleFrame(r: bv32, k: nat)
    ensures BitAt(r >> 8, k) == BitAt(r, k + 8)
  {
    hide BitAt, ShiftDown;
    ShiftByEight(r);
    ShiftedDownAt(r, 8, k);
  }

  lemma LastFrame(r: bv32, p: bv32, k: nat)
    requires p <= 1 && k < 32
    ensures BitAt((r << 1) | p, k) == if k == 0 then p == 1 else BitAt(r, k - 1)
  {
    BitAtIs((r << 1) | p, k);
    LastFrameBit(r, p, Idx(k));
    if k > 0 {
      BitAtIs(r, k - 1);
      IdxBelow(0, k);
    }
  }

  // r is v turned round.
  ghost predicate Reverses(r: bv32, v: bv32) {
    forall k: nat :: k < 32 ==> BitAt(r, k) == BitAt(v, 31 - k)
  }

  lemma ReversedAt(r: bv32, v: bv32, k: nat)
    requires Reverses(r, v) && k < 32
    ensures BitAt(r, k) == BitAt(v, 31 - k)
  {
  }

  lemma TopFrameBitIs(v: bv32, r: bv32, k: nat)
    requires Reverses(r, v)
    requires k < 9
    ensures SpiFrame(0x100 | (r >> 24), 9)[k] == (k == 0 || LsbFirst(v, 8)[k - 1])
  {
    hide BitAt, SpiFrame, LsbFirst, Reverses;
    SpiFrameAt(0x100 | (r >> 24), 9, k);
    TopFrame(r, 8 - k);
    if k > 0 {
      LsbFirstAt(v, 8, k - 1);
      ReversedAt(r, v, 32 - k);
    }
  }

  lemma TopFrameIs(v: bv32, r: bv32)
    requires Reverses(r, v)
    ensures SpiFrame(0x100 | (r >> 24), 9) == [true] + LsbFirst(v, 8)
  {
    hide BitAt, SpiFrame, LsbFirst, Reverses;
    forall k: nat | k < 9
      ensures SpiFrame(0x100 | (r >> 24), 9)[k] == ([true] + LsbFirst(v, 8))[k]
    {
      TopFrameBitIs(v, r, k);
    }
  }

  lemma MiddleFrameBitIs(v: bv32, r: bv32, k: nat)
    requires Reverses(r, v)
    requires k < 16
    ensures SpiFrame(r >> 8, 16)[k] == LsbFirst(v, 32)[8 + k]
  {
    hide BitAt, SpiFrame, LsbFirst, Reverses;
    SpiFrameAt(r >> 8, 16, k);
    LsbFirstAt(v, 32, 8 + k);
    MiddleFrame(r, 15 - k);
    ReversedAt(r, v, 23 - k);
  }

  lemma MiddleFrameIs(v: bv32, r: bv32)
    requires Reverses(r, v)
    ensures SpiFrame(r >> 8, 16) == LsbFirst(v, 32)[8..24]
  {
    hide BitAt, SpiFrame, LsbFirst, Reverses;
    var w, word := r >> 8, LsbFirst(v, 32);
    forall k: nat | k < 16
      ensures SpiFrame(w, 16)[k] == word[8 + k]
    {
      MiddleFrameBitIs(v, r, k);
    }
  }

  lemma LastFrameBitIs(v: bv32, r: bv32, p: bv32, k: nat)
    requires Reverses(r, v)
    requires p <= 1 && k < 9
    ensures SpiFrame((r << 1) | p, 9)[k] == if k == 8 then p == 1 else LsbFirst(v, 32)[24 + k]
  {
    hide BitAt, SpiFrame, LsbFirst, Reverses;
    SpiFrameAt((r << 1) | p, 9, k);
    LastFrame(r, p, 8 - k);
    if k < 8 {
      LsbFirstAt(v, 32, 24 + k);
      ReversedAt(r, v, 7 - k);
    }
  }

  lemma LastFrameIs(v: bv32, r: bv32, p: bv32)
    requires Reverses(r, v)
    requires p <= 1
    ensures SpiFrame((r << 1) | p, 9) == LsbFirst(v, 32)[24..] + [p == 1]
  {
    hide BitAt, SpiFrame, LsbFirst, Reverses;
    var w, word := (r << 1) | p, LsbFirst(v, 32);
    forall k: nat | k < 9
      ensures SpiFrame(w, 9)[k] == if k == 8 then p == 1 else word[24 + k]
    {
      LastFrameBitIs(v, r, p, k);
    }
  }

  /** The 9, 16 and 9 bit frames of a write put one 1, the word from D0 to D31 and its parity on the wire. */
  lemma DataFrames(v: bv32, r: bv32, p: bv32)
    requires r == RevBits(v) && p == Parity(v)
    ensures SpiFrame(0x100 | (r >> 24), 9) + SpiFrame(r >> 8, 16) + SpiFrame((r << 1) | p, 9)
         == [true] + LsbFirst(v, 32) + [XorBits(v, 32)]
  {
    hide SpiFrame, LsbFirst, RevBits, Parity, XorBits, Reverses;
    ParityIsXor(v);
    RevBitsReverse(v, r);
    FramesOf(v, r, p);
  }

  lemma RevBitsReverse(v: bv32, r: bv32)
    requires r == RevBits(v)
    ensures Reverses(r, v)
  {
    hide BitAt, RevBits;
    forall k: nat | k < 32
      ensures BitAt(r, k) == BitAt(v, 31 - k)
    {
      RevBitsReverses(v, k);
    }
  }

  lemma FramesOf(v: bv32, r: bv32, p: bv32)
    requires Reverses(r, v) && p <= 1
    ensures SpiFrame(0x100 | (r >> 24), 9) + SpiFrame(r >> 8, 16) + SpiFrame((r << 1) | p, 9)
         == [true] + LsbFirst(v, 32) + [p == 1]
  {
    hide SpiFrame, LsbFirst, Reverses;
    TopFrameIs(v, r);
    MiddleFrameIs(v, r);
    LastFrameIs(v, r, p);
    LowByteFirst(v);
    ThreeParts(LsbFirst(v, 32), LsbFirst(v, 8), p == 1);
  }

  lemma LowByteFirst(v: bv32)
    ensures LsbFirst(v, 8) == LsbFirst(v, 32)[..8]
  {
    forall k: nat | k < 8
      ensures LsbFirst(v, 8)[k] == LsbFirst(v, 32)[k]
    {
      LsbFirstAt(v, 8, k);
      LsbFirstAt(v, 32, k);
    }
  }

  lemma ThreeParts(word: seq<bool>, low: seq<bool>, p: bool)
    requires |word| == 32 && low == word[..8]
    ensures [true] + low + word[8..24] + (word[24..] + [p]) == [true] + word + [p]
  {
  }

  // ----- the frames of the read data phase -----

  lemma JoinBit(a: bv32, b: bv32, c: bv32, k: bv6)
    requires k < 32
    ensures Bit((a << 16) | (b << 8) | (c >> 2), k)
         == ((k >= 16 && Bit(a, k - 16)) || (k >= 8 && Bit(b, k - 8)) || Bit(c, k + 2))
  {
  }

  lemma JoinAt(a: bv32, b: bv32, c: bv32, k: nat)
    requires k < 32
    ensures BitAt((a << 16) | (b << 8) | (c >> 2), k)
         == ((k >= 16 && BitAt(a, k - 16)) || (k >= 8 && BitAt(b, k - 8)) || BitAt(c, k + 2))
  {
    BitAtIs((a << 16) | (b << 8) | (c >> 2), k);
    JoinBit(a, b, c, Idx(k));
    BitUp(c, k, 2);
    BitDown(b, k, 8);
    BitDown(a, k, 16);
  }

  lemma BitUp(v: bv32, k: nat, n: nat)
    requires k < 32 && n <= 2
    ensures Idx(k) < 32 && Idx(k) + Idx(n) <= 33 && BitAt(v, k + n) == Bit(v, Idx(k) + Idx(n))
    ensures Idx(n) == n as bv6
  {
    IdxValues();
    IdxBelow(k, 32);
    IdxAdd(k, n);
    if k + n < 32 {
      BitAtIs(v, k + n);
    }
  }

  lemma IdxDown(k: nat, n: nat)
    requires n <= k < 32
    ensures Idx(n) <= Idx(k) && Idx(k - n) == Idx(k) - Idx(n)
  {
    IdxAdd(k - n, n);
    if k > n {
      IdxBelow(n, k);
    }
    IdxStep(k);
  }

  lemma BitDown(v: bv32, k: nat, n: nat)
    requires k < 32 && n < 32
    ensures Idx(k) < 32 && Idx(n) < 32 && (k >= n) == (Idx(k) >= Idx(n))
    ensures k >= n ==> BitAt(v, k - n) == Bit(v, Idx(k) - Idx(n))
  {
    IdxBelow(k, 32);
    IdxBelow(n, 32);
    assert Idx(32) == 32 by { IdxValues(); }
    if k >= n {
      IdxDown(k, n);
      BitAtIs(v, k - n);
    } else {
      IdxBelow(k, n);
    }
  }

  function Joined(a: bv32, b: bv32, c: bv32): bv32 {
    RevBits((a << 16) | (b << 8) | (c >> 2))
  }

  lemma JoinedAt(a: bv32, b: bv32, c: bv32, k: nat)
    requires k < 32
    ensures BitAt(Joined(a, b, c), k)
         == ((k < 16 && BitAt(a, 15 - k)) || (k < 24 && BitAt(b, 23 - k)) || BitAt(c, 33 - k))
  {
    RevBitsReverses((a << 16) | (b << 8) | (c >> 2), k);
    JoinAt(a, b, c, 31 - k);
  }

  lemma MsbWordAt(bits: seq<bool>, k: int)
    requires |bits| <= 32 && 0 <= |bits| - 1 - k
    ensures BitAt(MsbWord(bits), |bits| - 1 - k) == (k >= 0 && bits[k])
  {
    if |bits| - 1 - k < 32 {
      MsbWordBit(bits, |bits| - 1 - k);
    }
  }

  // The 16, 8 and 10 bit frames of a read hold the 32 data bits, first bit D0, and two bits more.
  lemma JoinedBit(x: seq<bool>, y: seq<bool>, z: seq<bool>, k: nat)
    requires |x| == 16 && |y| == 8 && |z| == 10 && k < 32
    ensures BitAt(Joined(MsbWord(x), MsbWord(y), MsbWord(z)), k) == (x + y + z)[k]
  {
    hide BitAt, Joined, MsbWord;
    var a, b, c := MsbWord(x), MsbWord(y), MsbWord(z);
    JoinedAt(a, b, c, k);
    MsbWordAt(z, k - 24);
    if k < 24 {
      MsbWordAt(y, k - 16);
    }
    if k < 16 {
      MsbWordAt(x, k);
    }
    PickBit(x, y, z, k);
  }

  lemma PickBit(x: seq<bool>, y: seq<bool>, z: seq<bool>, k: nat)
    requires |x| == 16 && |y| == 8 && |z| == 10 && k < 32
    ensures (x + y + z)[k] == if k < 16 then x[k] else if k < 24 then y[k - 16] else z[k - 24]
  {
  }

  /** The word put together from the three frames of a read is the 32 data bits, the first one D0. */
  lemma JoinedData(x: seq<bool>, y: seq<bool>, z: seq<bool>)
    requires |x| == 16 && |y| == 8 && |z| == 10
    ensures LsbFirst(Joined(MsbWord(x), MsbWord(y), MsbWord(z)), 32) == (x + y + z)[..32]
  {
    hide BitAt, Joined, MsbWord;
    var w, word := Joined(MsbWord(x), MsbWord(y), MsbWord(z)), x + y + z;
    forall k: nat | k < 32
      ensures LsbFirst(w, 32)[k] == word[k]
    {
      LsbFirstAt(w, 32, k);
      JoinedBit(x, y, z, k);
    }
  }

  // ----- request and answer -----

  lemma HighZero(n: bv32, k: bv6)
    requires n < 0x100 && 8 <= k <= 33
    ensures !Bit(n, k)
  {
  }

  // A header in a 16-bit frame goes out behind eight zeros.
  lemma HeaderFrame(n: bv32)
    requires n < 0x100
    ensures SpiFrame(n, 16) == seq(8, i => false) + SpiFrame(n, 8)
  {
    forall k: nat | k < 16
      ensures SpiFrame(n, 16)[k] == (k >= 8 && SpiFrame(n, 8)[k - 8])
    {
      HeaderBit(n, k);
    }
  }

  lemma HeaderBit(n: bv32, k: nat)
    requires n < 0x100 && k < 16
    ensures SpiFrame(n, 16)[k] == (k >= 8 && SpiFrame(n, 8)[k - 8])
  {
    SpiFrameAt(n, 16, k);
    if k >= 8 {
      SpiFrameAt(n, 8, k - 8);
    } else {
      IdxValues();
      IdxBelow(7, 15 - k);
      BitAtIs(n, 15 - k);
      HighZero(n, Idx(15 - k));
    }
  }

  lemma AckValue(a: bv32)
    ensures (a & 7 == 4) == (Bit(a, 2) && !Bit(a, 1) && !Bit(a, 0))
    ensures (a & 7 == 2) == (!Bit(a, 2) && Bit(a, 1) && !Bit(a, 0))
  {
  }

  // The four-bit frame that holds the turnaround and the answer.
  lemma AckFrame(four: seq<bool>)
    requires |four| == 4
    ensures (MsbWord(four) & 7 == 4) == (four[1] && !four[2] && !four[3])
    ensures (MsbWord(four) & 7 == 2) == (!four[1] && four[2] && !four[3])
  {
    IdxValues();
    AckValue(MsbWord(four));
    forall k: nat | k < 3
      ensures BitAt(MsbWord(four), k) == four[3 - k] && BitAt(MsbWord(four), k) == Bit(MsbWord(four), Idx(k))
    {
      MsbWordBit(four, k);
      BitAtIs(MsbWord(four), k);
    }
    var a := MsbWord(four);
    assert BitAt(a, 0) == four[3] && BitAt(a, 1) == four[2] && BitAt(a, 2) == four[1];
  }

  lemma {:induction false} NoBitAt(k: nat)
    ensures !BitAt(0, k)
  {
    if k < 32 {
      BitAtIs(0, k);
      NoBit(Idx(k));
    }
  }

  lemma BitsOfOne(k: nat)
    ensures BitAt(1, k) == (k == 0)
  {
    if k > 0 {
      NoBitAt(k - 1);
      assert (1 as bv32) >> 1 == 0;
    }
  }

  // The three answer bits as the bit-banging driver receives them.
  lemma AckBits(n: bv32, three: seq<bool>)
    requires |three| == 3 && Holds(n, three)
    ensures (n == 1) == (three[0] && !three[1] && !three[2])
  {
    BitsOfOne(0);
    BitsOfOne(1);
    BitsOfOne(2);
    if three == [true, false, false] {
      forall k: nat | k < 32
        ensures BitAt(n, k) == BitAt(1, k)
      {
        BitsOfOne(k);
      }
      WordFixed(n, 1);
    }
  }

  // ----- a word is fixed by its bits -----

  lemma AllBits(a: bv32, b: bv32)
    requires Bit(a, 0) == Bit(b, 0) && Bit(a, 1) == Bit(b, 1) && Bit(a, 2) == Bit(b, 2)
    requires Bit(a, 3) == Bit(b, 3) && Bit(a, 4) == Bit(b, 4) && Bit(a, 5) == Bit(b, 5)
    requires Bit(a, 6) == Bit(b, 6) && Bit(a, 7) == Bit(b, 7) && Bit(a, 8) == Bit(b, 8)
    requires Bit(a, 9) == Bit(b, 9) && Bit(a, 10) == Bit(b, 10) && Bit(a, 11) == Bit(b, 11)
    requires Bit(a, 12) == Bit(b, 12) && Bit(a, 13) == Bit(b, 13) && Bit(a, 14) == Bit(b, 14)
    requires Bit(a, 15) == Bit(b, 15) && Bit(a, 16) == Bit(b, 16) && Bit(a, 17) == Bit(b, 17)
    requires Bit(a, 18) == Bit(b, 18) && Bit(a, 19) == Bit(b, 19) && Bit(a, 20) == Bit(b, 20)
    requires Bit(a, 21) == Bit(b, 21) && Bit(a, 22) == Bit(b, 22) && Bit(a, 23) == Bit(b, 23)
    requires Bit(a, 24) == Bit(b, 24) && Bit(a, 25) == Bit(b, 25) && Bit(a, 26) == Bit(b, 26)
    requires Bit(a, 27) == Bit(b, 27) && Bit(a, 28) == Bit(b, 28) && Bit(a, 29) == Bit(b, 29)
    requires Bit(a, 30) == Bit(b, 30) && Bit(a, 31) == Bit(b, 31)
    ensures a == b
  {
  }

  lemma IndexOf(k: bv6) returns (i: nat)
    requires k < 32
    ensures i < 32 && Idx(i) == k
  {
    IdxValues();
    i := k as nat;
  }

  lemma WordFixed(a: bv32, b: bv32)
    requires forall k: nat :: k < 32 ==> BitAt(a, k) == BitAt(b, k)
    ensures a == b
  {
    forall k: bv6 | k < 32
      ensures Bit(a, k) == Bit(b, k)
    {
      var i := IndexOf(k);
      BitAtIs(a, i);
      BitAtIs(b, i);
    }
    AllBits(a, b);
  }

  /** Two words with the same wire bits are the same word. */
  lemma WordFixedByBits(a: bv32, b: bv32)
    requires LsbFirst(a, 32) == LsbFirst(b, 32)
    ensures a == b
  {
    forall k: nat | k < 32
      ensures BitAt(a, k) == BitAt(b, k)
    {
      LsbFirstAt(a, 32, k);
      LsbFirstAt(b, 32, k);
    }
    WordFixed(a, b);
  }

  // The word whose bits come in with D0 first.
  function LsbWord(bits: seq<bool>): bv32 {
    if |bits| == 0 then 0 else (LsbWord(bits[1..]) << 1) | (if bits[0] then 1 else 0)
  }

  lemma LsbWordStep(bits: seq<bool>)
    ensures bits == [] ==> LsbWord(bits) == 0
    ensures bits != [] ==> LsbWord(bits) == (LsbWord(bits[1..]) << 1) | (if bits[0] then 1 else 0)
  {
  }

  lemma {:induction false} LsbWordBit(bits: seq<bool>, k: nat)
    requires k < 32
    ensures BitAt(LsbWord(bits), k) == (k < |bits| && bits[k])
    decreases |bits|
  {
    hide BitAt, Bit, LsbWord;
    LsbWordStep(bits);
    if |bits| == 0 {
      BitAtIs(0, k);
      NoBit(Idx(k));
    } else {
      PushBitAt(LsbWord(bits[1..]), bits[0], LsbWord(bits), k);
      if k > 0 {
        LsbWordBit(bits[1..], k - 1);
      }
    }
  }

  /** It is the one word with these wire bits. */
  lemma LsbWordExactly(v: bv32, bits: seq<bool>)
    requires |bits| == 32
    ensures v == LsbWord(bits) <==> LsbFirst(v, 32) == bits
  {
    hide BitAt, LsbWord, LsbFirst;
    forall k: nat | k < 32
      ensures LsbFirst(LsbWord(bits), 32)[k] == bits[k]
    {
      LsbFirstAt(LsbWord(bits), 32, k);
      LsbWordBit(bits, k);
    }
    assert LsbFirst(LsbWord(bits), 32) == bits;
    if LsbFirst(v, 32) == bits {
      WordFixedByBits(v, LsbWord(bits));
    }
  }
}
