/** Machine words, and words as four little-endian bytes. */
module Words {

  const TWO_32: int := 0x1_0000_0000

  type u32 = x: int | 0 <= x < 0x1_0000_0000
  type u16 = x: int | 0 <= x < 0x1_0000
  type byte = x: int | 0 <= x < 0x100

  // 32-bit unsigned addition and subtraction: the result is truncated.
  function Add32(a: int, b: int): (r: u32) {
    (a + b) % TWO_32
  }

  function Sub32(a: int, b: int): (r: u32) {
    (a - b) % TWO_32
  }

  lemma Add32None(x: u32)
    ensures Add32(x, 0) == x
  {
  }

  lemma Add32Twice(x: u32, a: int, b: int)
    ensures Add32(Add32(x, a), b) == Add32(x, a + b)
  {
    var q, r := (x + a) / TWO_32, (Add32(x, a) + b) / TWO_32;
    assert x + a == q * TWO_32 + Add32(x, a);
    assert x + a + b == (q + r) * TWO_32 + Add32(Add32(x, a), b);
  }

  // Dropping the low byte, and the low byte itself, of a number put together from the two.
  lemma SplitByte(q: int, b: byte)
    ensures (b + 0x100 * q) / 0x100 == q && (b + 0x100 * q) % 0x100 == b
  {
  }

  // Byte k of a word, byte 0 being the one at the lowest address.
  function ByteOf(w: u32, k: nat): (b: byte)
    requires k < 4
  {
    match k
    case 0 => w % 0x100
    case 1 => w / 0x100 % 0x100
    case 2 => w / 0x100 / 0x100 % 0x100
    case 3 => w / 0x100 / 0x100 / 0x100 % 0x100
  }

  function FromBytes(b0: byte, b1: byte, b2: byte, b3: byte): (w: u32)
    ensures ByteOf(w, 0) == b0 && ByteOf(w, 1) == b1 && ByteOf(w, 2) == b2 && ByteOf(w, 3) == b3
  {
    var high := b2 + 0x100 * b3;
    var upper := b1 + 0x100 * high;
    SplitByte(b3, b2);
    SplitByte(high, b1);
    SplitByte(upper, b0);
    b0 + 0x100 * upper
  }

  lemma BytesDetermineWord(w: u32)
    ensures FromBytes(ByteOf(w, 0), ByteOf(w, 1), ByteOf(w, 2), ByteOf(w, 3)) == w
  {
    var upper := w / 0x100;
    var high := upper / 0x100;
    assert w == w % 0x100 + 0x100 * upper;
    assert upper == upper % 0x100 + 0x100 * high;
    assert high == high % 0x100 + 0x100 * (high / 0x100);
    assert 0 <= high / 0x100 < 0x100;
  }

  function WordBytes(w: u32): seq<byte> {
    [ByteOf(w, 0), ByteOf(w, 1), ByteOf(w, 2), ByteOf(w, 3)]
  }

  // The bytes of a buffer of words, as memory holds them.
  function BytesOfWords(ws: seq<u32>): (bs: seq<byte>)
    ensures |bs| == 4 * |ws|
  {
    if ws == [] then [] else WordBytes(ws[0]) + BytesOfWords(ws[1..])
  }

  // A byte buffer read as words, as a pointer cast does; a partial last word is dropped.
  function WordsOfBytes(bs: seq<byte>): (ws: seq<u32>)
    ensures |ws| == |bs| / 4
  {
    if |bs| < 4 then [] else [FromBytes(bs[0], bs[1], bs[2], bs[3])] + WordsOfBytes(bs[4..])
  }

  lemma {:induction false} WordsSurviveBytes(ws: seq<u32>)
    ensures WordsOfBytes(BytesOfWords(ws)) == ws
  {
    if ws != [] {
      WordsSurviveBytes(ws[1..]);
      BytesDetermineWord(ws[0]);
      assert BytesOfWords(ws)[4..] == BytesOfWords(ws[1..]);
    }
  }

  lemma {:induction false} BytesSurviveWords(bs: seq<byte>)
    requires |bs| % 4 == 0
    ensures BytesOfWords(WordsOfBytes(bs)) == bs
  {
    if |bs| >= 4 {
      BytesSurviveWords(bs[4..]);
      assert WordBytes(FromBytes(bs[0], bs[1], bs[2], bs[3])) == bs[..4];
      assert bs == bs[..4] + bs[4..];
    }
  }
}
