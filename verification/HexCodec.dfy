/** Hexadecimal text as tools/gdb-bridge.c reads and writes it. */
module HexCodec {
  import opened Words

  const ULONG: int := 0x1_0000_0000_0000_0000

  function HexValue(c: byte): int {
    if '0' as int <= c <= '9' as int then c - '0' as int
    else if 'a' as int <= c <= 'f' as int then c - 'a' as int + 10
    else if 'A' as int <= c <= 'F' as int then c - 'A' as int + 10
    else -1
  }

  predicate IsHex(c: byte) { HexValue(c) >= 0 }

  predicate IsSpace(c: byte) { c == 0x20 || 0x09 <= c <= 0x0D }

  // strtoul(text, NULL, 16): leading space, a sign, an 0x prefix, then as many hexadecimal digits as there
  // are; no digits at all make zero.  The text ends at its first NUL, or with the sequence.
  function Strtoul(text: seq<byte>): nat {
    if text != [] && IsSpace(text[0]) then Strtoul(text[1..])
    else if text != [] && text[0] == '-' as int then (ULONG - Unprefixed(text[1..]) % ULONG) % ULONG
    else if text != [] && text[0] == '+' as int then Unprefixed(text[1..])
    else Unprefixed(text)
  }

  function Unprefixed(text: seq<byte>): nat {
    if |text| >= 3 && text[0] == '0' as int && (text[1] == 'x' as int || text[1] == 'X' as int) && IsHex(text[2])
    then Digits(text[2..], 0)
    else Digits(text, 0)
  }

  function Digits(text: seq<byte>, sofar: nat): nat {
    if text == [] || !IsHex(text[0]) then sofar else Digits(text[1..], 16 * sofar + HexValue(text[0]))
  }

  // Two hexadecimal digits are read as such.
  lemma StrtoulOfPair(a: byte, b: byte)
    requires IsHex(a) && IsHex(b)
    ensures Strtoul([a, b]) == 16 * HexValue(a) + HexValue(b)
  {
    var text := [a, b];
    assert text[1..] == [b] && text[1..][1..] == [];
    assert Digits(text, 0) == Digits([b], HexValue(a)) == Digits([], 16 * HexValue(a) + HexValue(b));
  }

  // Text that is not hexadecimal at all counts as zero.
  lemma StrtoulOfJunk(a: byte, b: byte)
    requires !IsHex(a) && !IsSpace(a) && a != '-' as int && a != '+' as int
    ensures Strtoul([a, b]) == 0
  {
  }

  // ----- writing -----

  function HexDigit(n: nat): byte
    requires n < 16
  {
    if n < 10 then '0' as int + n else 'a' as int + n - 10
  }

  // gdb_puthex
  function HexOf(bytes: seq<byte>): seq<byte> {
    if bytes == [] then [] else [HexDigit(bytes[0] / 16), HexDigit(bytes[0] % 16)] + HexOf(bytes[1..])
  }

  lemma HexDigitValue(n: nat)
    requires n < 16
    ensures HexValue(HexDigit(n)) == n
  {
  }

  // ----- numerals -----

  // Bytes as a numeral, the most significant first.
  function BigEndian(bytes: seq<byte>): nat {
    if bytes == [] then 0 else 0x100 * BigEndian(bytes[..|bytes| - 1]) + bytes[|bytes| - 1]
  }

  // The digits in order, in either case.
  const LOWER: string := "0123456789abcdef"
  const UPPER: string := "0123456789ABCDEF"

  predicate IsDigitFor(c: byte, v: nat) {
    v < 16 && (c == LOWER[v] as int || c == UPPER[v] as int)
  }

  lemma HexValueExactly(c: byte, v: nat)
    requires v < 16
    ensures HexValue(c) == v <==> IsDigitFor(c, v)
    ensures HexValue(c) == -1 || 0 <= HexValue(c) < 16
    ensures HexDigit(v) == LOWER[v] as int
  {
  }

  ghost predicate AllHex(text: seq<byte>) {
    forall i :: 0 <= i < |text| ==> IsHex(text[i])
  }

  // What a hexadecimal text stands for, the most significant digit first.
  function Numeral(text: seq<byte>): nat
    requires AllHex(text)
  {
    if text == [] then 0 else 16 * Numeral(text[..|text| - 1]) + HexValue(text[|text| - 1])
  }

  lemma {:induction false} DigitsLast(text: seq<byte>, c: byte, sofar: nat)
    requires AllHex(text) && IsHex(c)
    ensures Digits(text + [c], sofar) == 16 * Digits(text, sofar) + HexValue(c)
    decreases |text|
  {
    if text == [] {
      assert [c][1..] == [];
      assert Digits([c], sofar) == Digits([], 16 * sofar + HexValue(c));
    } else {
      assert (text + [c])[1..] == text[1..] + [c];
      DigitsLast(text[1..], c, 16 * sofar + HexValue(text[0]));
    }
  }

  lemma {:induction false} DigitsAreNumeral(text: seq<byte>)
    requires AllHex(text)
    ensures Digits(text, 0) == Numeral(text)
    decreases |text|
  {
    hide HexValue;
    if text != [] {
      var front, c := text[..|text| - 1], text[|text| - 1];
      assert text == front + [c];
      DigitsAreNumeral(front);
      DigitsLast(front, c, 0);
    }
  }

  // A digit is neither a space, nor a sign, nor the x of a prefix.
  lemma NotSpecial(c: byte)
    requires IsHex(c)
    ensures !IsSpace(c) && c != '-' as int && c != '+' as int && c != 'x' as int && c != 'X' as int
  {
  }

  /** A text of digits only, of either case, is read as the numeral it is. */
  lemma StrtoulIsNumeral(text: seq<byte>)
    requires AllHex(text)
    ensures Strtoul(text) == Numeral(text)
  {
    hide HexValue, Digits, Numeral, IsSpace, IsHex;
    DigitsAreNumeral(text);
    if text != [] {
      NotSpecial(text[0]);
    }
    if |text| >= 3 {
      NotSpecial(text[1]);
    }
  }

  lemma {:induction false} HexOfLast(bytes: seq<byte>, b: byte)
    ensures HexOf(bytes + [b]) == HexOf(bytes) + [HexDigit(b / 16), HexDigit(b % 16)]
    decreases |bytes|
  {
    if bytes == [] {
      assert [b][1..] == [] && HexOf([]) == [];
      assert bytes + [b] == [b];
    } else {
      assert (bytes + [b])[1..] == bytes[1..] + [b];
      HexOfLast(bytes[1..], b);
    }
  }

  /** The text written for some bytes is the hexadecimal numeral of the number they are, most significant byte first:
      two digits for each, the high one in front. */
  lemma {:induction false} HexIsNumeral(bytes: seq<byte>)
    ensures AllHex(HexOf(bytes)) && |HexOf(bytes)| == 2 * |bytes|
    ensures Numeral(HexOf(bytes)) == BigEndian(bytes)
    decreases |bytes|
  {
    if bytes != [] {
      var front, b := bytes[..|bytes| - 1], bytes[|bytes| - 1];
      assert bytes == front + [b];
      HexIsNumeral(front);
      HexOfLast(front, b);
      HexDigitValue(b / 16);
      HexDigitValue(b % 16);
      var text, high, low := HexOf(front), HexDigit(b / 16), HexDigit(b % 16);
      assert HexOf(bytes) == text + [high, low];
      assert (text + [high, low])[..|text| + 1] == text + [high] && (text + [high])[..|text|] == text;
    }
  }

  // ----- reading -----

  // unhex, stored into a byte.
  function Unhex(a: byte, b: byte): byte {
    Strtoul([a, b]) % 0x100
  }

  // What hextobin makes of a text of its own: pairs of characters, up to a NUL or to max characters.
  function Decoded(text: seq<byte>, max: int): seq<byte> {
    if max <= 0 || |text| < 2 || text[0] == 0 || text[1] == 0 then []
    else [Unhex(text[0], text[1])] + Decoded(text[2..], max - 2)
  }

  /** Decoding what gdb_puthex wrote gives the bytes back. */
  lemma {:induction false} HexRoundTrip(bytes: seq<byte>, after: seq<byte>, max: int)
    requires max >= 2 * |bytes| && (after == [] || after[0] == 0 || max == 2 * |bytes|)
    ensures Decoded(HexOf(bytes) + after, max) == bytes
    decreases |bytes|
  {
    if bytes != [] {
      var high, low := HexDigit(bytes[0] / 16), HexDigit(bytes[0] % 16);
      HexDigitValue(bytes[0] / 16);
      HexDigitValue(bytes[0] % 16);
      StrtoulOfPair(high, low);
      assert Unhex(high, low) == bytes[0];
      assert (HexOf(bytes) + after)[2..] == HexOf(bytes[1..]) + after;
      HexRoundTrip(bytes[1..], after, max - 2);
    } else {
      assert HexOf(bytes) + after == after;
    }
  }

  // *dst++ = unhex(src)
  method StorePair(buf: array<byte>, dst: nat, at: nat)
    requires dst < buf.Length && at + 1 < buf.Length
    modifies buf
    ensures buf[..] == old(buf[..])[dst := Unhex(old(buf[at]), old(buf[at + 1]))]
  {
    buf[dst] := Unhex(buf[at], buf[at + 1]);
  }

  // The buffer while it is being decoded in place: len bytes done, the rest as it was.
  ghost predicate InPlace(was: seq<byte>, now: seq<byte>, src: nat, len: nat, max: int, left: int)
    requires src <= |was|
  {
    && |now| == |was| && src + 2 * len <= |was|
    && now[len..] == was[len..]
    && Decoded(was[src..], max) == now[..len] + Decoded(was[src + 2 * len..], left)
  }

  lemma InPlaceNext(was: seq<byte>, now: seq<byte>, src: nat, len: nat, max: int, left: int)
    requires src <= |was| && InPlace(was, now, src, len, max, left) && left > 0
    requires src + 2 * len + 1 < |was| && was[src + 2 * len] != 0 && was[src + 2 * len + 1] != 0
    ensures var at := src + 2 * len;
      InPlace(was, now[len := Unhex(was[at], was[at + 1])], src, len + 1, max, left - 2)
  {
    var at := src + 2 * len;
    var b := Unhex(was[at], was[at + 1]);
    hide Decoded, Unhex;
    DecodedNext(was, at, now[..len], left);
    OneStored(was, now, len, b);
  }

  lemma OneStored(was: seq<byte>, now: seq<byte>, len: nat, b: byte)
    requires |now| == |was| && len < |was| && now[len..] == was[len..]
    ensures now[len := b][..len + 1] == now[..len] + [b]
    ensures now[len := b][len + 1..] == was[len + 1..]
  {
    assert now[len := b][len + 1..] == now[len..][1..] == was[len..][1..] == was[len + 1..];
  }

  /** hextobin with its destination at the start of the buffer that holds the text: the result is what decoding
      a separate copy gives, since a byte is only written where the text has been read. */
  method HexToBin(buf: array<byte>, src: nat, max: int, ghost end: nat) returns (len: nat)
    requires src <= end < buf.Length && buf[end] == 0
    modifies buf
    ensures len <= end
    ensures buf[..len] == Decoded(old(buf[src..]), max)
    ensures buf[len..] == old(buf[len..])
  {
    ghost var was := buf[..];
    assert was[src..] == buf[src..];
    var left := max;
    len := 0;
    while left > 0
      invariant src + 2 * len <= end
      invariant InPlace(was, buf[..], src, len, max, left)
    {
      var at := src + 2 * len;
      Untouched(was, buf[..], len, at, end);
      if buf[at] == 0 || buf[at + 1] == 0 {
        DecodedNext(was, at, buf[..len], left);
        break;
      }
      InPlaceNext(was, buf[..], src, len, max, left);
      StorePair(buf, len, at);
      len, left := len + 1, left - 2;
    }
    assert buf[..][..len] == buf[..len] && buf[..][len..] == buf[len..] && was[len..] == old(buf[len..]);
  }

  lemma Untouched(was: seq<byte>, now: seq<byte>, len: nat, at: nat, end: nat)
    requires len <= at <= end < |was| == |now| && now[len..] == was[len..] && was[end] == 0
    ensures now[at] == was[at] && now[end] == 0
    ensures now[at] != 0 ==> at + 1 <= end && now[at + 1] == was[at + 1]
  {
    assert now[at] == now[len..][at - len] && now[end] == now[len..][end - len];
    if at + 1 < |was| {
      assert now[at + 1] == now[len..][at + 1 - len];
    }
  }

  // Decoding goes on from position i, after the bytes done.
  lemma DecodedNext(text: seq<byte>, i: nat, done: seq<byte>, left: int)
    requires i <= |text|
    ensures done + Decoded(text[i..], left) ==
      if left <= 0 || i + 1 >= |text| || text[i] == 0 || text[i + 1] == 0 then done
      else done + [Unhex(text[i], text[i + 1])] + Decoded(text[i + 2..], left - 2)
    ensures text[0..] == text && [] + Decoded(text, left) == Decoded(text, left)
  {
    var rest := text[i..];
    if left > 0 && i + 1 < |text| && text[i] != 0 && text[i + 1] != 0 {
      assert rest[0] == text[i] && rest[1] == text[i + 1] && rest[2..] == text[i + 2..];
      assert done + ([Unhex(text[i], text[i + 1])] + Decoded(rest[2..], left - 2)) ==
        done + [Unhex(text[i], text[i + 1])] + Decoded(rest[2..], left - 2);
    } else {
      assert Decoded(rest, left) == [];
    }
  }
}
