/** The console output of libfw/usbconsole.c: a ring of 256 bytes with free-running 32-bit counters, emptied
    through a bulk endpoint up to 64 bytes at a time. */
module UsbConsole {
  import opened Words

  const UC_OUT_SZ: int := 256
  const PACKET: int := 64

  // ----- the queue the ring stands for -----

  // queue is what waits, oldest first; pos is where the oldest byte lies in the ring; sent is what the endpoint
  // was given, write by write.
  datatype Console = Console(queue: seq<byte>, pos: nat, busy: bool, sent: seq<seq<byte>>)

  predicate Sound(r: Console) {
    |r.queue| <= UC_OUT_SZ && r.pos < UC_OUT_SZ
  }

  function Min(a: int, b: int): int {
    if a <= b then a else b
  }

  // What one endpoint write takes: no more than a packet, and nothing past the end of the ring.
  function ChunkSize(r: Console): (n: nat)
    requires Sound(r)
    ensures n <= |r.queue| && n <= PACKET && r.pos + n <= UC_OUT_SZ && (r.queue != [] ==> n > 0)
  {
    Min(PACKET, Min(UC_OUT_SZ - r.pos, |r.queue|))
  }

  function Written(r: Console): (s: Console)
    requires Sound(r)
    ensures Sound(s)
  {
    var n := ChunkSize(r);
    Console(r.queue[n..], (r.pos + n) % UC_OUT_SZ, true, r.sent + [r.queue[..n]])
  }

  // Put is one turn of the loop in uc_putc, which is taken again when it found no room.
  datatype Event = Put(c: byte) | Flush | TxEmpty | Online(yes: bool)

  function Next(r: Console, e: Event): (s: Console)
    requires Sound(r)
    ensures Sound(s)
  {
    match e
    case Put(c) =>
      if |r.queue| < UC_OUT_SZ then r.(queue := r.queue + [c]) else if r.busy then r else Written(r)
    case Flush => if r.queue != [] && !r.busy then Written(r) else r
    case TxEmpty => Emptied(r)
    case Online(yes) => if yes then Emptied(r) else r.(busy := true)
  }

  function Emptied(r: Console): (s: Console)
    requires Sound(r)
    ensures Sound(s)
  {
    if r.queue != [] then Written(r) else r.(busy := false)
  }

  function Taken(r: Console, e: Event): seq<byte> {
    if e.Put? && |r.queue| < UC_OUT_SZ then [e.c] else []
  }

  function After(r: Console, es: seq<Event>): (s: Console)
    requires Sound(r)
    ensures Sound(s)
    decreases |es|
  {
    if es == [] then r else After(Next(r, es[0]), es[1..])
  }

  // All bytes uc_putc stored, in order.
  function AllTaken(r: Console, es: seq<Event>): seq<byte>
    requires Sound(r)
    decreases |es|
  {
    if es == [] then [] else Taken(r, es[0]) + AllTaken(Next(r, es[0]), es[1..])
  }

  function Joined(chunks: seq<seq<byte>>): seq<byte> {
    if chunks == [] then [] else Joined(chunks[..|chunks| - 1]) + chunks[|chunks| - 1]
  }

  // Sent and waiting, oldest first.
  function Stream(r: Console): seq<byte> {
    Joined(r.sent) + r.queue
  }

  lemma WrittenKeepsStream(r: Console)
    requires Sound(r)
    ensures Stream(Written(r)) == Stream(r)
  {
    var n := ChunkSize(r);
    var chunks := r.sent + [r.queue[..n]];
    assert chunks[..|chunks| - 1] == r.sent;
    assert r.queue == r.queue[..n] + r.queue[n..];
  }

  lemma NextStream(r: Console, e: Event)
    requires Sound(r)
    ensures Stream(Next(r, e)) == Stream(r) + Taken(r, e)
  {
    WrittenKeepsStream(r);
  }

  /** Whatever the interleaving of output and interrupts, the bytes handed to the endpoint, followed by those still
      in the ring, are the bytes put, in order: none is lost, repeated or moved. */
  lemma {:induction false} Fifo(r: Console, es: seq<Event>)
    requires Sound(r)
    ensures Stream(After(r, es)) == Stream(r) + AllTaken(r, es)
    decreases |es|
  {
    if es != [] {
      NextStream(r, es[0]);
      Fifo(Next(r, es[0]), es[1..]);
      var first, rest := Taken(r, es[0]), AllTaken(Next(r, es[0]), es[1..]);
      assert Stream(r) + first + rest == Stream(r) + (first + rest);
    }
  }

  // Interrupts that free the endpoint.
  function Openings(es: seq<Event>): nat {
    if es == [] then 0 else (if es[0].TxEmpty? || es[0] == Online(true) then 1 else 0) + Openings(es[1..])
  }

  /** The endpoint is never given a packet while it still holds one: there are no more writes than times it
      became free, and every write holds 1 to 64 bytes. */
  lemma {:induction false} OnePacketAtATime(r: Console, es: seq<Event>)
    requires Sound(r)
    ensures var s := After(r, es);
      && r.sent <= s.sent
      && |s.sent| - |r.sent| + (if s.busy then 0 else 1) <= Openings(es) + (if r.busy then 0 else 1)
      && forall i :: |r.sent| <= i < |s.sent| ==> 1 <= |s.sent[i]| <= PACKET
    decreases |es|
  {
    if es != [] {
      OnePacketAtATime(Next(r, es[0]), es[1..]);
    }
  }

  /** A full ring gets room as soon as the endpoint is free, so the waiting uc_putc goes on. */
  lemma RoomAfterTxEmpty(r: Console)
    requires Sound(r) && |r.queue| == UC_OUT_SZ
    ensures |Next(r, TxEmpty).queue| < UC_OUT_SZ && |Next(r, Online(true)).queue| < UC_OUT_SZ
    ensures forall c: byte :: (|Next(r, Put(c)).queue| < UC_OUT_SZ) <==> !r.busy
  {
  }

  /** Output is on its way when printu ends: the ring is empty, or the endpoint has a packet and will say when it is
      done. */
  lemma FlushSends(r: Console)
    requires Sound(r)
    ensures var s := Next(r, Flush);
      && (s.queue == [] || s.busy)
      && (if r.queue != [] && !r.busy then |s.sent| == |r.sent| + 1 else s == r)
  {
  }

  /** The endpoint is taken to be busy only when it was given a packet or there is no host, and to be free only when it
      says so and nothing waits. */
  lemma BusyExactly(r: Console, e: Event)
    requires Sound(r)
    ensures var s := Next(r, e);
      && (s.sent == r.sent || (s.busy && |s.sent| == |r.sent| + 1))
      && (!r.busy && s.busy ==> s.sent != r.sent || e == Online(false))
      && (r.busy && !s.busy ==> (e == TxEmpty || e == Online(true)) && s.queue == [])
      && (e == TxEmpty || e == Online(true) ==> s.busy == (r.queue != []))
      && (e == Online(false) ==> s == r.(busy := true))
  {
  }

  function Empties(n: nat): seq<Event> {
    if n == 0 then [] else [TxEmpty] + Empties(n - 1)
  }

  function Packets(n: int): int {
    (n + PACKET - 1) / PACKET
  }

  // Packets to the end of the ring, and then from its start.
  function PacketsIn(pos: int, n: int): int {
    var first := Min(n, UC_OUT_SZ - pos);
    Packets(first) + Packets(n - first)
  }

  function PacketsLeft(r: Console): int {
    PacketsIn(r.pos, |r.queue|)
  }

  lemma ShortOrLong(n: int)
    requires n >= 0
    ensures n == 0 ==> Packets(n) == 0
    ensures 0 < n <= PACKET ==> Packets(n) == 1
    ensures n > PACKET ==> Packets(n) == Packets(n - PACKET) + 1
  {
  }

  lemma OnePacketLess(pos: int, n: int, k: int)
    requires 0 <= pos < UC_OUT_SZ && 0 < n <= UC_OUT_SZ && k == Min(PACKET, Min(UC_OUT_SZ - pos, n))
    ensures PacketsIn((pos + k) % UC_OUT_SZ, n - k) == PacketsIn(pos, n) - 1
  {
    hide Packets;
    var first := Min(n, UC_OUT_SZ - pos);
    ShortOrLong(first);
    ShortOrLong(0);
    if first > PACKET {
      assert (pos + k) % UC_OUT_SZ == pos + PACKET;
    } else if pos + n < UC_OUT_SZ {
      assert (pos + k) % UC_OUT_SZ == pos + n;
    } else {
      assert (pos + k) % UC_OUT_SZ == 0;
    }
  }

  lemma EachEmptyTakesAPacket(r: Console)
    requires Sound(r) && r.queue != []
    ensures PacketsLeft(Next(r, TxEmpty)) == PacketsLeft(r) - 1
  {
    hide PacketsIn;
    OnePacketLess(r.pos, |r.queue|, ChunkSize(r));
  }

  lemma AtMostFive(r: Console)
    requires Sound(r)
    ensures 0 <= PacketsLeft(r) <= 5 && (PacketsLeft(r) == 0 <==> r.queue == [])
  {
    hide Packets;
    var first := Min(|r.queue|, UC_OUT_SZ - r.pos);
    PacketsBound(first);
    PacketsBound(|r.queue| - first);
  }

  lemma PacketsBound(n: int)
    requires n >= 0
    ensures PACKET * (Packets(n) - 1) < n <= PACKET * Packets(n)
  {
  }

  /** Once nothing more is put, the ring is empty after exactly that many free endpoints, five at most. */
  lemma {:induction false} Drains(r: Console, n: nat)
    requires Sound(r)
    ensures After(r, Empties(n)).queue == [] <==> PacketsLeft(r) <= n
    decreases n
  {
    hide PacketsLeft;
    AtMostFive(r);
    if n > 0 {
      assert Empties(n)[1..] == Empties(n - 1);
      if r.queue != [] {
        EachEmptyTakesAPacket(r);
      }
      AtMostFive(Next(r, TxEmpty));
      Drains(Next(r, TxEmpty), n - 1);
    }
  }

  // ----- the ring -----

  // The n bytes from pos on, round the ring.
  function Round(data: seq<byte>, pos: nat, n: nat): (q: seq<byte>)
    requires |data| == UC_OUT_SZ && pos < UC_OUT_SZ
    ensures |q| == n
  {
    seq(n, i requires 0 <= i < n => data[(pos + i) % UC_OUT_SZ])
  }

  lemma RoundStored(data: seq<byte>, pos: nat, n: nat, c: byte)
    requires |data| == UC_OUT_SZ && pos < UC_OUT_SZ && n < UC_OUT_SZ
    ensures Round(data[(pos + n) % UC_OUT_SZ := c], pos, n + 1) == Round(data, pos, n) + [c]
  {
    var now := data[(pos + n) % UC_OUT_SZ := c];
    forall i | 0 <= i < n
      ensures Round(now, pos, n + 1)[i] == Round(data, pos, n)[i]
    {
      SlotsDiffer(pos, i, n);
    }
  }

  lemma SlotsDiffer(pos: nat, i: nat, n: nat)
    requires pos < UC_OUT_SZ && i < n < UC_OUT_SZ
    ensures (pos + i) % UC_OUT_SZ != (pos + n) % UC_OUT_SZ
  {
  }

  lemma RoundTaken(data: seq<byte>, pos: nat, n: nat, k: nat)
    requires |data| == UC_OUT_SZ && pos < UC_OUT_SZ && k <= n && pos + k <= UC_OUT_SZ
    ensures Round(data, pos, n)[..k] == data[pos..pos + k]
    ensures Round(data, pos, n)[k..] == Round(data, (pos + k) % UC_OUT_SZ, n - k)
  {
    forall i | 0 <= i < n - k
      ensures Round(data, pos, n)[k..][i] == Round(data, (pos + k) % UC_OUT_SZ, n - k)[i]
    {
      TwoSteps(pos, k, i);
    }
  }

  lemma TwoSteps(pos: nat, k: nat, i: nat)
    ensures (pos + (k + i)) % UC_OUT_SZ == ((pos + k) % UC_OUT_SZ + i) % UC_OUT_SZ
  {
  }

  // Counters that run through 2^32 keep their distance and their place in the ring.
  lemma Distance(tail: u32, head: u32)
    ensures Sub32(head, tail) == if head >= tail then head - tail else head - tail + TWO_32
  {
  }

  lemma Advanced(x: u32, n: nat)
    requires n <= UC_OUT_SZ
    ensures Add32(x, n) == if x + n < TWO_32 then x + n else x + n - TWO_32
  {
  }

  lemma PlaceInRing(x: u32, n: nat)
    requires n <= UC_OUT_SZ
    ensures Add32(x, n) % UC_OUT_SZ == (x % UC_OUT_SZ + n) % UC_OUT_SZ
  {
    Advanced(x, n);
  }

  lemma TailMoves(tail: u32, head: u32, n: nat)
    requires n <= Sub32(head, tail) && n <= UC_OUT_SZ
    ensures Sub32(head, Add32(tail, n)) == Sub32(head, tail) - n
    ensures Add32(tail, n) % UC_OUT_SZ == (tail % UC_OUT_SZ + n) % UC_OUT_SZ
  {
    Distance(tail, head);
    Advanced(tail, n);
    Distance(Add32(tail, n), head);
    PlaceInRing(tail, n);
  }

  lemma HeadMoves(tail: u32, head: u32)
    requires Sub32(head, tail) < UC_OUT_SZ
    ensures Sub32(Add32(head, 1), tail) == Sub32(head, tail) + 1
    ensures head % UC_OUT_SZ == (tail % UC_OUT_SZ + Sub32(head, tail)) % UC_OUT_SZ
  {
    Distance(tail, head);
    Advanced(head, 1);
    Distance(tail, Add32(head, 1));
    Advanced(tail, Sub32(head, tail));
    PlaceInRing(tail, Sub32(head, tail));
  }

  class UsbConsole {
    const out_data: array<byte>
    var out_head: u32
    var out_tail: u32
    var out_busy: bool
    var sent: seq<seq<byte>>  // what usb_ep1_write was called with

    ghost predicate Valid()
      reads this
    {
      out_data.Length == UC_OUT_SZ && Sub32(out_head, out_tail) <= UC_OUT_SZ
    }

    ghost function View(): (r: Console)
      requires Valid()
      reads this, out_data
      ensures Sound(r)
    {
      Console(Round(out_data[..], out_tail % UC_OUT_SZ, Sub32(out_head, out_tail)), out_tail % UC_OUT_SZ, out_busy,
              sent)
    }

    constructor ()
      ensures Valid() && fresh(out_data) && View() == Console([], 0, true, [])
    {
      out_data := new byte[UC_OUT_SZ];
      out_head, out_tail, out_busy, sent := 0, 0, true, [];
    }

    method UcWrite()
      requires Valid()
      modifies this
      ensures Valid() && View() == Written(old(View()))
    {
      var pos := out_tail % UC_OUT_SZ;
      var len := Sub32(out_head, out_tail);
      var rem := UC_OUT_SZ - pos;
      if len > rem {
        len := rem;
      }
      if len > PACKET {
        len := PACKET;
      }
      RoundTaken(out_data[..], pos, Sub32(out_head, out_tail), len);
      TailMoves(out_tail, out_head, len);
      out_busy := true;
      sent := sent + [out_data[pos..pos + len]];
      out_tail := Add32(out_tail, len);
    }

    // One turn of uc_putc: true when the byte went in, false when the loop has to be taken again.
    method PutcTurn(c: byte) returns (stored: bool)
      requires Valid()
      modifies this, out_data
      ensures Valid() && View() == Next(old(View()), Put(c))
      ensures stored == (Taken(old(View()), Put(c)) == [c])
    {
      if Sub32(out_head, out_tail) == UC_OUT_SZ {
        if !out_busy {
          UcWrite();
        }
        return false;
      }
      RoundStored(out_data[..], out_tail % UC_OUT_SZ, Sub32(out_head, out_tail), c);
      HeadMoves(out_tail, out_head);
      out_data[out_head % UC_OUT_SZ] := c;
      out_head := Add32(out_head, 1);
      return true;
    }

    // The end of printu.
    method PrintEnd()
      requires Valid()
      modifies this
      ensures Valid() && View() == Next(old(View()), Flush)
    {
      if Sub32(out_head, out_tail) != 0 && !out_busy {
        UcWrite();
      }
    }

    method HandleEp1TxEmpty()
      requires Valid()
      modifies this
      ensures Valid() && View() == Next(old(View()), TxEmpty)
    {
      out_busy := false;
      if Sub32(out_head, out_tail) != 0 {
        UcWrite();
      }
    }

    method HandleUsbOnline(yes: bool)
      requires Valid()
      modifies this
      ensures Valid() && View() == Next(old(View()), Online(yes))
    {
      if yes {
        HandleEp1TxEmpty();
      } else {
        out_busy := true;
      }
    }
  }
}
