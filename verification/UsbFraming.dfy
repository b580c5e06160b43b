/** Transactions as USB bulk packets: a packet shorter than 64 bytes ends a transaction (section 5.8.3 of the
    USB 2.0 specification), unless the receiver's buffer is full first. */
module UsbFraming {
  import opened Words
  import opened Rswdp
  import opened Probe

  const PACKET: nat := 64

  // ----- sending -----

  // A transfer as the wire carries it: full packets, and what is left over.
  function Split(data: seq<byte>): seq<seq<byte>> {
    if data == [] then []
    else if |data| <= PACKET then [data]
    else [data[..PACKET]] + Split(data[PACKET..])
  }

  /** The packets are the data in order, 64 bytes each but for what is left for the last; no data, no packet. */
  lemma {:induction false} SplitMeans(data: seq<byte>)
    ensures var packets := Split(data);
      && |packets| == (|data| + PACKET - 1) / PACKET
      && forall i :: 0 <= i < |packets| ==>
           var end := if PACKET * (i + 1) > |data| then |data| else PACKET * (i + 1);
           PACKET * i < end && packets[i] == data[PACKET * i..end]
    decreases |data|
  {
    if |data| > PACKET {
      var rest := data[PACKET..];
      SplitMeans(rest);
      forall i | 0 < i < |Split(data)|
        ensures var end := if PACKET * (i + 1) > |data| then |data| else PACKET * (i + 1);
          PACKET * i < end && Split(data)[i] == data[PACKET * i..end]
      {
        assert Split(data)[i] == Split(rest)[i - 1];
      }
    }
  }

  // usb_xmit; every packet waits for the endpoint to be free.
  method UsbXmit(data: seq<byte>) returns (packets: seq<seq<byte>>)
    ensures packets == Split(data)
  {
    packets := [];
    var i := 0;
    while i < |data|
      invariant 0 <= i <= |data|
      invariant packets + Split(data[i..]) == Split(data)
    {
      var xfer := if |data| - i > PACKET then PACKET else |data| - i;
      ghost var left := data[i..];
      assert left[..xfer] == data[i..i + xfer] && left[xfer..] == data[i + xfer..];
      assert xfer == |left| ==> left == data[i..i + xfer] && data[i + xfer..] == [];
      assert Split(left) == [data[i..i + xfer]] + Split(data[i + xfer..]);
      packets := packets + [data[i..i + xfer]];
      i := i + xfer;
    }
  }

  // ----- receiving -----

  // Waiting means that the receiver still expects packets.
  datatype Received = Received(data: seq<byte>, rest: seq<seq<byte>>) | Waiting

  // One read from the endpoint: a packet longer than asked for loses its end.
  function ReadPacket(packet: seq<byte>, len: nat): seq<byte> {
    if |packet| > len then packet[..len] else packet
  }

  function Recv(packets: seq<seq<byte>>, count: nat): Received {
    if count == 0 then Received([], packets)
    else if packets == [] then Waiting
    else
      var got := ReadPacket(packets[0], if count > PACKET then PACKET else count);
      if |got| != PACKET then Received(got, packets[1..]) else Prepend(got, Recv(packets[1..], count - PACKET))
  }

  function Prepend(got: seq<byte>, r: Received): Received {
    match r
    case Received(data, rest) => Received(got + data, rest)
    case Waiting => Waiting
  }

  // usb_recv, on an endpoint that holds the given packets.
  method UsbRecv(packets: seq<seq<byte>>, count: nat) returns (r: Received)
    ensures r == Recv(packets, count)
  {
    var data: seq<byte>, i: nat, left: nat := [], 0, count;
    PrependNothing(Recv(packets, count));
    assert packets[0..] == packets;
    while left > 0
      invariant 0 <= i <= |packets|
      invariant Recv(packets, count) == Prepend(data, Recv(packets[i..], left))
      decreases left
    {
      if i == |packets| {
        return Waiting;
      }
      var got := ReadPacket(packets[i], if left > PACKET then PACKET else left);
      assert packets[i..][1..] == packets[i + 1..];
      if |got| != PACKET {
        return Received(data + got, packets[i + 1..]);
      }
      PrependTwice(data, got, Recv(packets[i + 1..], left - PACKET));
      data, i, left := data + got, i + 1, left - PACKET;
    }
    r := Received(data + [], packets[i..]);
  }

  lemma PrependNothing(r: Received)
    ensures Prepend([], r) == r
  {
    if r.Received? {
      assert [] + r.data == r.data;
    }
  }

  lemma PrependTwice(a: seq<byte>, b: seq<byte>, r: Received)
    ensures Prepend(a, Prepend(b, r)) == Prepend(a + b, r)
  {
    if r.Received? {
      assert a + (b + r.data) == a + b + r.data;
    }
  }

  // ----- framing -----

  // What may be sent to a receiver with a buffer of count bytes.
  predicate Framable(data: seq<byte>, count: nat) {
    0 < |data| <= count && (|data| % PACKET != 0 || |data| == count)
  }

  lemma {:induction false} RecvSplit(data: seq<byte>, count: nat, rest: seq<seq<byte>>)
    requires Framable(data, count)
    ensures Recv(Split(data) + rest, count) == Received(data, rest)
    decreases |data|
  {
    if |data| <= PACKET {
      assert ([data] + rest)[1..] == rest;
      assert data + [] == data;
    } else {
      RecvSplit(data[PACKET..], count - PACKET, rest);
      assert (Split(data) + rest)[1..] == Split(data[PACKET..]) + rest;
      assert data == data[..PACKET] + data[PACKET..];
    }
  }

  // Without a short packet, the receiver goes on into what comes next.
  lemma {:induction false} RecvRunsOn(data: seq<byte>, count: nat, next: seq<byte>)
    requires 0 < |data| < count && |data| % PACKET == 0 && next != []
    ensures Recv(Split(data) + [next], count) != Received(data, [next])
    decreases |data|
  {
    if |data| <= PACKET {
      assert ([data] + [next])[1..] == [next];
      var r := Recv([next], count - PACKET);
      assert r.Received? ==> data + r.data != data || r.rest != [next] by {
        if r.Received? && data + r.data == data {
          assert |data + r.data| == |data| + |r.data|;
        }
      }
    } else {
      RecvRunsOn(data[PACKET..], count - PACKET, next);
      assert (Split(data) + [next])[1..] == Split(data[PACKET..]) + [next];
      var r := Recv(Split(data[PACKET..]) + [next], count - PACKET);
      if r.Received? && data[..PACKET] + r.data == data {
        assert r.data == data[PACKET..];
      }
    }
  }

  // More than the buffer holds never comes out whole.
  lemma {:induction false} RecvBounded(packets: seq<seq<byte>>, count: nat)
    ensures Recv(packets, count).Received? ==> |Recv(packets, count).data| <= count
    decreases count
  {
    if count > 0 && packets != [] && count >= PACKET {
      RecvBounded(packets[1..], count - PACKET);
    }
  }

  /** A transfer is received as sent, whatever is sent after it, if and only if it is framable. */
  lemma FramedExactly(data: seq<byte>, count: nat)
    requires data != []
    ensures Framable(data, count) <==>
      forall next: seq<byte> | next != [] :: Recv(Split(data) + [next], count) == Received(data, [next])
  {
    if Framable(data, count) {
      forall next: seq<byte> | next != []
        ensures Recv(Split(data) + [next], count) == Received(data, [next])
      {
        RecvSplit(data, count, [next]);
      }
    } else {
      var next: seq<byte> := [0];
      if |data| > count {
        RecvBounded(Split(data) + [next], count);
      } else {
        RecvRunsOn(data, count, next);
      }
      assert next != [] && Recv(Split(data) + [next], count) != Received(data, [next]);
    }
  }

  // ----- sequences of transactions -----

  function SplitAll(ts: seq<seq<byte>>): seq<seq<byte>> {
    if ts == [] then [] else Split(ts[0]) + SplitAll(ts[1..])
  }

  // The receiver's main loop: one transaction after another.
  function RecvMany(packets: seq<seq<byte>>, count: nat, n: nat): seq<seq<byte>>
    decreases n
  {
    if n == 0 then []
    else match Recv(packets, count)
      case Waiting => []
      case Received(data, rest) => [data] + RecvMany(rest, count, n - 1)
  }

  /** The framing delimits itself: any number of framable transfers, one behind the other on the wire, come out
      one for one. */
  lemma {:induction false} FramingRoundTrip(ts: seq<seq<byte>>, count: nat)
    requires forall i :: 0 <= i < |ts| ==> Framable(ts[i], count)
    ensures RecvMany(SplitAll(ts), count, |ts|) == ts
    decreases |ts|
  {
    if ts != [] {
      RecvSplit(ts[0], count, SplitAll(ts[1..]));
      FramingRoundTrip(ts[1..], count);
    }
  }

  // ----- transactions of words -----

  // q_exec adds a NULL word unless the transaction is exactly as long as the probe's buffer.
  function Padded(tx: seq<u32>, maxwords: nat): seq<u32> {
    if |tx| % 16 == 0 && |tx| != maxwords then tx + [Header(CMD_NULL, 0, 0)] else tx
  }

  lemma PaddedFrames(tx: seq<u32>, maxwords: nat)
    requires 0 < |tx| <= maxwords
    ensures Framable(BytesOfWords(Padded(tx, maxwords)), 4 * maxwords)
  {
  }

  /** Any sequence of transactions of up to maxwords words, padded as q_exec does, arrives at the probe one for
      one, a transaction that fills the buffer included. */
  lemma TransactionsArrive(txs: seq<seq<u32>>, maxwords: nat)
    requires forall i :: 0 <= i < |txs| ==> 0 < |txs[i]| <= maxwords
    ensures var sent := seq(|txs|, i requires 0 <= i < |txs| => BytesOfWords(Padded(txs[i], maxwords)));
      RecvMany(SplitAll(sent), 4 * maxwords, |txs|) == sent
  {
    var sent := seq(|txs|, i requires 0 <= i < |txs| => BytesOfWords(Padded(txs[i], maxwords)));
    forall i | 0 <= i < |sent|
      ensures Framable(sent[i], 4 * maxwords)
    {
      PaddedFrames(txs[i], maxwords);
    }
    FramingRoundTrip(sent, 4 * maxwords);
  }

  // What a receiver with a buffer of so many words makes of a transaction sent to it.
  function Carried(tx: seq<u32>, words: nat): seq<u32> {
    match Recv(Split(BytesOfWords(tx)), 4 * words)
    case Received(data, _) => WordsOfBytes(data)
    case Waiting => []
  }

  lemma CarriedIntact(tx: seq<u32>, words: nat)
    requires 0 < |tx| <= words && (|tx| % 16 != 0 || |tx| == words)
    ensures Carried(tx, words) == tx
  {
    RecvSplit(BytesOfWords(tx), 4 * words, []);
    assert Split(BytesOfWords(tx)) + [] == Split(BytesOfWords(tx));
    WordsSurviveBytes(tx);
  }

  // Every reply fits the host's buffer of 2048 words, and ends in a short packet.
  lemma ReplyCarried<T>(txnid: u32, o: Outcome<T>)
    requires |Reply(txnid, o)| <= TX_WORDS
    ensures Carried(Reply(txnid, o), 2048) == Reply(txnid, o)
  {
    ReplyEndsShort(txnid, o);
    CarriedIntact(Reply(txnid, o), 2048);
  }
}
