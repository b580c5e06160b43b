/** The SWO decoder of tools/swo.c: source and protocol packets of the ITM byte stream (ARMv7-M Architecture
    Reference Manual, ARM DDI 0403, appendix D4). */
module Swo {
  import opened Words

  datatype SwvState = Sync | S1x1 | S1x2 | S1x4 | S2x2 | S2x4 | S3x4 | S4x4 | InProto | Idle

  // What the decoder hands on: a source packet of n bytes, or the bytes of a protocol packet.
  datatype Event = Source(id: nat, val: nat, n: nat) | Proto(bytes: seq<byte>)

  datatype Swv = Swv(state: SwvState, zcount: u32, ccount: nat, id: nat, val: u32, data: seq<byte>)
  {
    // The partial value has only the bytes received so far; a protocol packet has one to six bytes so far.
    predicate Valid() {
      && |data| == 8
      && (state.InProto? ==> 1 <= ccount <= 6)
      && (state.S2x2? || state.S2x4? ==> val < 0x100)
      && (state.S3x4? ==> val < 0x1_0000)
      && (state.S4x4? ==> val < 0x100_0000)
    }
  }

  const SYNC_ZEROS: nat := 5
  const SYNC_END: byte := 0x80

  // The low two bits of a source header are the state that awaits its payload; 100 loses synchronisation.
  function StateOf(low: nat): SwvState {
    match low
    case 1 => S1x1
    case 2 => S1x2
    case 3 => S1x4
    case _ => Sync
  }

  function Step(s: Swv, x: byte): (r: (Swv, seq<Event>))
    requires s.Valid()
    ensures r.0.Valid()
  {
    if x != 0 && s.zcount >= SYNC_ZEROS && x == SYNC_END then (s.(state := Idle, zcount := 0), [])
    else Dispatch(s.(zcount := if x == 0 then Add32(s.zcount, 1) else 0), x)
  }

  function Dispatch(s: Swv, x: byte): (r: (Swv, seq<Event>))
    requires s.Valid()
    ensures r.0.Valid()
  {
    match s.state
    case Idle =>
      if x % 8 != 0 then (s.(id := x / 8 + x / 4 % 2 * 0x100, val := 0, state := StateOf(x % 4)), [])
      else if x != 0 then
        var s1 := s.(data := s.data[0 := x]);
        if x >= 0x80 then (s1.(ccount := 1, state := InProto), []) else (s1, [Proto([x])])
      else (s, [])
    case InProto =>
      var s1 := s.(data := s.data[s.ccount := x], ccount := s.ccount + 1);
      if s1.ccount == 7 || x < 0x80 then (s1.(state := Idle), [Proto(s1.data[..s1.ccount])]) else (s1, [])
    case S1x1 => (s.(state := Idle), [Source(s.id, x, 1)])
    case S1x2 => (s.(val := x, state := S2x2), [])
    case S2x2 => (s.(state := Idle), [Source(s.id, s.val + 0x100 * x, 2)])
    case S1x4 => (s.(val := x, state := S2x4), [])
    case S2x4 => (s.(val := s.val + 0x100 * x, state := S3x4), [])
    case S3x4 => (s.(val := s.val + 0x1_0000 * x, state := S4x4), [])
    case S4x4 => (s.(state := Idle), [Source(s.id, s.val + 0x100_0000 * x, 4)])
    case Sync => (s, [])
  }

  function Run(s: Swv, xs: seq<byte>): (r: (Swv, seq<Event>))
    requires s.Valid()
    ensures r.0.Valid()
    decreases |xs|
  {
    if xs == [] then (s, [])
    else
      var (s1, es) := Step(s, xs[0]);
      var (s2, fs) := Run(s1, xs[1..]);
      (s2, es + fs)
  }

  lemma {:induction false} RunAppend(s: Swv, a: seq<byte>, b: seq<byte>)
    requires s.Valid()
    ensures var (s1, es) := Run(s, a);
      var (s2, fs) := Run(s1, b);
      Run(s, a + b) == (s2, es + fs)
    decreases |a|
  {
    if a == [] {
      assert a + b == b;
      assert [] + Run(s, b).1 == Run(s, b).1;
    } else {
      assert (a + b)[1..] == a[1..] + b;
      var (s0, ds) := Step(s, a[0]);
      RunAppend(s0, a[1..], b);
      var (s1, es) := Run(s0, a[1..]);
      assert ds + (es + Run(s1, b).1) == ds + es + Run(s1, b).1;
    }
  }

  // ----- the decoder itself -----

  class SwvDecoder {
    var state: SwvState
    var zcount: u32
    var ccount: nat
    var id: nat
    var val: u32
    const data: array<byte>
    // Everything handed on, in order.
    var events: seq<Event>

    constructor ()
      ensures Valid() && fresh(data) && state == Sync && zcount == 0 && events == []
    {
      state, zcount, ccount, id, val := Sync, 0, 0, 0, 0;
      data := new byte[8](_ => 0);
      events := [];
    }

    ghost function Abs(): Swv
      reads this, data
    {
      Swv(state, zcount, ccount, id, val, data[..])
    }

    ghost predicate Valid()
      reads this, data
    {
      Abs().Valid()
    }

    // A header byte.
    method StartPacket(x: byte)
      requires Valid() && state == Idle
      modifies this, data
      ensures Abs() == Dispatch(old(Abs()), x).0 && events == old(events) + Dispatch(old(Abs()), x).1
    {
      if x % 8 != 0 {
        id, val, state := x / 8 + x / 4 % 2 * 0x100, 0, StateOf(x % 4);
      } else if x != 0 {
        data[0] := x;
        if x >= 0x80 {
          ccount, state := 1, InProto;
        } else {
          assert data[..1] == [x];
          events := events + [Proto(data[..1])];
        }
      }
    }

    // A further byte of a protocol packet, which ends at seven bytes or at a byte with bit 7 clear.
    method ContinueProto(x: byte)
      requires Valid() && state == InProto
      modifies this, data
      ensures Abs() == Dispatch(old(Abs()), x).0 && events == old(events) + Dispatch(old(Abs()), x).1
    {
      data[ccount] := x;
      ccount := ccount + 1;
      assert data[..] == old(data[..])[old(ccount) := x];
      if ccount == 7 || x < 0x80 {
        assert data[..ccount] == data[..][..ccount];
        events := events + [Proto(data[..ccount])];
        state := Idle;
      }
    }

    // A payload byte of a source packet.
    method ContinueSource(x: byte)
      requires Valid() && state != Idle && state != InProto
      modifies this
      ensures Abs() == Dispatch(old(Abs()), x).0 && events == old(events) + Dispatch(old(Abs()), x).1
    {
      match state {
        case S1x1 =>
          events, state := events + [Source(id, x, 1)], Idle;
        case S1x2 =>
          val, state := x, S2x2;
        case S2x2 =>
          events, state := events + [Source(id, val + 0x100 * x, 2)], Idle;
        case S1x4 =>
          val, state := x, S2x4;
        case S2x4 =>
          val, state := val + 0x100 * x, S3x4;
        case S3x4 =>
          val, state := val + 0x1_0000 * x, S4x4;
        case S4x4 =>
          events, state := events + [Source(id, val + 0x100_0000 * x, 4)], Idle;
        case Sync =>
      }
    }

    method HandleSwv(x: byte)
      requires Valid()
      modifies this, data
      ensures Valid() && Abs() == Step(old(Abs()), x).0
      ensures events == old(events) + Step(old(Abs()), x).1
    {
      if x == 0 {
        zcount := Add32(zcount, 1);
      } else {
        if zcount >= SYNC_ZEROS && x == SYNC_END {
          state, zcount := Idle, 0;
          return;
        }
        zcount := 0;
      }
      if state == Idle {
        StartPacket(x);
      } else if state == InProto {
        ContinueProto(x);
      } else {
        ContinueSource(x);
      }
    }

    method ProcessSwoData(xs: seq<byte>)
      requires Valid()
      modifies this, data
      ensures Valid() && Abs() == Run(old(Abs()), xs).0
      ensures events == old(events) + Run(old(Abs()), xs).1
    {
      var i := 0;
      while i < |xs|
        invariant 0 <= i <= |xs| && Valid()
        invariant Run(old(Abs()), xs).0 == Run(Abs(), xs[i..]).0
        invariant old(events) + Run(old(Abs()), xs).1 == events + Run(Abs(), xs[i..]).1
      {
        assert xs[i..][1..] == xs[i + 1..];
        ghost var es, fs := Step(Abs(), xs[i]).1, Run(Step(Abs(), xs[i]).0, xs[i + 1..]).1;
        assert events + (es + fs) == events + es + fs;
        HandleSwv(xs[i]);
        i := i + 1;
      }
    }
  }

  // ----- synchronisation -----

  function Zeros(k: nat): seq<byte> {
    seq(k, _ => 0)
  }

  lemma {:induction false} ZeroRun(s: Swv, k: nat)
    requires s.Valid()
    ensures Run(s, Zeros(k)).0.zcount == Add32(s.zcount, k)
    decreases k
  {
    if k > 0 {
      assert Zeros(k) == [0] + Zeros(k - 1);
      assert Zeros(k)[1..] == Zeros(k - 1);
      var s1 := Step(s, 0).0;
      assert s1.zcount == Add32(s.zcount, 1);
      CountOn(s.zcount, k);
      ZeroRun(s1, k - 1);
    }
  }

  lemma CountOn(z: u32, k: nat)
    requires k > 0
    ensures Add32(Add32(z, 1), k - 1) == Add32(z, k)
  {
  }

  lemma {:induction false} ZerosWhileLost(s: Swv, k: nat)
    requires s.Valid() && s.state == Sync
    ensures Run(s, Zeros(k)).0.state == Sync
    decreases k
  {
    if k > 0 {
      assert Zeros(k)[1..] == Zeros(k - 1);
      ZerosWhileLost(Step(s, 0).0, k - 1);
    }
  }

  lemma RunOne(s: Swv, x: byte)
    requires s.Valid()
    ensures Run(s, [x]) == Step(s, x)
  {
    assert [x][1..] == [];
    assert Step(s, x).1 + [] == Step(s, x).1;
  }

  /** From any state at all, zeros and then 80 leave the decoder in sync, as long as the 32-bit counter ends at
      five or more. */
  lemma Resynchronises(s: Swv, k: nat)
    requires s.Valid() && Add32(s.zcount, k) >= SYNC_ZEROS
    ensures var s' := Run(s, Zeros(k) + [SYNC_END]).0; s'.state == Idle && s'.zcount == 0
  {
    ZeroRun(s, k);
    RunAppend(s, Zeros(k), [SYNC_END]);
    RunOne(Run(s, Zeros(k)).0, SYNC_END);
  }

  /** The counter wraps: out of sync, k zeros and then 80 synchronise the decoder if and only if the count is
      five or more modulo 2^32, so 2^32 zeros after a nonzero byte do not. */
  lemma SynchronisesExactly(s: Swv, k: nat)
    requires s.Valid() && s.state == Sync
    ensures Run(s, Zeros(k) + [SYNC_END]).0.state == Idle <==> Add32(s.zcount, k) >= SYNC_ZEROS
  {
    ZeroRun(s, k);
    ZerosWhileLost(s, k);
    RunAppend(s, Zeros(k), [SYNC_END]);
    RunOne(Run(s, Zeros(k)).0, SYNC_END);
  }

  // ----- out of sync -----

  // Nowhere in the bytes, with z zeros before them, does 80 follow five zeros.
  predicate NoSync(z: u32, xs: seq<byte>)
    decreases |xs|
  {
    xs == [] ||
    (!(z >= SYNC_ZEROS && xs[0] == SYNC_END) && NoSync(if xs[0] == 0 then Add32(z, 1) else 0, xs[1..]))
  }

  const SYNCHRONISATION: seq<byte> := [0, 0, 0, 0, 0, 0x80]

  // The last zeros of the bytes.
  function TrailingZeros(xs: seq<byte>): (n: nat)
    ensures n <= |xs|
  {
    if xs == [] || xs[|xs| - 1] != 0 then 0 else 1 + TrailingZeros(xs[..|xs| - 1])
  }

  // The synchronisation stands at position i.
  predicate SyncAt(xs: seq<byte>, i: nat) {
    i + 6 <= |xs| && xs[i..i + 6] == SYNCHRONISATION
  }

  lemma {:induction false} ZerosTrail(xs: seq<byte>)
    ensures forall i :: |xs| - TrailingZeros(xs) <= i < |xs| ==> xs[i] == 0
    ensures TrailingZeros(xs) < |xs| ==> xs[|xs| - TrailingZeros(xs) - 1] != 0
  {
    if xs != [] && xs[|xs| - 1] == 0 {
      ZerosTrail(xs[..|xs| - 1]);
    }
  }

  // With the bytes done already in front.
  lemma {:induction false} NoSyncExactlyFrom(done: seq<byte>, xs: seq<byte>)
    requires |done| + |xs| < TWO_32
    ensures NoSync(TrailingZeros(done), xs) <==> forall i: nat :: |done| <= i + 5 ==> !SyncAt(done + xs, i)
    decreases |xs|
  {
    if xs == [] {
      assert forall i: nat :: |done| <= i + 5 ==> !SyncAt(done + xs, i);
    } else {
      var x, more := xs[0], done + [xs[0]];
      assert more + xs[1..] == done + xs && more[..|done|] == done;
      assert TrailingZeros(more) == if x == 0 then TrailingZeros(done) + 1 else 0;
      NoSyncExactlyFrom(more, xs[1..]);
      SyncEndsHere(done, xs);
      if NoSync(TrailingZeros(done), xs) {
        forall i: nat | |done| <= i + 5
          ensures !SyncAt(done + xs, i)
        {
          if i + 5 == |done| {
            assert i == |done| - 5;
          }
        }
      }
    }
  }

  lemma LastFive(done: seq<byte>)
    requires |done| >= 5
    ensures TrailingZeros(done) >= SYNC_ZEROS <==> done[|done| - 5..] == [0, 0, 0, 0, 0]
  {
    ZerosTrail(done);
    var last, n := done[|done| - 5..], TrailingZeros(done);
    assert forall j :: 0 <= j < 5 ==> last[j] == done[|done| - 5 + j];
    if n < 5 {
      assert last[4 - n] == done[|done| - n - 1] != 0;
    }
  }

  lemma SyncEndsHere(done: seq<byte>, xs: seq<byte>)
    requires xs != []
    ensures (|done| >= 5 && SyncAt(done + xs, |done| - 5)) <==> TrailingZeros(done) >= SYNC_ZEROS && xs[0] == SYNC_END
  {
    if |done| >= 5 {
      LastFive(done);
      var last := done[|done| - 5..];
      assert (done + xs)[|done| - 5..|done| + 1] == last + [xs[0]];
      assert SYNCHRONISATION == [0, 0, 0, 0, 0] + [SYNC_END];
      assert (last + [xs[0]])[..5] == last && (last + [xs[0]])[5] == xs[0];
      assert SYNCHRONISATION[..5] == [0, 0, 0, 0, 0] && SYNCHRONISATION[5] == SYNC_END;
    }
  }

  /** Up to 2^32 bytes that is to say that the bytes 00 00 00 00 00 80 do not occur. */
  lemma NoSyncExactly(xs: seq<byte>)
    requires |xs| < TWO_32
    ensures NoSync(0, xs) <==> forall i: nat :: !SyncAt(xs, i)
  {
    NoSyncExactlyFrom([], xs);
    assert [] + xs == xs;
  }

  /** A decoder that has lost its place hands on nothing, and stays lost, until it sees a synchronisation. */
  lemma {:induction false} LostIsSilent(s: Swv, xs: seq<byte>)
    requires s.Valid() && s.state == Sync && NoSync(s.zcount, xs)
    ensures Run(s, xs).1 == [] && Run(s, xs).0.state == Sync
    decreases |xs|
  {
    if xs != [] {
      LostIsSilent(Step(s, xs[0]).0, xs[1..]);
    }
  }

  // Zeros are no synchronisation.
  lemma {:induction false} ZerosNoSync(z: u32, k: nat)
    ensures NoSync(z, Zeros(k))
    decreases k
  {
    if k > 0 {
      assert Zeros(k)[1..] == Zeros(k - 1);
      ZerosNoSync(Add32(z, 1), k - 1);
    }
  }

  /** Over the whole stream: a decoder that has lost its place, fed bytes without a synchronisation, then one, and then
      packets, hands on just what the packets mean. */
  lemma LostThenDecodes(s: Swv, garbage: seq<byte>, k: nat, ps: seq<Packet>)
    requires s.Valid() && s.state == Sync && NoSync(s.zcount, garbage) && AllValid(ps)
    requires Add32(Run(s, garbage).0.zcount, k) >= SYNC_ZEROS
    ensures Run(s, garbage + (Zeros(k) + [SYNC_END]) + EncodeAll(ps)).1 == Meanings(ps)
  {
    hide Meanings, EncodeAll;
    LostIsSilent(s, garbage);
    var s1 := Run(s, garbage).0;
    ZerosNoSync(s1.zcount, k);
    LostIsSilent(s1, Zeros(k));
    ZeroRun(s1, k);
    var s2 := Run(s1, Zeros(k)).0;
    RunOne(s2, SYNC_END);
    RunAppend(s1, Zeros(k), [SYNC_END]);
    RunAppend(s, garbage, Zeros(k) + [SYNC_END]);
    var front := garbage + (Zeros(k) + [SYNC_END]);
    assert Run(s, front).1 == [];
    RunAppend(s, front, EncodeAll(ps));
    StreamDecodes(Run(s, front).0, ps);
    assert [] + Meanings(ps) == Meanings(ps);
  }

  /** A header with the low bits 100 belongs to no packet: the decoder loses its place. */
  lemma ReservedHeaderLoses(s: Swv, x: byte, xs: seq<byte>)
    requires Ready(s) && x % 8 == 4 && NoSync(0, xs)
    ensures Run(s, [x] + xs).1 == [] && Run(s, [x] + xs).0.state == Sync
  {
    var s1 := Step(s, x).0;
    assert StateOf(x % 4) == Sync;
    LostIsSilent(s1, xs);
    RunAppend(s, [x], xs);
    RunOne(s, x);
  }

  // ----- packets -----

  datatype Packet =
    | SourcePacket(hardware: bool, port: nat, payload: seq<byte>)
    | ProtocolPacket(bytes: seq<byte>)
    | SyncPacket(zeros: nat)
  {
    predicate Valid() {
      match this
      case SourcePacket(_, port, payload) => port < 0x20 && |payload| in {1, 2, 4}
      case ProtocolPacket(bytes) =>
        && 1 <= |bytes| <= 7 && bytes[0] != 0 && bytes[0] % 8 == 0
        && (forall i :: 0 <= i < |bytes| - 1 ==> bytes[i] >= 0x80)
        && (|bytes| < 7 ==> bytes[|bytes| - 1] < 0x80)
      case SyncPacket(zeros) => SYNC_ZEROS <= zeros < 0x8000_0000
    }

    function Encode(): seq<byte>
      requires Valid()
    {
      match this
      case SourcePacket(hardware, port, payload) => [Header()] + payload
      case ProtocolPacket(bytes) => bytes
      case SyncPacket(zeros) => Zeros(zeros) + [SYNC_END]
    }

    function Header(): byte
      requires SourcePacket? && Valid()
    {
      port * 8 + (if hardware then 4 else 0) + if |payload| == 4 then 3 else |payload|
    }

    function Meaning(): seq<Event>
      requires Valid()
    {
      match this
      case SourcePacket(hardware, port, payload) =>
        [Source(port + if hardware then 0x100 else 0, LittleEndian(payload), |payload|)]
      case ProtocolPacket(bytes) => [Proto(bytes)]
      case SyncPacket(_) => []
    }
  }

  function LittleEndian(bytes: seq<byte>): nat {
    if bytes == [] then 0 else bytes[0] + 0x100 * LittleEndian(bytes[1..])
  }

  // At no point of the run, its end included, have more than four zeros in a row been seen.
  predicate Calm(s: Swv, xs: seq<byte>)
    requires s.Valid()
    decreases |xs|
  {
    s.zcount < SYNC_ZEROS && (xs == [] || Calm(Step(s, xs[0]).0, xs[1..]))
  }

  lemma {:induction false} CalmAppend(s: Swv, a: seq<byte>, b: seq<byte>)
    requires s.Valid() && Calm(s, a) && Calm(Run(s, a).0, b)
    ensures Calm(s, a + b)
    decreases |a|
  {
    if a == [] {
      assert a + b == b;
    } else {
      assert (a + b)[1..] == a[1..] + b;
      CalmAppend(Step(s, a[0]).0, a[1..], b);
    }
  }

  // Between packets.
  predicate Ready(s: Swv) {
    s.Valid() && s.state == Idle && s.zcount < SYNC_ZEROS
  }

  // These bytes are decoded to these events, ending between packets, without five zeros in a row on the way.
  ghost predicate Decodes(s: Swv, xs: seq<byte>, es: seq<Event>) {
    s.Valid() && Run(s, xs).1 == es && Ready(Run(s, xs).0) && Calm(s, xs)
  }

  lemma DecodesCons(s: Swv, x: byte, xs: seq<byte>, es: seq<Event>)
    requires s.Valid() && s.zcount < SYNC_ZEROS && Step(s, x).1 == [] && Decodes(Step(s, x).0, xs, es)
    ensures Decodes(s, [x] + xs, es)
  {
    assert ([x] + xs)[1..] == xs;
    assert [] + es == es;
  }

  // The last byte of a packet.
  lemma DecodesLast(s: Swv, x: byte)
    requires s.Valid() && s.zcount < SYNC_ZEROS && Ready(Step(s, x).0)
    ensures Decodes(s, [x], Step(s, x).1)
  {
    RunOne(s, x);
    assert [x][1..] == [];
  }

  lemma HeaderBits(p: Packet)
    requires p.SourcePacket? && p.Valid()
    ensures var h := p.Header();
      && h % 8 != 0 && h != 0
      && h / 8 == p.port && h / 4 % 2 == (if p.hardware then 1 else 0)
      && StateOf(h % 4) == (match |p.payload| case 1 => S1x1 case 2 => S1x2 case _ => S1x4)
  {
  }

  function Headed(s: Swv, p: Packet): Swv
    requires p.SourcePacket? && p.Valid()
  {
    s.(zcount := 0, val := 0, id := p.port + (if p.hardware then 0x100 else 0),
       state := match |p.payload| case 1 => S1x1 case 2 => S1x2 case _ => S1x4)
  }

  lemma HeaderStep(s: Swv, p: Packet)
    requires Ready(s) && p.SourcePacket? && p.Valid()
    ensures Step(s, p.Header()) == (Headed(s, p), [])
  {
    HeaderBits(p);
  }

  lemma Payload1(s: Swv, b: seq<byte>)
    requires s.Valid() && s.state == S1x1 && s.zcount == 0 && |b| == 1
    ensures Decodes(s, b, [Source(s.id, LittleEndian(b), 1)])
  {
    DecodesLast(s, b[0]);
    assert b == [b[0]] && LittleEndian(b[1..]) == 0;
  }

  lemma Payload2(s: Swv, b: seq<byte>)
    requires s.Valid() && s.state == S1x2 && s.zcount == 0 && |b| == 2
    ensures Decodes(s, b, [Source(s.id, LittleEndian(b), 2)])
  {
    var s1 := Step(s, b[0]).0;
    DecodesLast(s1, b[1]);
    DecodesCons(s, b[0], [b[1]], Step(s1, b[1]).1);
    assert b == [b[0]] + [b[1]];
    assert b[1..] == [b[1]] && LittleEndian(b[1..][1..]) == 0;
  }

  lemma Payload4(s: Swv, b: seq<byte>)
    requires s.Valid() && s.state == S1x4 && s.zcount == 0 && |b| == 4
    ensures Decodes(s, b, [Source(s.id, LittleEndian(b), 4)])
  {
    var s1 := Step(s, b[0]).0;
    var s2 := Step(s1, b[1]).0;
    var s3 := Step(s2, b[2]).0;
    var es := Step(s3, b[3]).1;
    LittleEndianOfFour(b);
    assert es == [Source(s.id, LittleEndian(b), 4)];
    DecodesLast(s3, b[3]);
    DecodesCons(s2, b[2], [b[3]], es);
    DecodesCons(s1, b[1], [b[2]] + [b[3]], es);
    DecodesCons(s, b[0], [b[1]] + ([b[2]] + [b[3]]), es);
    assert b == [b[0]] + ([b[1]] + ([b[2]] + [b[3]]));
  }

  lemma LittleEndianOfFour(b: seq<byte>)
    requires |b| == 4
    ensures var b0: int, b1: int, b2: int, b3: int := b[0], b[1], b[2], b[3];
      LittleEndian(b) == b0 + 0x100 * b1 + 0x1_0000 * b2 + 0x100_0000 * b3
  {
    assert b == [b[0], b[1], b[2], b[3]];
    assert b[1..] == [b[1], b[2], b[3]];
    assert b[1..][1..] == [b[2], b[3]];
    assert b[1..][1..][1..] == [b[3]];
    assert LittleEndian([b[3]]) == b[3] + 0x100 * LittleEndian([b[3]][1..]);
  }

  lemma SourceDecodes(s: Swv, p: Packet)
    requires Ready(s) && p.SourcePacket? && p.Valid()
    ensures Decodes(s, p.Encode(), p.Meaning())
  {
    HeaderStep(s, p);
    var s1 := Headed(s, p);
    if |p.payload| == 1 {
      Payload1(s1, p.payload);
    } else if |p.payload| == 2 {
      Payload2(s1, p.payload);
    } else {
      Payload4(s1, p.payload);
    }
    DecodesCons(s, p.Header(), p.payload, p.Meaning());
  }

  // The rest of a protocol packet of which i bytes have arrived.
  lemma {:induction false} ProtoRest(s: Swv, p: Packet, i: nat)
    requires p.ProtocolPacket? && p.Valid() && 1 <= i < |p.bytes|
    requires s.Valid() && s.state == InProto && s.ccount == i && s.data[..i] == p.bytes[..i] && s.zcount == 0
    ensures Decodes(s, p.bytes[i..], p.Meaning())
    decreases |p.bytes| - i
  {
    var x := p.bytes[i];
    var s1 := Step(s, x).0;
    assert s1.data[..i + 1] == p.bytes[..i + 1] by {
      assert s1.data == s.data[i := x];
      assert p.bytes[..i + 1] == p.bytes[..i] + [x];
    }
    assert p.bytes[i..] == [x] + p.bytes[i + 1..];
    if i + 1 == |p.bytes| {
      assert p.bytes[..i + 1] == p.bytes && p.bytes[i..] == [x];
      DecodesLast(s, x);
    } else {
      ProtoRest(s1, p, i + 1);
      DecodesCons(s, x, p.bytes[i + 1..], p.Meaning());
    }
  }

  lemma ProtocolDecodes(s: Swv, p: Packet)
    requires Ready(s) && p.ProtocolPacket? && p.Valid()
    ensures Decodes(s, p.Encode(), p.Meaning())
  {
    var x := p.bytes[0];
    var s1 := Step(s, x).0;
    assert p.bytes == [x] + p.bytes[1..];
    if |p.bytes| == 1 {
      assert p.bytes == [x];
      DecodesLast(s, x);
    } else {
      assert s1.data[..1] == p.bytes[..1];
      ProtoRest(s1, p, 1);
      DecodesCons(s, x, p.bytes[1..], p.Meaning());
    }
  }

  lemma SyncDecodes(s: Swv, p: Packet)
    requires Ready(s) && p.SyncPacket? && p.Valid()
    ensures Run(s, p.Encode()).1 == [] && Ready(Run(s, p.Encode()).0)
  {
    IdleZeros(s, p.zeros);
    ZeroRun(s, p.zeros);
    RunAppend(s, Zeros(p.zeros), [SYNC_END]);
    RunOne(Run(s, Zeros(p.zeros)).0, SYNC_END);
  }

  lemma {:induction false} IdleZeros(s: Swv, k: nat)
    requires s.Valid() && s.state == Idle
    ensures Run(s, Zeros(k)).0.state == Idle && Run(s, Zeros(k)).1 == []
    decreases k
  {
    if k > 0 {
      assert Zeros(k)[1..] == Zeros(k - 1);
      IdleZeros(Step(s, 0).0, k - 1);
    }
  }

  lemma PacketDecodes(s: Swv, p: Packet)
    requires Ready(s) && p.Valid()
    ensures Run(s, p.Encode()).1 == p.Meaning() && Ready(Run(s, p.Encode()).0)
    ensures !p.SyncPacket? ==> Calm(s, p.Encode())
  {
    match p
    case SourcePacket(_, _, _) => SourceDecodes(s, p);
    case ProtocolPacket(_) => ProtocolDecodes(s, p);
    case SyncPacket(_) => SyncDecodes(s, p);
  }

  // ----- streams of packets -----

  ghost predicate AllValid(ps: seq<Packet>) {
    forall i :: 0 <= i < |ps| ==> ps[i].Valid()
  }

  function EncodeAll(ps: seq<Packet>): seq<byte>
    requires AllValid(ps)
  {
    if ps == [] then [] else ps[0].Encode() + EncodeAll(ps[1..])
  }

  function Meanings(ps: seq<Packet>): seq<Event>
    requires AllValid(ps)
  {
    if ps == [] then [] else ps[0].Meaning() + Meanings(ps[1..])
  }

  /** Round trip: any list of source packets of one, two or four bytes from a software or hardware source, of
      protocol packets of up to seven bytes, and of synchronisation packets is decoded to exactly what the
      packets mean. */
  lemma {:induction false} StreamDecodes(s: Swv, ps: seq<Packet>)
    requires Ready(s) && AllValid(ps)
    ensures Run(s, EncodeAll(ps)).1 == Meanings(ps) && Ready(Run(s, EncodeAll(ps)).0)
    decreases |ps|
  {
    if ps != [] {
      PacketDecodes(s, ps[0]);
      StreamDecodes(Run(s, ps[0].Encode()).0, ps[1..]);
      RunAppend(s, ps[0].Encode(), EncodeAll(ps[1..]));
    }
  }

  /** No false resynchronisation: over any stream of source and protocol packets, whatever their payloads, never
      more than four zeros in a row have been counted, inside the packets and between them. */
  lemma {:induction false} StreamIsCalm(s: Swv, ps: seq<Packet>)
    requires Ready(s) && AllValid(ps) && forall i :: 0 <= i < |ps| ==> !ps[i].SyncPacket?
    ensures Calm(s, EncodeAll(ps))
    decreases |ps|
  {
    if ps != [] {
      PacketDecodes(s, ps[0]);
      StreamIsCalm(Run(s, ps[0].Encode()).0, ps[1..]);
      CalmAppend(s, ps[0].Encode(), EncodeAll(ps[1..]));
    }
  }

  /** Self-synchronisation: whatever the decoder was doing, once it has been given zeros and 80 it decodes the
      packets that follow, and nothing else. */
  lemma SyncThenDecode(s: Swv, garbage: seq<byte>, k: nat, ps: seq<Packet>)
    requires s.Valid() && AllValid(ps) && Add32(Run(s, garbage).0.zcount, k) >= SYNC_ZEROS
    ensures var s1 := Run(s, garbage + (Zeros(k) + [SYNC_END])).0;
      Run(s1, EncodeAll(ps)).1 == Meanings(ps)
  {
    RunAppend(s, garbage, Zeros(k) + [SYNC_END]);
    Resynchronises(Run(s, garbage).0, k);
    StreamDecodes(Run(s, garbage + (Zeros(k) + [SYNC_END])).0, ps);
  }
}
