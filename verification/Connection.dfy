/** The connection between the reader thread and the clients of q_exec (tools/rswdp.c).  What runs under
    swd_lock, between acquiring it and releasing it or waiting on swd_event, is one step. */
module Connection {
  import opened Words
  import opened Rswdp

  const STATUS_WAIT: int := -2
  const STATUS_FAIL: int := -1

  datatype Option<T> = None | Some(value: T)

  // A packet from the probe: its first word, and its length in bytes.
  datatype Packet = Packet(id: u32, len: int)

  // A read from the endpoint either fails or returns a packet.
  datatype ReadResult = Failed | Got(packet: Packet)

  // Where swd_reader is: opening a handle, about to send the version query, in usb_read_forever or holding
  // its result, or waiting for a client to acknowledge a disconnect.
  datatype ReaderAt = Opening | Opened | Reading | Holding(result: ReadResult) | Draining

  // One call of q_exec, and what it finally returned.
  datatype Client = Waiting(id: u32, buffer: Option<Packet>) | Done(id: u32, status: int, buffer: Option<Packet>)

  datatype State = State(
    usb: Option<nat>,
    online: int,
    sequence: u16,
    txnId: u32,
    txnData: Option<nat>,
    status: int,
    reader: ReaderAt,
    queryId: u32,
    clients: map<nat, Client>,
    // Bookkeeping: handles opened so far (they are numbered), handles closed in order, disconnects seen, and
    // whether a handle was ever used that is not open.
    handles: nat,
    closes: seq<nat>,
    disconnects: nat,
    misused: bool)

  const INITIAL := State(None, 0, 1, 0, None, 0, Opening, 0, map[], 0, [], 0, false)

  datatype Step =
    | Call(client: nat, written: bool)
    | Wake(client: nat)
    | Open
    | Query
    | ReadReturns(result: ReadResult)
    | Handle
    | Drained

  // Clients either hold debugger_lock for the whole of a call, or do not.
  datatype Discipline = Serialised | Unserialised

  predicate IsOpen(s: State, h: Option<nat>) {
    h.Some? && h.value < s.handles && h.value !in s.closes
  }

  function Use(s: State): State {
    s.(misused := s.misused || !IsOpen(s, s.usb))
  }

  ghost predicate NobodyWaits(s: State) {
    forall c :: c in s.clients ==> s.clients[c].Done?
  }

  ghost predicate Enabled(d: Discipline, s: State, step: Step) {
    match step
    case Call(c, _) => c !in s.clients && (d.Serialised? ==> NobodyWaits(s))
    case Wake(c) => c in s.clients && s.clients[c].Waiting?
    case Open => s.reader.Opening?
    case Query => s.reader.Opened?
    case ReadReturns(_) => s.reader.Reading?
    case Handle => s.reader.Holding?
    case Drained => s.reader.Draining? && s.online != -1
  }

  // q_exec up to its wait, or to its end if it does not get that far.
  function CallStep(s: State, c: nat, written: bool): State {
    var id := TxnStart(s.sequence);
    var s1 := s.(sequence := (s.sequence + 1) % 0x1_0000);
    if s.online != 1 then
      var s2 := if s.online == -1 then AckDisconnect(s1) else s1;
      s2.(clients := s2.clients[c := Done(id, -1, None)])
    else
      var s2 := Use(s1);
      if written then
        s2.(txnId := id, txnData := Some(c), status := STATUS_WAIT, clients := s2.clients[c := Waiting(id, None)])
      else
        s2.(clients := s2.clients[c := Done(id, -1, None)])
  }

  // usb_close; usb = NULL; swd_online = 0
  function AckDisconnect(s: State): State {
    var s1 := Use(s);
    s1.(usb := None, online := 0, closes := if s.usb.Some? then s.closes + [s.usb.value] else s.closes)
  }

  // A waiter runs again; it goes back to waiting unless the status has changed.
  function WakeStep(s: State, c: nat): State
    requires c in s.clients && s.clients[c].Waiting?
  {
    var me := s.clients[c];
    if s.status == STATUS_WAIT then s
    else
      s.(txnData := None,
         clients := s.clients[c := Done(me.id, if s.status == STATUS_FAIL then -1 else s.status, me.buffer)])
  }

  // The body of the reader's loop, once it has the lock again.
  function HandleStep(s: State, r: ReadResult): State {
    match r
    case Failed =>
      s.(online := -1, status := STATUS_FAIL, reader := Draining, disconnects := s.disconnects + 1)
    case Got(p) =>
      var s1 := s.(reader := Reading);
      if p.len < 4 || p.len % 4 != 0 then s1
      else if s.queryId != 0 && p.id == s.queryId then s1.(queryId := 0, online := 1)
      else if p.id == TXN_ASYNC then s1
      else if s.status == STATUS_WAIT && p.id == s.txnId then CopyReply(s1.(status := p.len), p)
      else s1
  }

  // memcpy(swd_txn_data, data, r)
  function CopyReply(s: State, p: Packet): State {
    if s.txnData.Some? && s.txnData.value in s.clients && s.clients[s.txnData.value].Waiting? then
      var c := s.txnData.value;
      s.(clients := s.clients[c := s.clients[c].(buffer := Some(p))])
    else s.(misused := true)
  }

  function OpenStep(s: State): State {
    s.(usb := Some(s.handles), handles := s.handles + 1, reader := Opened)
  }

  // The version query; the reply is awaited in the loop.
  function QueryStep(s: State): State {
    Use(s).(queryId := TxnStart(s.sequence), sequence := (s.sequence + 1) % 0x1_0000, reader := Reading)
  }

  ghost function Next(d: Discipline, s: State, step: Step): State {
    if !Enabled(d, s, step) then s
    else match step
      case Call(c, written) => CallStep(s, c, written)
      case Wake(c) => WakeStep(s, c)
      case Open => OpenStep(s)
      case Query => QueryStep(s)
      case ReadReturns(r) => Use(s).(reader := Holding(r))
      case Handle => HandleStep(s, s.reader.result)
      case Drained => s.(reader := Opening)
  }

  ghost function After(d: Discipline, s: State, steps: seq<Step>): State
    decreases |steps|
  {
    if steps == [] then s else After(d, Next(d, s, steps[0]), steps[1..])
  }

  // ----- the handle -----

  ghost predicate Distinct(h: seq<nat>) {
    forall i, j :: 0 <= i < j < |h| ==> h[i] != h[j]
  }

  // swd_txn_data is the buffer of the client that waits for transaction swd_txn_id.
  predicate LiveBuffer(s: State) {
    && s.txnData.Some? && s.txnData.value in s.clients
    && s.clients[s.txnData.value].Waiting? && s.clients[s.txnData.value].id == s.txnId
  }

  /** The handle is open whenever swd_online is 1 or -1, and while the reader reads; it is never used once
      closed; every disconnect closes one handle, and no handle is closed twice; and a status of WAIT always
      comes with the buffer of a client that is still waiting, for no asynchronous packet. */
  ghost predicate HandleInv(s: State) {
    && !s.misused
    && s.online in {-1, 0, 1}
    && (s.reader.Opening? ==> s.usb.None? && s.online == 0)
    && (s.reader.Opened? ==> IsOpen(s, s.usb) && s.online == 0)
    && (s.reader.Reading? || s.reader.Holding? ==>
          IsOpen(s, s.usb) && s.online == (if s.queryId == 0 then 1 else 0))
    && (s.reader.Draining? ==> s.online != 1 && if s.online == -1 then IsOpen(s, s.usb) else s.usb.None?)
    && (s.status == STATUS_WAIT ==> s.online == 1 && LiveBuffer(s) && s.txnId != TXN_ASYNC)
    && Distinct(s.closes)
    && (forall i :: 0 <= i < |s.closes| ==> s.closes[i] < s.handles)
    && s.handles == |s.closes| + (if s.usb.Some? then 1 else 0)
    && s.disconnects == |s.closes| + (if s.online == -1 then 1 else 0)
  }

  lemma TxnStartNonzero(n: nat)
    ensures TxnStart(n) != 0 && TxnStart(n) != TXN_ASYNC
  {
  }

  lemma HandleStepKeeps(d: Discipline, s: State, step: Step)
    requires HandleInv(s)
    ensures HandleInv(Next(d, s, step))
  {
    if Enabled(d, s, step) {
      TxnStartNonzero(s.sequence);
      match step
      case Call(c, written) =>
      case Wake(c) =>
      case Open =>
      case Query =>
      case ReadReturns(r) =>
      case Handle =>
      case Drained =>
    }
  }

  lemma {:induction false} RunsKeepHandle(d: Discipline, s: State, steps: seq<Step>)
    requires HandleInv(s)
    ensures HandleInv(After(d, s, steps))
    decreases |steps|
  {
    if steps != [] {
      HandleStepKeeps(d, s, steps[0]);
      RunsKeepHandle(d, Next(d, s, steps[0]), steps[1..]);
    }
  }

  /** In every run, whether or not the clients hold debugger_lock: the handle is never used unless it is open,
      it is open whenever swd_online is 1 or -1, each disconnect closes exactly one handle, once it is
      acknowledged, and status WAIT means that swd_txn_data is the buffer of a live waiter. */
  lemma HandleSafety(d: Discipline, steps: seq<Step>)
    ensures var s := After(d, INITIAL, steps);
      && !s.misused
      && (s.online == 1 || s.online == -1 ==> IsOpen(s, s.usb))
      && Distinct(s.closes) && s.disconnects == |s.closes| + (if s.online == -1 then 1 else 0)
      && (s.status == STATUS_WAIT ==> LiveBuffer(s))
  {
    RunsKeepHandle(d, INITIAL, steps);
  }

  // The step uses the handle.
  predicate UsesHandle(s: State, step: Step) {
    step.Query? || step.ReadReturns? || (step.Call? && s.online != 0)
  }

  /** Whatever step comes next in any run, if it uses the handle the handle is open. */
  lemma UsesAreOpen(d: Discipline, steps: seq<Step>, step: Step)
    requires var s := After(d, INITIAL, steps); Enabled(d, s, step) && UsesHandle(s, step)
    ensures var s := After(d, INITIAL, steps); s.usb.Some? && s.usb.value < s.handles && s.usb.value !in s.closes
  {
    RunsKeepHandle(d, INITIAL, steps);
  }

  // ----- whose reply it is -----

  predicate Holds(c: Client, status: int) {
    c.buffer.Some? && c.buffer.value.id == c.id && c.buffer.value.len == status
  }

  // A call that returned a length holds a packet of that length with its own transaction id.
  ghost predicate OwnReplies(s: State) {
    forall c :: c in s.clients && s.clients[c].Done? && s.clients[c].status > 0 ==>
      Holds(s.clients[c], s.clients[c].status)
  }

  // Who waits is the one client the globals speak of.
  ghost predicate WaiterInv(s: State) {
    forall c :: c in s.clients && s.clients[c].Waiting? ==>
      && s.txnData == Some(c) && s.clients[c].id == s.txnId
      && (s.status == STATUS_WAIT || s.status == STATUS_FAIL || (s.status > 0 && Holds(s.clients[c], s.status)))
  }

  lemma SerialisedStepKeeps(s: State, step: Step)
    requires HandleInv(s) && WaiterInv(s) && OwnReplies(s)
    ensures WaiterInv(Next(Serialised, s, step)) && OwnReplies(Next(Serialised, s, step))
  {
    if Enabled(Serialised, s, step) {
      match step
      case Call(c, written) =>
      case Wake(c) =>
      case Open =>
      case Query =>
      case ReadReturns(r) =>
      case Handle =>
      case Drained =>
    }
  }

  lemma {:induction false} SerialisedRuns(s: State, steps: seq<Step>)
    requires HandleInv(s) && WaiterInv(s) && OwnReplies(s)
    ensures WaiterInv(After(Serialised, s, steps)) && OwnReplies(After(Serialised, s, steps))
    decreases |steps|
  {
    if steps != [] {
      HandleStepKeeps(Serialised, s, steps[0]);
      SerialisedStepKeeps(s, steps[0]);
      SerialisedRuns(Next(Serialised, s, steps[0]), steps[1..]);
    }
  }

  // A waiter is never stranded: its wait ends at its next turn, or the reader is at work on an open handle.
  lemma WaiterIsServed(s: State, c: nat)
    requires HandleInv(s) && WaiterInv(s) && c in s.clients && s.clients[c].Waiting?
    ensures s.status != STATUS_WAIT ==> Next(Serialised, s, Wake(c)).clients[c].Done?
    ensures s.status == STATUS_WAIT ==> (s.reader.Reading? || s.reader.Holding?) && IsOpen(s, s.usb)
  {
  }

  // ----- how a wait ends -----

  lemma TwoSteps(d: Discipline, s: State, a: Step, b: Step)
    ensures After(d, s, [a, b]) == Next(d, Next(d, s, a), b)
  {
    var s1 := Next(d, s, a);
    assert [a, b][1..] == [b] && [b][1..] == [];
    assert After(d, s1, [b]) == After(d, Next(d, s1, b), []);
  }

  // While a client waits the reader is in its loop, where any result may come next.
  lemma ReadArrives(d: Discipline, s: State, r: ReadResult)
    requires HandleInv(s) && s.status == STATUS_WAIT
    ensures s.reader.Reading? || s.reader.Holding?
    ensures s.reader.Reading? ==> Next(d, s, ReadReturns(r)) == s.(reader := Holding(r))
  {
  }

  /** In every reachable state, with the lock or without it: a packet of whole words with the id that is waited for
      ends the wait at the client's next turn, which returns the packet's length and has the packet in its buffer. */
  lemma OwnReplyEndsWait(d: Discipline, steps: seq<Step>, p: Packet)
    requires var s := After(d, INITIAL, steps); s.status == STATUS_WAIT && s.reader == Holding(Got(p))
    requires p.id == After(d, INITIAL, steps).txnId && 4 <= p.len && p.len % 4 == 0
    ensures var s := After(d, INITIAL, steps);
      && LiveBuffer(s)
      && var c, s' := s.txnData.value, After(d, s, [Handle, Wake(s.txnData.value)]);
      && c in s'.clients && s'.clients[c] == Done(s.txnId, p.len, Some(p))
  {
    var s := After(d, INITIAL, steps);
    RunsKeepHandle(d, INITIAL, steps);
    TwoSteps(d, s, Handle, Wake(s.txnData.value));
  }

  /** Any other packet leaves everything as it was, and the reader reads on. */
  lemma OtherPacketsChangeNothing(d: Discipline, steps: seq<Step>, p: Packet)
    requires var s := After(d, INITIAL, steps); s.status == STATUS_WAIT && s.reader == Holding(Got(p))
    requires p.id != After(d, INITIAL, steps).txnId || p.len < 4 || p.len % 4 != 0
    ensures var s := After(d, INITIAL, steps); Next(d, s, Handle) == s.(reader := Reading)
  {
    RunsKeepHandle(d, INITIAL, steps);
  }

  /** A read that fails ends the wait with -1. */
  lemma FailedReadEndsWait(d: Discipline, steps: seq<Step>)
    requires var s := After(d, INITIAL, steps); s.status == STATUS_WAIT && s.reader == Holding(Failed)
    ensures var s := After(d, INITIAL, steps);
      && LiveBuffer(s)
      && var c, s' := s.txnData.value, After(d, s, [Handle, Wake(s.txnData.value)]);
      && c in s'.clients && s'.clients[c].Done? && s'.clients[c].status == -1
      && s'.online == -1 && s'.reader.Draining?
  {
    var s := After(d, INITIAL, steps);
    RunsKeepHandle(d, INITIAL, steps);
    TwoSteps(d, s, Handle, Wake(s.txnData.value));
  }

  /** A call waits for its own id if the connection is up and its transaction is written, and returns -1 if not; after
      a disconnect the call acknowledges it. */
  lemma CallOutcome(d: Discipline, s: State, c: nat, written: bool)
    requires HandleInv(s) && Enabled(d, s, Call(c, written))
    ensures var s', id := Next(d, s, Call(c, written)), TxnStart(s.sequence);
      && c in s'.clients
      && (if s.online == 1 && written
          then s'.clients[c] == Waiting(id, None) && s'.status == STATUS_WAIT && s'.txnId == id && s'.txnData == Some(c)
          else s'.clients[c] == Done(id, -1, None) && s'.status == s.status)
      && s'.online == if s.online == -1 then 0 else s.online
  {
  }

  /** After a disconnect that is acknowledged the reader comes back: with the reply to its query the connection is up
      again, on a new handle. */
  lemma Reconnects(d: Discipline, s: State, p: Packet)
    requires HandleInv(s) && s.reader.Draining? && s.online == 0
    requires p.id == TxnStart(s.sequence) && 4 <= p.len && p.len % 4 == 0
    ensures var s1 := After(d, s, [Drained, Open]);
      var s2 := After(d, s1, [Query, ReadReturns(Got(p))]);
      var s3 := Next(d, s2, Handle);
      s3.online == 1 && s3.reader.Reading? && s3.usb == Some(s.handles) && IsOpen(s3, s3.usb) && s3.clients == s.clients
  {
    TxnStartNonzero(s.sequence);
    TwoSteps(d, s, Drained, Open);
    TwoSteps(d, After(d, s, [Drained, Open]), Query, ReadReturns(Got(p)));
    HandleStepKeeps(d, s, Drained);
    HandleStepKeeps(d, Next(d, s, Drained), Open);
  }

  // ----- transaction ids -----

  // Sequence numbers taken in a run.
  ghost function Draws(d: Discipline, s: State, steps: seq<Step>): nat
    decreases |steps|
  {
    if steps == [] then 0
    else
      var one := if Enabled(d, s, steps[0]) && (steps[0].Call? || steps[0].Query?) then 1 else 0;
      one + Draws(d, Next(d, s, steps[0]), steps[1..])
  }

  lemma {:induction false} SequenceCounts(d: Discipline, s: State, steps: seq<Step>)
    ensures After(d, s, steps).sequence == (s.sequence + Draws(d, s, steps)) % 0x1_0000
    decreases |steps|
  {
    if steps != [] {
      var n := Next(d, s, steps[0]);
      SequenceCounts(d, n, steps[1..]);
      OneDraw(d, s, steps[0]);
      AddModulo(s.sequence, if n.sequence == s.sequence then 0 else 1, Draws(d, n, steps[1..]));
    }
  }

  lemma OneDraw(d: Discipline, s: State, step: Step)
    ensures Next(d, s, step).sequence
         == if Enabled(d, s, step) && (step.Call? || step.Query?) then (s.sequence + 1) % 0x1_0000 else s.sequence
    ensures (s.sequence + 1) % 0x1_0000 != s.sequence
  {
  }

  lemma AddModulo(a: nat, b: nat, c: nat)
    ensures ((a + b) % 0x1_0000 + c) % 0x1_0000 == (a + (b + c)) % 0x1_0000
  {
  }

  /** Two calls have different ids, however many others start in between, up to 0xfffe of them. */
  lemma CallIdsDiffer(d: Discipline, s: State, a: Step, steps: seq<Step>, b: Step)
    requires a.Call? && Enabled(d, s, a)
    requires var s1 := Next(d, s, a); b.Call? && Enabled(d, After(d, s1, steps), b) && Draws(d, s1, steps) < 0xFFFF
    ensures var s1 := Next(d, s, a);
      var s3 := Next(d, After(d, s1, steps), b);
      && a.client in s1.clients && b.client in s3.clients
      && s1.clients[a.client].id != s3.clients[b.client].id
  {
    hide Next, Enabled, TxnStart;
    var s1 := Next(d, s, a);
    var k := Draws(d, s1, steps);
    CallTakesId(d, s, a);
    SequenceCounts(d, s1, steps);
    CallTakesId(d, After(d, s1, steps), b);
    AddModulo(s.sequence, 1, k);
    IdsDiffer(s.sequence, 1 + k);
  }

  lemma CallTakesId(d: Discipline, s: State, a: Step)
    requires a.Call? && Enabled(d, s, a)
    ensures var s1 := Next(d, s, a);
      && s1.sequence == (s.sequence + 1) % 0x1_0000
      && a.client in s1.clients && s1.clients[a.client].id == TxnStart(s.sequence)
  {
  }

  lemma {:induction false} AfterOneMore(d: Discipline, s: State, steps: seq<Step>, step: Step)
    ensures After(d, s, steps + [step]) == Next(d, After(d, s, steps), step)
    decreases |steps|
  {
    if steps == [] {
      assert [step][1..] == [];
    } else {
      assert (steps + [step])[1..] == steps[1..] + [step];
      AfterOneMore(d, Next(d, s, steps[0]), steps[1..], step);
    }
  }

  // The connection made, and nobody calling yet.
  const CONNECTED: State :=
    INITIAL.(usb := Some(0), handles := 1, sequence := 2, queryId := 0, online := 1, reader := Reading)

  lemma Connects(d: Discipline)
    ensures After(d, INITIAL, [Open, Query, ReadReturns(Got(Packet(TxnStart(1), 8))), Handle]) == CONNECTED
  {
    var reply := ReadReturns(Got(Packet(TxnStart(1), 8)));
    TxnStartNonzero(1);
    var b := Next(d, Next(d, INITIAL, Open), Query);
    assert Next(d, Next(d, b, reply), Handle) == CONNECTED;
    AfterOneMore(d, INITIAL, [], Open);
    AfterOneMore(d, INITIAL, [Open], Query);
    AfterOneMore(d, INITIAL, [Open] + [Query], reply);
    AfterOneMore(d, INITIAL, [Open] + [Query] + [reply], Handle);
    assert [] + [Open] == [Open];
    assert [Open] + [Query] + [reply] + [Handle] == [Open, Query, reply, Handle];
  }

  // Client 0 calls, client 1 calls, the reply to client 1 arrives, and client 0 wakes.
  lemma Overlap()
    ensures var d, reply := Unserialised, ReadReturns(Got(Packet(TxnStart(3), 8)));
      var s3 := Next(d, Next(d, CONNECTED, Call(0, true)), Call(1, true));
      !OwnReplies(Next(d, Next(d, Next(d, s3, reply), Handle), Wake(0)))
  {
    var d, reply := Unserialised, ReadReturns(Got(Packet(TxnStart(3), 8)));
    var s3 := Next(d, Next(d, CONNECTED, Call(0, true)), Call(1, true));
    assert s3.clients[0] == Waiting(TxnStart(2), None) && s3.txnId == TxnStart(3);
    var s5 := Next(d, Next(d, s3, reply), Handle);
    assert Next(d, s5, Wake(0)).clients[0] == Done(TxnStart(2), 8, None);
  }

  // Two overlapping calls: the first to wake takes the other's reply for its own.
  lemma OverlappingCalls()
    ensures exists steps :: !OwnReplies(After(Unserialised, INITIAL, steps))
  {
    hide Next, OwnReplies, CONNECTED;
    var d, reply := Unserialised, ReadReturns(Got(Packet(TxnStart(3), 8)));
    var run1 := [Open, Query, ReadReturns(Got(Packet(TxnStart(1), 8))), Handle];
    var run2 := run1 + [Call(0, true)];
    var run3 := run2 + [Call(1, true)];
    var run4 := run3 + [reply];
    var run5 := run4 + [Handle];
    Connects(d);
    AfterOneMore(d, INITIAL, run1, Call(0, true));
    AfterOneMore(d, INITIAL, run2, Call(1, true));
    AfterOneMore(d, INITIAL, run3, reply);
    AfterOneMore(d, INITIAL, run4, Handle);
    AfterOneMore(d, INITIAL, run5, Wake(0));
    Overlap();
    assert !OwnReplies(After(d, INITIAL, run5 + [Wake(0)]));
  }

  /** In all runs a call that gets a reply gets its own, if and only if the clients hold debugger_lock. */
  lemma OwnRepliesExactly(d: Discipline)
    ensures (forall steps :: OwnReplies(After(d, INITIAL, steps))) <==> d == Serialised
  {
    if d == Serialised {
      forall steps
        ensures OwnReplies(After(d, INITIAL, steps))
      {
        SerialisedRuns(INITIAL, steps);
      }
    } else {
      OverlappingCalls();
    }
  }
}
