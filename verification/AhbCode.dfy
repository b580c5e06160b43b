/** The transaction compiler of tools/rswdp.c as functions: which messages each q_* routine queues. */
module AhbCode {
  import opened Words
  import opened Rswdp

  // No register has been set in this transaction yet.
  const UNKNOWN: u32 := 0xFFFF_FFFF

  // What the host believes SELECT and TAR hold.
  datatype Cache = Cache(apaddr: u32, ahbtar: u32)

  const EMPTY := Cache(UNKNOWN, UNKNOWN)

  datatype Code = Code(msgs: seq<Msg>, cache: Cache)

  const WR_SELECT: WriteOp := DP_SELECT + OP_WR
  const RD_BUFFER: ReadOp := DP_BUFFER

  // The register bank of an access-port address.
  function Bank(addr: u32): u32 { addr % 0x100 / 0x10 * 0x10 }

  function ApWriteOp(addr: u32): WriteOp { addr % 0x10 / 4 * 4 + OP_AP + OP_WR }

  function ApReadOp(addr: u32): ReadOp { addr % 0x10 / 4 * 4 + OP_AP }

  function ApSelect(c: Cache, addr: u32): Code {
    if c.apaddr != Bank(addr) then Code([Write(WR_SELECT, [Bank(addr)])], c.(apaddr := Bank(addr)))
    else Code([], c)
  }

  function ApWrite(c: Cache, addr: u32, value: u32): Code {
    var s := ApSelect(c, addr);
    Code(s.msgs + [Write(ApWriteOp(addr), [value])], s.cache)
  }

  // The read that starts the access returns an old result; RDBUFF then returns the new one.
  function ApRead(c: Cache, addr: u32): Code {
    var s := ApSelect(c, addr);
    Code(s.msgs + [Discard(ApReadOp(addr), 1), Read(RD_BUFFER, 1)], s.cache)
  }

  function SetTar(c: Cache, addr: u32): Code {
    if c.ahbtar != addr then
      var w := ApWrite(c, AHB_TAR, addr);
      Code(w.msgs, w.cache.(ahbtar := addr))
    else Code([], c)
  }

  /** One queued memory access. */
  datatype AhbOp = AhbWrite(addr: u32, value: u32) | AhbRead(addr: u32)

  function CompileOp(c: Cache, op: AhbOp): Code {
    var s := SetTar(c, op.addr);
    var x := if op.AhbWrite? then ApWrite(s.cache, AHB_DRW, op.value) else ApRead(s.cache, AHB_DRW);
    Code(s.msgs + x.msgs, x.cache)
  }

  function Compile(c: Cache, ops: seq<AhbOp>): Code
    decreases |ops|
  {
    if ops == [] then Code([], c)
    else
      var first := CompileOp(c, ops[0]);
      var rest := Compile(first.cache, ops[1..]);
      Code(first.msgs + rest.msgs, rest.cache)
  }
}
