/** The debugged target as the probe sees it: a SW-DP in front of one MEM-AP (ARM IHI 0031, chapters B4
    and C2).  Access-port reads are posted: each returns the result of the one before it. */
module MemAp {
  import opened Words
  import opened Rswdp
  import opened Swd

  // Words of target memory by word address; a word nobody wrote reads as zero.
  type Memory = map<u32, u32>

  function WordAt(a: u32): u32 { a - a % 4 }

  function Load(m: Memory, a: u32): u32 {
    if WordAt(a) in m then m[WordAt(a)] else 0
  }

  function Store(m: Memory, a: u32, v: u32): Memory {
    m[WordAt(a) := v]
  }

  datatype Target = Target(select: u32, ctrl: u32, csw: u32, tar: u32, posted: u32, mem: Memory)

  const APSEL_UNIT: int := 0x100_0000
  const PAGE: int := 0x1000

  // CSW.Size selects 32-bit transfers; the narrower sizes are not part of this model.
  predicate WordSize(csw: u32) { csw % 8 == 2 }

  // CSW.AddrInc
  predicate Increments(csw: u32) { csw / 0x10 % 4 == 1 }

  // Auto-increment wraps inside a 4 KB page.
  function NextTar(tar: u32): u32 {
    if tar % PAGE + 4 < PAGE then tar + 4 else tar + 4 - PAGE
  }

  function AfterTransfer(t: Target): Target {
    if Increments(t.csw) then t.(tar := NextTar(t.tar)) else t
  }

  // The register an access-port request reaches: the bank comes from SELECT, bits 2-3 from the request.
  // Other stands for the registers and access ports this model leaves out.
  datatype ApReg = Csw | Tar | Drw | Other

  function ApRegister(select: u32, op: nat): ApReg {
    if select / APSEL_UNIT != 0 || select / 0x10 % 0x10 != 0 then Other
    else match op / 4 % 4
      case 0 => Csw
      case 1 => Tar
      case 3 => Drw
      case _ => Other
  }

  function WriteAp(t: Target, reg: ApReg, v: u32): Target {
    match reg
    case Csw => t.(csw := v)
    case Tar => t.(tar := v)
    case Drw => if WordSize(t.csw) then AfterTransfer(t.(mem := Store(t.mem, t.tar, v))) else t
    case Other => t
  }

  // The new state, in which the result of the access is the posted one.
  function ReadAp(t: Target, reg: ApReg): Target {
    match reg
    case Csw => t.(posted := t.csw)
    case Tar => t.(posted := t.tar)
    case Drw => if WordSize(t.csw) then AfterTransfer(t.(posted := Load(t.mem, t.tar))) else t.(posted := 0)
    case Other => t.(posted := 0)
  }

  predicate IsAp(op: nat) { op / 2 % 2 == 1 }

  function DpAddress(op: nat): nat { op / 4 % 4 * 4 }

  function WriteReg(t: Target, op: nat, v: u32): Target {
    if IsAp(op) then WriteAp(t, ApRegister(t.select, op), v)
    else if DpAddress(op) == DP_SELECT then t.(select := v)
    else if DpAddress(op) == DP_DPCTRL then t.(ctrl := v)
    else t
  }

  const IDCODE_M3: u32 := 0x1BA0_1477

  // The target afterwards and the word that comes back on the wire.
  function ReadReg(t: Target, op: nat): (Target, u32) {
    if IsAp(op) then (ReadAp(t, ApRegister(t.select, op)), t.posted)
    else if DpAddress(op) == DP_DPCTRL then (t, t.ctrl)
    else if DpAddress(op) == 0 then (t, IDCODE_M3)
    else (t, t.posted)  // RDBUFF and RESEND give the last result again
  }

  const DEBUG_PORT: Bus<Target> := Bus((t, op, v) => WriteReg(t, op, v), (t, op) => ReadReg(t, op))
}
