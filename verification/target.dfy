/**
 The emulated UPDI target as a pure state machine: memories, control/status space and the
 byte-at-a-time instruction decoder. The class Emulator refines it.
 */
module Target {
  import opened Bytes
  import opened Protocol

  const FLASH_SIZE: nat := 0x10000
  const IO_BASE: nat := 0x1000
  const IO_SIZE: nat := 0x0600
  const RX_CAP: nat := 2048

  type Flash = f: seq<byte> | |f| == FLASH_SIZE witness seq(FLASH_SIZE, _ => 0xFF)
  type IoSpace = s: seq<byte> | |s| == IO_SIZE witness seq(IO_SIZE, _ => 0)
  type CsSpace = s: seq<byte> | |s| == 16 witness seq(16, _ => 0)

  datatype Config = Config(
    flashBase: nat, nvmctrlBase: nat, statusOffset: byte, ctrlaOffset: byte,
    fuseDataOffset: byte, fuseAddrOffset: byte, cmdWriteFuse: byte, cmdChipErase: byte,
    sib: seq<byte>)

  /** Everything an operation can leave behind in the target: memories, registers, armed keys. */
  datatype Chip = Chip(
    cfg: Config, flash: Flash, io: IoSpace, cs: CsSpace, nvmKey: bool, eraseKey: bool)

  datatype State = Idle | Opcode | StcsVal | RepeatVal | LdsAddr | StsAddr | StsData | StPtrAddr
                 | StInc8 | StInc16 | KeyBytes

  datatype Decoder = Decoder(
    state: State, acc: seq<byte>, need: nat, pendingCs: byte, curAddr: u32, dataSize: nat,
    ptr: u32, repeatNext: byte, incLeft: int)

  datatype Target = Target(chip: Chip, dec: Decoder, rx: seq<byte>)

  // ---- memory ----

  predicate InFlash(c: Config, addr: int) { c.flashBase <= addr < c.flashBase + FLASH_SIZE }

  predicate InIo(addr: int) { IO_BASE <= addr < IO_BASE + IO_SIZE }

  function MemRead(c: Chip, addr: u32): byte {
    if addr == c.cfg.nvmctrlBase + c.cfg.statusOffset then 0
    else if InFlash(c.cfg, addr) then c.flash[addr - c.cfg.flashBase]
    else if InIo(addr) then c.io[addr - IO_BASE]
    else 0
  }

  function Erased(): Flash { seq(FLASH_SIZE, _ => 0xFF) }

  function SetIo(c: Chip, addr: int, val: byte): Chip {
    if InIo(addr) then c.(io := c.io[addr - IO_BASE := val]) else c
  }

  /** What a store to the NVMCTRL command register sets off, before the store itself. */
  function CommandEffect(c: Chip, val: byte): Chip {
    var c1 := if c.cfg.cmdChipErase != 0 && val == c.cfg.cmdChipErase then c.(flash := Erased()) else c;
    if c.cfg.cmdWriteFuse != 0xFF && val == c.cfg.cmdWriteFuse
    then SetIo(c1, Word(c.io[c.cfg.fuseAddrOffset], c.io[c.cfg.fuseAddrOffset + 1]), c.io[c.cfg.fuseDataOffset])
    else c1
  }

  function MemWrite(c: Chip, addr: u32, val: byte): Chip {
    if InFlash(c.cfg, addr) then c.(flash := c.flash[addr - c.cfg.flashBase := val])
    else if addr == c.cfg.nvmctrlBase + c.cfg.ctrlaOffset then SetIo(CommandEffect(c, val), addr, val)
    else SetIo(c, addr, val)
  }

  /** Successive stores, one byte each, at successive 32-bit addresses. */
  function StoreSeq(c: Chip, addr: u32, data: seq<byte>): Chip
    decreases |data|
  {
    if data == [] then c
    else StoreSeq(MemWrite(c, addr, data[0]), (addr + 1) % U32, data[1..])
  }

  /** The n bytes read at successive 32-bit addresses. */
  function ReadSeq(c: Chip, addr: u32, n: nat): (r: seq<byte>)
    ensures |r| == n
    decreases n
  {
    if n == 0 then [] else [MemRead(c, addr)] + ReadSeq(c, (addr + 1) % U32, n - 1)
  }

  function StoreCs(c: Chip, addr: byte, val: byte): Chip {
    var cs1: CsSpace := c.cs[addr % 16 := val];
    if addr == ASI_RESET_REQ && val == 0 then
      var st := cs1[ASI_SYS_STATUS];
      var st1 := if c.nvmKey then ClearBit(SetBit(st, SYS_STATUS_NVMPROG), SYS_STATUS_LOCK) else st;
      var st2 := if c.eraseKey then ClearBit(st1, SYS_STATUS_LOCK) else st1;
      c.(cs := cs1[ASI_SYS_STATUS := st2])
    else c.(cs := cs1)
  }

  function ArmKey(c: Chip, key: seq<byte>): Chip {
    if key == NVM_KEY then
      c.(nvmKey := true, cs := c.cs[ASI_KEY_STATUS := SetBit(c.cs[ASI_KEY_STATUS], KEY_STATUS_NVMPROG)])
    else if key == ERASE_KEY then
      c.(eraseKey := true, cs := c.cs[ASI_KEY_STATUS := SetBit(c.cs[ASI_KEY_STATUS], KEY_STATUS_CHIPERASE)])
    else c
  }

  // ---- the decoder ----

  /** The response queue drops what it cannot hold. */
  function Push(rx: seq<byte>, b: byte): seq<byte> {
    if |rx| >= RX_CAP - 1 then rx else rx + [b]
  }

  function PushAll(rx: seq<byte>, bytes: seq<byte>): seq<byte>
    decreases |bytes|
  {
    if bytes == [] then rx else PushAll(Push(rx, bytes[0]), bytes[1..])
  }

  function LittleEndian(bytes: seq<byte>): nat {
    if bytes == [] then 0 else bytes[0] + 256 * LittleEndian(bytes[1..])
  }

  function AddressWidth(op: byte): nat { if op / 8 % 2 == 1 then 3 else 2 }

  function OperandWidth(op: byte): nat { if op % 2 == 1 then 2 else 1 }

  /** What SIB position i holds, zero past the end of the block. */
  function SibBytes(sib: seq<byte>, n: nat): (r: seq<byte>)
    ensures |r| == n
  {
    seq(n, i requires 0 <= i < n => if i < |sib| then sib[i] else 0)
  }

  function SibLength(sizeIdx: nat): nat { if sizeIdx == 2 then 32 else if sizeIdx == 1 then 16 else 8 }

  function KeyLength(sizeIdx: nat): nat
    requires sizeIdx < 4
  {
    [8, 16, 32, 64][sizeIdx]
  }

  function LdIncDone(t: Target, n: nat): Target {
    t.(rx := PushAll(t.rx, ReadSeq(t.chip, t.dec.ptr, n)),
       dec := t.dec.(repeatNext := 0, ptr := (t.dec.ptr + n) % U32, state := Idle))
  }

  function FeedOpcode(t: Target, op: byte): Target {
    var d := t.dec;
    var group := op / 32;
    var mode := op / 4 % 4;
    if group == 4 then
      t.(rx := Push(t.rx, t.chip.cs[op % 16]), dec := d.(state := Idle))
    else if group == 6 then
      t.(dec := d.(pendingCs := op % 16, state := StcsVal))
    else if group == 0 then
      t.(dec := d.(dataSize := OperandWidth(op), need := AddressWidth(op), acc := [], state := LdsAddr))
    else if group == 2 then
      t.(dec := d.(dataSize := OperandWidth(op), need := AddressWidth(op), acc := [], state := StsAddr))
    else if group == 3 then
      if mode == 2 then
        t.(dec := d.(need := if op / 2 % 2 == 1 then 3 else 2, acc := [], state := StPtrAddr))
      else if mode == 1 then
        var total := d.repeatNext + 1;
        if op % 4 == DATA_16 then t.(dec := d.(repeatNext := 0, incLeft := total * 2, state := StInc16))
        else t.(dec := d.(repeatNext := 0, incLeft := total, state := StInc8))
      else t.(dec := d.(state := Idle))
    else if group == 1 then
      if mode == 1 then
        var total := d.repeatNext + 1;
        LdIncDone(t, if op % 4 == DATA_16 then 2 * total else total)
      else t.(dec := d.(state := Idle))
    else if group == 5 then
      t.(dec := d.(state := RepeatVal))
    else if op / 4 % 2 == 1 then
      t.(rx := PushAll(t.rx, SibBytes(t.chip.cfg.sib, SibLength(op % 4))), dec := d.(state := Idle))
    else
      t.(dec := d.(need := KeyLength(op % 4), acc := [], state := KeyBytes))
  }

  /** The last byte of an operand field has arrived; acc holds the whole field. */
  function LdsDone(t: Target, acc: seq<byte>): Target {
    var addr := LittleEndian(acc) % U32;
    t.(rx := PushAll(t.rx, ReadSeq(t.chip, addr, t.dec.dataSize)),
       dec := t.dec.(acc := acc, curAddr := addr, state := Idle))
  }

  function StsAddressed(t: Target, acc: seq<byte>): Target {
    t.(rx := Push(t.rx, ACK),
       dec := t.dec.(acc := [], curAddr := LittleEndian(acc) % U32, need := t.dec.dataSize, state := StsData))
  }

  function StsDone(t: Target, acc: seq<byte>): Target {
    t.(chip := StoreSeq(t.chip, t.dec.curAddr, acc), rx := Push(t.rx, ACK),
       dec := t.dec.(acc := acc, state := Idle))
  }

  function StPtrDone(t: Target, acc: seq<byte>): Target {
    t.(rx := Push(t.rx, ACK),
       dec := t.dec.(acc := acc, ptr := LittleEndian(acc) % U32, state := Idle))
  }

  function Feed(t: Target, b: byte): Target {
    var d := t.dec;
    var acc := d.acc + [b];
    match d.state
    case Idle => if b == SYNC then t.(dec := d.(state := Opcode)) else t
    case Opcode => FeedOpcode(t, b)
    case StcsVal => t.(chip := StoreCs(t.chip, d.pendingCs, b), dec := d.(state := Idle))
    case RepeatVal => t.(dec := d.(repeatNext := b, state := Idle))
    case LdsAddr => if |acc| < d.need then t.(dec := d.(acc := acc)) else LdsDone(t, acc)
    case StsAddr => if |acc| < d.need then t.(dec := d.(acc := acc)) else StsAddressed(t, acc)
    case StsData => if |acc| < d.need then t.(dec := d.(acc := acc)) else StsDone(t, acc)
    case StPtrAddr => if |acc| < d.need then t.(dec := d.(acc := acc)) else StPtrDone(t, acc)
    case StInc8 =>
      t.(chip := MemWrite(t.chip, d.ptr, b), rx := Push(t.rx, ACK),
         dec := d.(ptr := (d.ptr + 1) % U32, incLeft := d.incLeft - 1,
                   state := if d.incLeft - 1 <= 0 then Idle else StInc8))
    case StInc16 =>
      t.(chip := MemWrite(t.chip, d.ptr, b),
         dec := d.(ptr := (d.ptr + 1) % U32, incLeft := d.incLeft - 1,
                   state := if d.incLeft - 1 <= 0 then Idle else StInc16))
    case KeyBytes =>
      if |acc| < d.need then t.(dec := d.(acc := acc))
      else t.(chip := ArmKey(t.chip, Reverse(acc)), dec := d.(acc := acc, state := Idle))
  }

  function FeedAll(t: Target, bytes: seq<byte>): Target
    decreases |bytes|
  {
    if bytes == [] then t else FeedAll(Feed(t, bytes[0]), bytes[1..])
  }

  /** Receiving takes what is there, at most n bytes, from the front of the queue. */
  function Taken(t: Target, n: nat): seq<byte> { t.rx[..Min(n, |t.rx|)] }

  function AfterTaking(t: Target, n: nat): Target { t.(rx := t.rx[Min(n, |t.rx|)..]) }

  /** In step with the host: waiting for a SYNCH, nothing unread, no REPEAT pending. */
  predicate Quiet(t: Target) {
    t.dec.state == Idle && t.dec.repeatNext == 0 && t.rx == []
  }
}
