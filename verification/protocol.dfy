/**
 The instruction frames of the UPDI data link and, for every link operation, the script of
 sends and expected answers that the operation performs on the wire.
 */
module Protocol {
  import opened Bytes

  // Instruction opcodes and their operand fields (updi_constants.h)
  const SYNC: byte := 0x55
  const ACK: byte := 0x40
  const LDS: byte := 0x00
  const LD: byte := 0x20
  const STS: byte := 0x40
  const ST: byte := 0x60
  const LDCS: byte := 0x80
  const REPEAT: byte := 0xA0
  const STCS: byte := 0xC0
  const KEY: byte := 0xE0
  const PTR_INC: byte := 0x04
  const PTR_ADDRESS: byte := 0x08
  const ADDRESS_16: byte := 0x04
  const ADDRESS_24: byte := 0x08
  const DATA_8: byte := 0x00
  const DATA_16: byte := 0x01
  const DATA_24: byte := 0x02
  const KEY_SIB: byte := 0x04
  const KEY_64: byte := 0x00
  const MAX_REPEAT: nat := 256

  // Control/status registers
  const CS_STATUSA: byte := 0x00
  const CS_CTRLA: byte := 0x02
  const CS_CTRLB: byte := 0x03
  const ASI_KEY_STATUS: byte := 0x07
  const ASI_RESET_REQ: byte := 0x08
  const ASI_SYS_STATUS: byte := 0x0B
  const RESET_REQ_VALUE: byte := 0x59
  const CTRLA_IBDLY: byte := 0x80
  const CTRLA_RSD: byte := 0x08
  const CTRLB_CCDETDIS: byte := 0x08
  const CTRLB_UPDIDIS: byte := 0x04
  const KEY_STATUS_CHIPERASE: nat := 8
  const KEY_STATUS_NVMPROG: nat := 16
  const SYS_STATUS_NVMPROG: nat := 8
  const SYS_STATUS_LOCK: nat := 1

  // "NVMProg " and "NVMErase"
  const NVM_KEY: seq<byte> := [0x4E, 0x56, 0x4D, 0x50, 0x72, 0x6F, 0x67, 0x20]
  const ERASE_KEY: seq<byte> := [0x4E, 0x56, 0x4D, 0x45, 0x72, 0x61, 0x73, 0x65]

  /** Result codes of the whole stack (updi_link.h). */
  datatype Status = Ok | ErrTimeout | ErrNack | ErrProtocol | ErrParam | ErrVerify
                  | ErrNvm | ErrLocked | ErrUnsupported | ErrTransport

  type AddressBytes = n: int | 2 <= n <= 3 witness 2

  // ---- frames ----

  function AddressSpace(ab: AddressBytes): int { if ab == 3 then 0x100_0000 else 0x1_0000 }

  /** An address some way on; addresses are 32 bits wide. */
  function AddressAt(base: u32, off: nat): u32 { (base + off) % U32 }

  lemma AddressAtThen(base: u32, m: nat, n: nat)
    ensures AddressAt(AddressAt(base, m), n) == AddressAt(base, m + n)
  {
    var q := (base + m) / U32;
    assert base + m + n == U32 * q + (AddressAt(base, m) + n);
  }

  /** The little-endian address bytes of a frame. */
  function AddressField(ab: AddressBytes, address: u32): seq<byte> {
    [address % 256, address / 256 % 256] + if ab == 3 then [address / 65536 % 256] else []
  }

  function AddressSize(ab: AddressBytes): byte { if ab == 3 then ADDRESS_24 else ADDRESS_16 }

  function PointerSize(ab: AddressBytes): byte { if ab == 3 then DATA_24 else DATA_16 }

  function LdcsFrame(address: byte): seq<byte> { [SYNC, LDCS + address % 16] }

  function StcsFrame(address: byte, value: byte): seq<byte> { [SYNC, STCS + address % 16, value] }

  function LdsFrame(ab: AddressBytes, address: u32): seq<byte> {
    [SYNC, LDS + AddressSize(ab) + DATA_8] + AddressField(ab, address)
  }

  function StsFrame(ab: AddressBytes, dataSize: byte, address: u32): seq<byte>
    requires dataSize <= DATA_16
  {
    [SYNC, STS + AddressSize(ab) + dataSize] + AddressField(ab, address)
  }

  function StPtrFrame(ab: AddressBytes, address: u32): seq<byte> {
    [SYNC, ST + PTR_ADDRESS + PointerSize(ab)] + AddressField(ab, address)
  }

  function LdIncFrame(dataSize: byte): seq<byte>
    requires dataSize <= DATA_16
  {
    [SYNC, LD + PTR_INC + dataSize]
  }

  function StIncFrame(dataSize: byte): seq<byte>
    requires dataSize <= DATA_16
  {
    [SYNC, ST + PTR_INC + dataSize]
  }

  function RepeatFrame(count: nat): seq<byte>
    requires 1 <= count <= MAX_REPEAT
  {
    [SYNC, REPEAT, (count - 1) % 256]
  }

  function KeyFrame(sizeIdx: byte): seq<byte>
    requires sizeIdx < 4
  {
    [SYNC, KEY + sizeIdx]
  }

  function SibFrame(selector: byte): seq<byte>
    requires selector < 4
  {
    [SYNC, KEY + KEY_SIB + selector]
  }

  // ---- scripts ----

  /**
   One step of a link operation: transmit a frame, expect exactly one ACK, read exactly n bytes,
   or read up to n bytes and accept any positive number.
   */
  datatype Step = Tx(frame: seq<byte>) | Ack | Read(n: nat) | ReadSome(n: nat)

  type Script = seq<Step>

  function LdcsScript(address: byte): Script { [Tx(LdcsFrame(address)), Read(1)] }

  function StcsScript(address: byte, value: byte): Script { [Tx(StcsFrame(address, value))] }

  function LdByteScript(ab: AddressBytes, address: u32): Script {
    [Tx(LdsFrame(ab, address)), Read(1)]
  }

  function DataPhase(values: seq<byte>): Script { [Ack, Tx(values), Ack] }

  function StByteScript(ab: AddressBytes, address: u32, value: byte): Script {
    [Tx(StsFrame(ab, DATA_8, address))] + DataPhase([value])
  }

  function StWordScript(ab: AddressBytes, address: u32, lo: byte, hi: byte): Script {
    [Tx(StsFrame(ab, DATA_16, address))] + DataPhase([lo, hi])
  }

  function StPtrScript(ab: AddressBytes, address: u32): Script {
    [Tx(StPtrFrame(ab, address)), Ack]
  }

  function LdIncScript(size: nat): Script { [Tx(LdIncFrame(DATA_8)), Read(size)] }

  function LdInc16Script(words: nat): Script { [Tx(LdIncFrame(DATA_16)), Read(2 * words)] }

  /** Bytes streamed one by one under an active REPEAT, each acknowledged. */
  function StreamScript(data: seq<byte>): Script {
    if data == [] then [] else [Tx([data[0]]), Ack] + StreamScript(data[1..])
  }

  function StIncScript(data: seq<byte>): Script
    requires data != []
  {
    [Tx(StIncFrame(DATA_8) + [data[0]]), Ack] + StreamScript(data[1..])
  }

  function DisableAckScript(): Script { StcsScript(CS_CTRLA, CTRLA_IBDLY + CTRLA_RSD) }

  function EnableAckScript(): Script { StcsScript(CS_CTRLA, CTRLA_IBDLY) }

  function StInc16BlockScript(data: seq<byte>): Script {
    DisableAckScript() + [Tx(StIncFrame(DATA_16))] + [Tx(data)] + EnableAckScript()
  }

  function RepeatScript(count: nat): Script
    requires 1 <= count <= MAX_REPEAT
  {
    [Tx(RepeatFrame(count))]
  }

  /** What an instruction comes to before anything is sent: it is refused, or follows a script. */
  datatype Instruction = Refused | Sends(script: Script)

  function RepeatOf(count: nat): Instruction {
    if 1 <= count <= MAX_REPEAT then Sends(RepeatScript(count)) else Refused
  }

  function KeyScript(sizeIdx: byte, key: seq<byte>): Script
    requires sizeIdx < 4
  {
    [Tx(KeyFrame(sizeIdx)), Tx(Reverse(key))]
  }

  function SibSelector(size: nat): byte { if size >= 32 then 2 else if size >= 16 then 1 else 0 }

  function SibScript(size: nat): Script { [Tx(SibFrame(SibSelector(size))), ReadSome(size)] }

  function RepeatIfMany(count: nat): Script
    requires count <= MAX_REPEAT
  {
    if count > 1 then RepeatScript(count) else []
  }

  function ReadDataScript(ab: AddressBytes, address: u32, size: nat): Script
    requires size <= MAX_REPEAT
  {
    StPtrScript(ab, address) + RepeatIfMany(size) + LdIncScript(size)
  }

  function ReadWordsScript(ab: AddressBytes, address: u32, words: nat): Script
    requires words <= MAX_REPEAT / 2
  {
    StPtrScript(ab, address) + RepeatIfMany(words) + LdInc16Script(words)
  }

  /** A read of any length, in pieces of at most 256 bytes. */
  function ReadScript(ab: AddressBytes, address: u32, size: nat): Script
    decreases size
  {
    if size == 0 then []
    else
      var chunk := Min(size, MAX_REPEAT);
      ReadDataScript(ab, address, chunk) + ReadScript(ab, AddressAt(address, chunk), size - chunk)
  }

  lemma ReadStep(ab: AddressBytes, address: u32, size: nat, chunk: nat)
    requires size > 0 && chunk == Min(size, MAX_REPEAT)
    ensures ReadScript(ab, address, size)
         == ReadDataScript(ab, address, chunk) + ReadScript(ab, AddressAt(address, chunk), size - chunk)
  {}

  /** The lengths that can be written as words in one go. */
  predicate WordsOk(n: nat) { 2 <= n <= 2 * MAX_REPEAT && n % 2 == 0 }

  function WordsScript(ab: AddressBytes, address: u32, data: seq<byte>): Script
    requires WordsOk(|data|)
  {
    if |data| == 2 then StWordScript(ab, address, data[0], data[1])
    else StPtrScript(ab, address) + RepeatScript(|data| / 2) + StInc16BlockScript(data)
  }

  function WordsOf(ab: AddressBytes, address: u32, data: seq<byte>): Instruction {
    if WordsOk(|data|) then Sends(WordsScript(ab, address, data)) else Refused
  }

  function ChunkScript(ab: AddressBytes, address: u32, data: seq<byte>): Script
    requires 1 <= |data| <= MAX_REPEAT
  {
    StPtrScript(ab, address) + RepeatScript(|data|) + StIncScript(data)
  }

  /** Acknowledged byte blocks of at most 256 bytes each. */
  function ChunksScript(ab: AddressBytes, address: u32, data: seq<byte>): Script
    decreases |data|
  {
    if data == [] then []
    else
      var chunk := Min(|data|, MAX_REPEAT);
      ChunkScript(ab, address, data[..chunk]) + ChunksScript(ab, (address + chunk) % U32, data[chunk..])
  }

  /** One block, then the blocks of what follows it. */
  lemma ChunksStep(ab: AddressBytes, at: u32, data: seq<byte>, index: nat, chunk: nat)
    requires index < |data| && chunk == Min(|data| - index, MAX_REPEAT)
    ensures ChunksScript(ab, at, data[index..])
         == ChunkScript(ab, at, data[index..index + chunk])
            + ChunksScript(ab, (at + chunk) % U32, data[index + chunk..])
  {
    assert data[index..][..chunk] == data[index..index + chunk];
    assert data[index..][chunk..] == data[index + chunk..];
  }

  function WriteDataScript(ab: AddressBytes, address: u32, data: seq<byte>): Script
    requires data != []
  {
    if |data| == 1 then StByteScript(ab, address, data[0])
    else if |data| == 2 then
      StByteScript(ab, address, data[0]) + StByteScript(ab, (address + 1) % U32, data[1])
    else ChunksScript(ab, address, data)
  }

  function WriteDataOf(ab: AddressBytes, address: u32, data: seq<byte>): Instruction {
    if data == [] then Refused else Sends(WriteDataScript(ab, address, data))
  }
}
