/** Device geometry, the generated device table, and the two NVM controller variants. */
module Devices {
  import opened Bytes
  import opened Protocol
  import opened Target
  import opened Memory

  datatype Option<T> = None | Some(value: T)

  datatype Variant = P0 | P3

  type u24 = n: int | 0 <= n < 0x100_0000

  datatype Device = Device(
    deviceId: u24, name: string, flashAddress: u24, flashSize: u24, flashPageSize: nat,
    fusesAddress: u24, fusesSize: nat, sigrowAddress: u24, nvmctrlBase: u24,
    addressBytes: AddressBytes, variant: Variant)

  /** Register offsets, command codes and status masks of one NVMCTRL variant (updi_nvm.c). */
  datatype VariantDesc = VariantDesc(
    regCtrla: byte, regStatus: byte, regData: byte, regAddr: byte,
    cmdChipErase: byte, cmdPageBufferClear: byte, cmdWritePage: byte, cmdErasePage: byte,
    cmdWriteFuse: byte, cmdEepromBufferClear: byte, cmdEepromEraseWrite: byte, cmdNocmd: byte,
    statusWrerrMask: byte, statusBusyMask: byte, clearCmdAfter: bool, fuseViaEeprom: bool)

  function Desc(v: Variant): VariantDesc {
    match v
    case P0 => VariantDesc(0x00, 0x02, 0x06, 0x08, 0x05, 0x04, 0x01, 0x02, 0x07, 0x00, 0x00, 0x00,
                           4, 3, false, false)
    case P3 => VariantDesc(0x00, 0x06, 0x08, 0x0C, 0x20, 0x0F, 0x04, 0x08, 0xFF, 0x1F, 0x15, 0x00,
                           0x70, 3, true, true)
  }

  /** The commands that write a page. */
  function PageCodes(v: Variant): set<byte> { {Desc(v).cmdPageBufferClear, Desc(v).cmdWritePage} }

  /** The AVR EA rows differ in signature and name only. */
  function P3Row(id: u24, name: string): Device {
    Device(id, name, 0x800000, 0x10000, 0x80, 0x1050, 9, 0x1100, 0x1000, 3, P3)
  }

  /** The tinyAVR and megaAVR rows also differ in their flash. */
  function P0Row(id: u24, name: string, flashAddress: u24, flashSize: u24, page: nat): Device {
    Device(id, name, flashAddress, flashSize, page, 0x1280, 9, 0x1100, 0x1000, 2, P0)
  }

  function Table(): seq<Device> {
    [
      P3Row(0x1E9620, "avr64ea28"),
      P3Row(0x1E961F, "avr64ea32"),
      P3Row(0x1E961E, "avr64ea48"),
      P0Row(0x1E9223, "attiny412", 0x8000, 0x1000, 0x40),
      P0Row(0x1E9221, "attiny416", 0x8000, 0x1000, 0x40),
      P0Row(0x1E9322, "attiny814", 0x8000, 0x2000, 0x40),
      P0Row(0x1E9321, "attiny816", 0x8000, 0x2000, 0x40),
      P0Row(0x1E9422, "attiny1614", 0x8000, 0x4000, 0x40),
      P0Row(0x1E9421, "attiny1616", 0x8000, 0x4000, 0x40),
      P0Row(0x1E9521, "attiny3216", 0x8000, 0x8000, 0x80),
      P0Row(0x1E9527, "attiny3226", 0x8000, 0x8000, 0x80),
      P0Row(0x1E9327, "attiny827", 0x8000, 0x2000, 0x40),
      P0Row(0x1E9428, "attiny1627", 0x8000, 0x4000, 0x40),
      P0Row(0x1E9326, "atmega808", 0x4000, 0x2000, 0x40),
      P0Row(0x1E932A, "atmega809", 0x4000, 0x2000, 0x40),
      P0Row(0x1E9427, "atmega1608", 0x4000, 0x4000, 0x40),
      P0Row(0x1E9426, "atmega1609", 0x4000, 0x4000, 0x40),
      P0Row(0x1E9530, "atmega3208", 0x4000, 0x8000, 0x80),
      P0Row(0x1E9531, "atmega3209", 0x4000, 0x8000, 0x80),
      P0Row(0x1E9650, "atmega4808", 0x4000, 0xC000, 0x80),
      P0Row(0x1E9651, "atmega4809", 0x4000, 0xC000, 0x80)
    ]
  }

  function IdFromSig(sig: seq<byte>): u24
    requires |sig| == 3
  {
    var high: int := sig[0];
    Word(sig[2], sig[1]) + 65536 * high
  }

  /** The flash is a whole number of pages. Sealed, to keep division by a variable out of other proofs. */
  ghost predicate WholePages(d: Device)
    requires d.flashPageSize > 0
  {
    forall k: int {:trigger Unsealed(WholePagesSeal, k)} :: Unsealed(WholePagesSeal, k) ==>
      d.flashSize % d.flashPageSize == 0
  }

  lemma WholePagesDivide(d: Device)
    requires d.flashPageSize > 0 && WholePages(d)
    ensures d.flashSize % d.flashPageSize == 0
  {
    assert Unsealed(WholePagesSeal, 0);
  }

  /** What the programming code relies on in a row of the table. */
  ghost predicate GeometryOk(d: Device) {
    8 < d.flashPageSize <= 256 && d.flashPageSize % 2 == 0 && WholePages(d)
    && 0 < d.flashSize <= FLASH_SIZE
    && d.flashAddress + d.flashSize <= AddressSpace(d.addressBytes)
    && d.nvmctrlBase == IO_BASE && d.sigrowAddress == 0x1100
    && IO_BASE + IO_SIZE <= d.flashAddress
    && d.fusesSize <= 256 && IO_BASE + 16 <= d.fusesAddress && d.fusesAddress + d.fusesSize <= 0x1300
    && (d.fusesAddress + d.fusesSize <= 0x1100 || 0x1103 <= d.fusesAddress)
    && d.addressBytes == if d.variant == P0 then 2 else 3
  }

  /** A row of one of the two shapes, with one of the flash layouts in use. */
  predicate KnownShape(d: Device) {
    d == P3Row(d.deviceId, d.name)
    || (d == P0Row(d.deviceId, d.name, d.flashAddress, d.flashSize, d.flashPageSize)
        && d.flashAddress in {0x4000, 0x8000} && d.flashPageSize in {0x40, 0x80}
        && d.flashSize in {0x1000, 0x2000, 0x4000, 0x8000, 0xC000}
        && d.flashAddress + d.flashSize <= 0x1_0000)
  }

  lemma ShapeGeometry(d: Device)
    requires KnownShape(d)
    ensures GeometryOk(d)
  {
    assert 0x10000 % 0x80 == 0;
  }

  lemma RowShape(i: nat)
    requires i < |Table()|
    ensures KnownShape(Table()[i])
  {}

  /** Every row of the table meets the assumptions of the programming code. */
  lemma TableGeometry(d: Device)
    requires d in Table()
    ensures GeometryOk(d)
  {
    var i :| 0 <= i < |Table()| && Table()[i] == d;
    RowShape(i);
    ShapeGeometry(d);
  }

  ghost predicate RowsSound(table: seq<Device>) {
    (forall d :: d in table ==> GeometryOk(d))
    && forall i, j :: 0 <= i < j < |table| ==> table[i].deviceId != table[j].deviceId
  }

  /** Every row has a sound geometry, and signatures identify rows. Sealed: SoundRow and SameIdSameDevice use it. */
  ghost predicate Sound(table: seq<Device>) {
    forall k: int {:trigger Unsealed(SoundSeal, k)} :: Unsealed(SoundSeal, k) ==> RowsSound(table)
  }

  lemma SoundRow(table: seq<Device>, d: Device)
    requires Sound(table) && d in table
    ensures GeometryOk(d)
  {
    assert Unsealed(SoundSeal, 0);
  }

  lemma TableIdsDistinct(i: nat, j: nat)
    requires i < j < |Table()|
    ensures Table()[i].deviceId != Table()[j].deviceId
  {}

  lemma SoundFrom(table: seq<Device>)
    requires table == Table() && forall d :: d in table ==> GeometryOk(d)
    ensures Sound(table)
  {
    forall i, j | 0 <= i < j < |table|
      ensures table[i].deviceId != table[j].deviceId
    {
      TableIdsDistinct(i, j);
    }
  }

  /** The generated table is sound. */
  lemma TableSound()
    ensures Sound(Table())
  {
    forall d | d in Table()
      ensures GeometryOk(d)
    {
      TableGeometry(d);
    }
    SoundFrom(Table());
  }

  lemma SameIdSameDevice(table: seq<Device>, d: Device, e: Device)
    requires Sound(table) && d in table && e in table && d.deviceId == e.deviceId
    ensures d == e
  {
    assert Unsealed(SoundSeal, 0);
    var i :| 0 <= i < |table| && table[i] == d;
    var j :| 0 <= j < |table| && table[j] == e;
    assert i < j || j < i || i == j;
  }

  /** The first row with this signature, if any. */
  method FindById(table: seq<Device>, id: u24) returns (r: Option<Device>)
    ensures r.Some? ==> r.value in table && r.value.deviceId == id
    ensures r.Some? ==>
      exists i :: 0 <= i < |table| && table[i] == r.value && forall j :: 0 <= j < i ==> table[j].deviceId != id
    ensures r.None? <==> forall d :: d in table ==> d.deviceId != id
  {
    for i := 0 to |table|
      invariant forall j :: 0 <= j < i ==> table[j].deviceId != id
    {
      if table[i].deviceId == id {
        return Some(table[i]);
      }
    }
    return None;
  }

  /** The emulator's map, registers and commands are those of this device. */
  predicate SetUpAs(cfg: Config, d: Device) {
    var v := Desc(d.variant);
    MapOk(cfg)
    && cfg.flashBase == d.flashAddress && cfg.nvmctrlBase == d.nvmctrlBase
    && cfg.statusOffset == v.regStatus && cfg.ctrlaOffset == v.regCtrla
    && cfg.fuseDataOffset == v.regData && cfg.fuseAddrOffset == v.regAddr
    && cfg.cmdChipErase == v.cmdChipErase && cfg.cmdWriteFuse == v.cmdWriteFuse
  }

  /** The emulator is set up as this device, whose geometry is sound. The former is sealed. */
  ghost predicate Emulates(cfg: Config, d: Device) {
    GeometryOk(d) && forall k: int {:trigger Unsealed(EmulatesSeal, k)} :: Unsealed(EmulatesSeal, k) ==>
      SetUpAs(cfg, d)
  }

  lemma EmulatesMeans(cfg: Config, d: Device)
    ensures Emulates(cfg, d) <==> GeometryOk(d) && SetUpAs(cfg, d)
  {
    assert Unsealed(EmulatesSeal, 0);
  }
}
