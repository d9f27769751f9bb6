/** The programming session (updi_session.c): connect and identify, erase, write, verify, dump, fuses. */
module UpdiProgramming {
  import opened Bytes
  import opened Protocol
  import opened Target
  import Memory
  import opened WireLog
  import opened UpdiTransport
  import opened UpdiDataLink
  import opened Devices
  import opened UpdiNvmController
  import opened FlashPages
  import opened FlashTranscripts

  const MAX_PAGE: nat := 256
  const READ_CHUNK: nat := 256

  datatype Mismatch = Mismatch(offset: nat, expected: byte, actual: byte)

  /** The least offset at which the bytes read back differ from the image. */
  predicate FirstDifference(m: Mismatch, data: seq<byte>, actual: seq<byte>) {
    m.offset < |data| && m.offset < |actual| && actual[..m.offset] == data[..m.offset]
    && m.expected == data[m.offset] && m.actual == actual[m.offset] && m.expected != m.actual
  }

  /** The emulated chip answers as this device of the table: SIB, signature row, STATUSA. */
  ghost predicate Presents(c: Chip, table: seq<Device>, d: Device) {
    d in table && Emulates(c.cfg, d) && c.cs[CS_STATUSA] != 0
    && (ParseSib(SibBytes(c.cfg.sib, 16)).nvmVersion == 0 <==> d.variant == P0)
    && IdFromSig(c.io[0x100..0x103]) == d.deviceId
  }

  /** The SIB the emulator is set up with: family name, then the NVM version. */
  function SibText(family: seq<byte>, digit: byte): (sib: seq<byte>)
    ensures |sib| == 14 && sib[10] == digit
  {
    var name := SibBytes(family, 7);
    name + [0x20, 0x50, 0x3A, digit, 0x44, 0x3A, 0x30]
  }

  /** The emulator's two configurations, with the flash where the device has it. */
  function EmulatorConfig(d: Device, family: seq<byte>): Config {
    if d.variant == P0 then
      Config(d.flashAddress, 0x1000, 0x02, 0x00, 0x06, 0x08, 0x07, 0x05, SibText(family, 0x30))
    else
      Config(d.flashAddress, 0x1000, 0x06, 0x00, 0x08, 0x0C, 0xFF, 0x20, SibText(family, 0x33))
  }

  /** An emulator so configured, with the device's signature in its row, presents itself as the device. */
  lemma ConfiguredPresents(c: Chip, table: seq<Device>, d: Device, family: seq<byte>)
    requires Sound(table) && d in table && c.cfg == EmulatorConfig(d, family)
    requires IdFromSig(c.io[0x100..0x103]) == d.deviceId && c.cs[CS_STATUSA] != 0
    ensures Presents(c, table, d)
  {
    SoundRow(table, d);
    EmulatesMeans(c.cfg, d);
    assert SibBytes(c.cfg.sib, 16)[10] == c.cfg.sib[10];
  }

  function SigOf(id: u24): (sig: seq<byte>)
    ensures |sig| == 3 && IdFromSig(sig) == id
  {
    [id / 65536, id / 256 % 256, id % 256]
  }

  lemma SignatureRow(c: Chip, d: Device, ab: AddressBytes)
    requires Emulates(c.cfg, d)
    ensures SIGROW_DEFAULT % AddressSpace(ab) == 0x1100 && ReadSeq(c, 0x1100, 3) == c.io[0x100..0x103]
  {
    EmulatesMeans(c.cfg, d);
    assert ReadSeq(c, 0x1103, 0) == [];
    assert ReadSeq(c, 0x1102, 1) == [c.io[0x102]];
    assert ReadSeq(c, 0x1101, 2) == [c.io[0x101], c.io[0x102]];
    assert ReadSeq(c, 0x1100, 3) == [c.io[0x100], c.io[0x101], c.io[0x102]];
  }

  /** The first difference within a chunk, when there was none before it. */
  lemma ChunkCompared(data: seq<byte>, off: nat, chunk: nat, rb: seq<byte>, i: nat)
    requires off + chunk <= |data| && |rb| == chunk && i <= chunk && rb[..i] == data[off..off + chunk][..i]
    ensures i < chunk && rb[i] != data[off + i] ==>
      FirstDifference(Mismatch(off + i, data[off + i], rb[i]), data, data[..off] + rb)
    ensures i == chunk ==> data[..off] + rb == data[..off + chunk]
  {
    var back := data[..off] + rb;
    assert forall j :: 0 <= j < i ==> rb[..i][j] == data[off..off + chunk][..i][j] == data[off + j];
    assert back[..off + i] == data[..off + i];
  }

  /** On the way, a system status answer showed NVMPROG. */
  predicate ProgmodeSeen(a: seq<Event>, b: seq<Event>) {
    exists n :: |a| < n <= |b| && SawProgmode(b[..n])
  }

  /** The signature row was read last, and this is what it said. */
  ghost predicate SignatureRead(ab: AddressBytes, w0: Wire, w: Wire, sig: seq<byte>) {
    exists w1: Wire :: w0.log <= w1.log && Ran(ReadDataScript(ab, SIGROW_DEFAULT, 3), w1, w, Ok, sig)
  }

  /** On the way, the SIB was read, and this is what it said. */
  ghost predicate SibRead(w0: Wire, w: Wire, sib: SibInfo) {
    exists w1: Wire, w2: Wire :: w0.log <= w1.log && w2.log <= w.log && UpdiNvm.SibWasRead(w1, w2, sib)
  }

  /** All these only ask for a later start. */
  lemma Earlier(ab: AddressBytes, w0: Wire, w1: Wire, w: Wire, sig: seq<byte>, sib: SibInfo)
    requires w0.log <= w1.log
    ensures SignatureRead(ab, w1, w, sig) ==> SignatureRead(ab, w0, w, sig)
    ensures SibRead(w1, w, sib) ==> SibRead(w0, w, sib)
    ensures w0.ticks == w1.ticks && StayedLocked(100, w1, w) ==> StayedLocked(100, w0, w)
    ensures ProgmodeSeen(w1.log, w.log) ==> ProgmodeSeen(w0.log, w.log)
  {
    if SignatureRead(ab, w1, w, sig) {
      var w2: Wire :| w1.log <= w2.log && Ran(ReadDataScript(ab, SIGROW_DEFAULT, 3), w2, w, Ok, sig);
      assert w0.log <= w2.log;
    }
    if SibRead(w1, w, sib) {
      var w2: Wire, w3: Wire :| w1.log <= w2.log && w3.log <= w.log && UpdiNvm.SibWasRead(w2, w3, sib);
      assert w0.log <= w2.log;
    }
    EarlierStart(w0, w1, w);
  }

  /** A buffer whose first bytes have been replaced, and the rest of it not. Sealed. */
  ghost predicate Dumped(buf0: seq<byte>, buf: seq<byte>, all: seq<byte>) {
    forall k: int {:trigger Unsealed(DumpedSeal, k)} :: Unsealed(DumpedSeal, k) ==>
      |all| <= |buf0| && buf == all + buf0[|all|..]
  }

  lemma DumpedNothing(buf: seq<byte>)
    ensures Dumped(buf, buf, [])
  {}

  lemma DumpedMore(buf0: seq<byte>, buf: seq<byte>, all: seq<byte>, buf': seq<byte>, piece: seq<byte>)
    requires Dumped(buf0, buf, all) && |all| + |piece| <= |buf| == |buf'|
    requires forall i :: 0 <= i < |buf| ==>
      buf'[i] == if |all| <= i < |all| + |piece| then piece[i - |all|] else buf[i]
    ensures Dumped(buf0, buf', all + piece)
  {
    assert Unsealed(DumpedSeal, 0);
    assert buf' == all + piece + buf0[|all| + |piece|..];
  }

  lemma DumpedMeans(buf0: seq<byte>, buf: seq<byte>, all: seq<byte>, len: nat)
    requires Dumped(buf0, buf, all) && |all| <= len <= |buf0|
    ensures |buf| == |buf0| && buf[len..] == buf0[len..] && buf[..|all|] == all
  {
    assert Unsealed(DumpedSeal, 0);
  }

  /** The flash begins with these bytes. Sealed. */
  ghost predicate BeginsWith(flash: seq<byte>, bytes: seq<byte>) {
    forall k: int {:trigger Unsealed(BeginsWithSeal, k)} :: Unsealed(BeginsWithSeal, k) ==>
      |bytes| <= |flash| && bytes == flash[..|bytes|]
  }

  lemma BeginsWithMeans(flash: seq<byte>, bytes: seq<byte>)
    ensures BeginsWith(flash, bytes) <==> |bytes| <= |flash| && bytes == flash[..|bytes|]
  {
    assert Unsealed(BeginsWithSeal, 0);
  }

  lemma BeginsWithMore(flash: seq<byte>, bytes: seq<byte>, chunk: nat)
    requires BeginsWith(flash, bytes) && |bytes| + chunk <= |flash|
    ensures BeginsWith(flash, bytes + flash[|bytes|..|bytes| + chunk])
  {
    BeginsWithMeans(flash, bytes);
    BeginsWithMeans(flash, bytes + flash[|bytes|..|bytes| + chunk]);
  }

  lemma ActivatedKeeps(c: Chip)
    ensures SameMemories(c, UpdiLink.Activated(c))
  {}

  /** These are the values of the first fuses. */
  ghost predicate FusesRead(c: Chip, d: Device, fuses: seq<byte>)
    requires GeometryOk(d)
  {
    |fuses| <= d.fusesSize && forall i :: 0 <= i < |fuses| ==> fuses[i] == Fuse(c, d, i)
  }

  /** How far pages reach: not beyond the flash, when the image fits it. */
  function Extent(d: Device, length: nat): nat {
    if length <= d.flashSize then d.flashSize else length + d.flashPageSize
  }

  lemma PageInExtent(d: Device, off: nat, length: nat)
    requires GeometryOk(d) && off < length && off % d.flashPageSize == 0
    ensures off + d.flashPageSize <= Extent(d, length)
  {
    if length <= d.flashSize {
      WholePagesDivide(d);
      PageEndsInside(off, d.flashPageSize, d.flashSize);
    }
  }

  lemma NextPage(off: nat, page: nat)
    requires page > 0 && off % page == 0
    ensures (off + page) % page == 0
  {
    assert off == (off / page) * page;
    Distribute(off / page, 1, page);
    ModOfMultiple(off / page + 1, page, 0);
  }

  class UpdiSession {
    const link: UpdiLink
    const nvm: UpdiNvm
    const table: seq<Device>
    var device: Option<Device>
    var sib: SibInfo
    var sig: seq<byte>
    var connected: bool

    ghost predicate Valid()
      reads this, nvm, link, link.transport, link.transport.Repr
    {
      nvm.link == link && nvm.Valid() && this !in link.transport.Repr
      && this as object != link && this as object != nvm
      && (connected ==> device.Some?) && (device.Some? ==> nvm.device == device)
      && Sound(table) && (device.Some? ==> device.value in table)
    }

    ghost function Now(): Wire
      reads link.transport
    {
      link.transport.wire
    }

    ghost function Chip(): Chip
      reads link.transport
    {
      link.transport.wire.target.chip
    }

    /** Connected to the emulator, set up as the identified device and in step. */
    ghost predicate Attached()
      reads this, nvm, nvm.link, nvm.link.transport
    {
      connected && device.Some? && device == nvm.device && nvm.Paired()
    }

    constructor (transport: Transport)
      requires transport.Valid()
      ensures Valid() && fresh(link) && fresh(nvm) && link.transport == transport
      ensures device == None && !connected && nvm.device == None && table == Table()
    {
      var l := new UpdiLink(transport);
      link := l;
      nvm := new UpdiNvm(l);
      table := Table();
      TableSound();
      device, sib, sig, connected := None, SibInfo([], 0), [0, 0, 0], false;
    }

    method Identify() returns (s: Status)
      requires Valid() && !connected && device == None && nvm.device == None
      modifies this, nvm`device, link.transport.Repr
      ensures Valid() && Grew(old(Now()).log, Now().log, ReadOnly) && sib == old(sib)
      ensures Now().emulated == old(Now()).emulated
      ensures connected <==> s == Ok
      ensures s != ErrLocked && (s == Ok ==> SignatureRead(link.addressBytes, old(Now()), Now(), sig))
      ensures s == ErrUnsupported ==> |sig| == 3 && forall d :: d in table ==> d.deviceId != IdFromSig(sig)
      ensures s == Ok ==> |sig| == 3 && device.Some? && device.value.deviceId == IdFromSig(sig)
      ensures forall d :: Live(old(Now())) && Presents(old(Chip()), table, d) && link.addressBytes == d.addressBytes ==>
                s == Ok && device == Some(d) && Attached() && Chip() == old(Chip())
    {
      var signature;
      s, signature := nvm.ReadSignature();
      if s != Ok {
        return;
      }
      sig := signature;
      var found := FindById(table, IdFromSig(sig));
      if found == None {
        s := ErrUnsupported;
      } else {
        nvm.SetDevice(found);
        device := found;
        connected := true;
      }
      forall d | Live(old(Now())) && Presents(old(Chip()), table, d)
        ensures sig == Chip().io[0x100..0x103] && found == Some(d)
      {
        SignatureRow(Chip(), d, link.addressBytes);
        assert sig == Chip().io[0x100..0x103];
        if found.Some? {
          SameIdSameDevice(table, d, found.value);
        }
      }
    }

    /** The part of Connect after the SIB. */
    method EnterThenIdentify() returns (s: Status)
      requires Valid() && !connected && device == None && nvm.device == None
      modifies this, nvm`device, link.transport.Repr
      ensures Valid() && Grew(old(Now()).log, Now().log, ReadOnly) && sib == old(sib)
      ensures Now().emulated == old(Now()).emulated
      ensures connected <==> s == Ok
      ensures s == Ok ==> |sig| == 3 && device.Some? && device.value.deviceId == IdFromSig(sig)
      ensures s == Ok ==> ProgmodeSeen(old(Now()).log, Now().log)
      ensures s == Ok ==> SignatureRead(link.addressBytes, old(Now()), Now(), sig)
      ensures s == ErrLocked ==> StayedLocked(100, old(Now()), Now())
      ensures s == ErrUnsupported ==> |sig| == 3 && forall d :: d in table ==> d.deviceId != IdFromSig(sig)
      ensures forall d :: Live(old(Now())) && Presents(old(Chip()), table, d) && link.addressBytes == d.addressBytes ==>
                s == Ok && device == Some(d) && Attached() && SameMemories(old(Chip()), Chip())
                && Bit(Chip().cs[ASI_SYS_STATUS], SYS_STATUS_NVMPROG)
    {
      s := nvm.EnterProgmode();
      if s != Ok {
        return; // possibly ErrLocked
      }
      ghost var w1 := Now();
      s := Identify();
      GrewThen(old(Now()).log, w1.log, Now().log, ReadOnly);
      assert Now().log[..|w1.log|] == w1.log;
      Earlier(link.addressBytes, old(Now()), w1, Now(), sig, sib);
    }

    /** The part of Connect after the activation. */
    method EnterAndIdentify() returns (s: Status)
      requires Valid() && !connected && device == None
      modifies this, nvm`device, link`addressBytes, link.transport.Repr
      ensures Valid() && Grew(old(Now()).log, Now().log, ReadOnly)
      ensures Now().emulated == old(Now()).emulated
      ensures connected <==> s == Ok
      ensures s == Ok ==> |sig| == 3 && device.Some? && device.value.deviceId == IdFromSig(sig)
      ensures s == Ok ==> link.addressBytes == if sib.nvmVersion == 0 then 2 else 3
      ensures s == Ok ==> ProgmodeSeen(old(Now()).log, Now().log)
      ensures s == Ok ==> SignatureRead(link.addressBytes, old(Now()), Now(), sig) && SibRead(old(Now()), Now(), sib)
      ensures s == ErrLocked ==> StayedLocked(100, old(Now()), Now())
      ensures s == ErrUnsupported ==> |sig| == 3 && forall d :: d in table ==> d.deviceId != IdFromSig(sig)
      ensures forall d :: Live(old(Now())) && Presents(old(Chip()), table, d) ==>
                s == Ok && device == Some(d) && Attached() && SameMemories(old(Chip()), Chip())
                && Bit(Chip().cs[ASI_SYS_STATUS], SYS_STATUS_NVMPROG)
    {
      var info;
      s, info := UpdiNvm.ReadSibInfo(link);
      if s != Ok {
        return;
      }
      sib := info;
      ghost var w1 := Now();
      assert UpdiNvm.SibWasRead(old(Now()), w1, sib);
      link.SetAddressSize(if sib.nvmVersion == 0 then 2 else 3);
      nvm.SetDevice(None);
      s := EnterThenIdentify();
      GrewThen(old(Now()).log, w1.log, Now().log, ReadOnly);
      Earlier(link.addressBytes, old(Now()), w1, Now(), sig, sib);
    }

    /**
     Activates, picks the address size from the SIB, enters programming mode and identifies the
     device by its signature. Nothing it sends stores to memory, and no key but NVMProg.
     */
    method Connect() returns (s: Status)
      requires Valid()
      modifies this, nvm`device, link`addressBytes, link`ackEnabled, link.transport.Repr
      ensures Valid() && Grew(old(Now()).log, Now().log, ReadOnly)
      ensures Now().emulated == old(Now()).emulated
      ensures connected <==> s == Ok
      ensures s == Ok ==> |sig| == 3 && device.Some? && device.value.deviceId == IdFromSig(sig)
      ensures s == Ok ==> link.addressBytes == if sib.nvmVersion == 0 then 2 else 3
      ensures s == Ok ==> ProgmodeSeen(old(Now()).log, Now().log)
      ensures s == Ok ==> SignatureRead(link.addressBytes, old(Now()), Now(), sig) && SibRead(old(Now()), Now(), sib)
      ensures s == ErrLocked ==> StayedLocked(100, old(Now()), Now())
      ensures s == ErrUnsupported ==> |sig| == 3 && forall d :: d in table ==> d.deviceId != IdFromSig(sig)
      ensures forall d :: Live(old(Now())) && Presents(old(Chip()), table, d) ==>
                s == Ok && device == Some(d) && Attached() && SameMemories(old(Chip()), Chip())
                && Bit(Chip().cs[ASI_SYS_STATUS], SYS_STATUS_NVMPROG)
    {
      connected := false;
      device := None;
      s := link.Activate();
      if s != Ok {
        return;
      }
      ghost var l1 := Now().log;
      ActivatedKeeps(old(Chip()));
      forall d | Live(old(Now())) && Presents(old(Chip()), table, d)
        ensures Presents(Chip(), table, d)
      {}
      ghost var w1 := Now();
      s := EnterAndIdentify();
      GrewThen(old(Now()).log, l1, Now().log, ReadOnly);
      Earlier(link.addressBytes, old(Now()), w1, Now(), sig, sib);
    }

    method Unlock() returns (s: Status)
      requires Valid()
      modifies link.transport.Repr
      ensures Valid() && Grew(old(Now()).log, Now().log, Unlocking)
      ensures Now().emulated == old(Now()).emulated
      ensures s == Ok ==> SawUnlocked(Now().log)
      ensures Live(old(Now())) ==> s == Ok && Live(Now()) && Chip() == UpdiNvm.EraseKeyApplied(old(Chip()))
    {
      s := nvm.Unlock();
    }

    /** Leaves programming mode, whatever the target answers. */
    method Disconnect()
      requires Valid()
      modifies `connected, link.transport.Repr
      ensures Valid() && !connected && Grew(old(Now()).log, Now().log, ReadOnly)
      ensures Live(old(Now())) ==> Live(Now()) && Chip() == UpdiNvm.Released(old(Chip()))
      ensures Live(old(Now())) ==> SameMemories(old(Chip()), Chip())
    {
      UpdiNvm.ReleasedKeeps(Chip());
      var _ := nvm.LeaveProgmode();
      connected := false;
    }

    /** The command that erases the chip. */
    function EraseScope(): Scope
      requires device.Some? && nvm.device == device
      reads this, nvm, nvm.link
    {
      nvm.CommandScope(Desc(device.value.variant).cmdChipErase)
    }

    method ChipErase() returns (s: Status)
      requires Valid()
      modifies link.transport.Repr
      ensures Valid() && (device == None ==> s == ErrParam && Now() == old(Now()))
      ensures device.Some? ==> Grew(old(Now()).log, Now().log, EraseScope())
      ensures old(Attached()) ==>
                s == Ok && Attached() && Chip().flash == Erased() && SameButFlash(old(Chip()), Chip())
    {
      if device == None {
        return ErrParam;
      }
      s := nvm.ChipErase();
    }

    static method IsBlank(p: seq<byte>) returns (r: bool)
      ensures r == AllFF(p)
    {
      for i := 0 to |p|
        invariant AllFF(p[..i])
      {
        if p[i] != 0xFF {
          return false;
        }
      }
      assert p[..|p|] == p;
      return true;
    }

    /** One page of the image in a page buffer, padded with 0xFF. */
    static method FillPageBuffer(pagebuf: array<byte>, data: seq<byte>, off: nat, page: nat)
      requires 0 < page <= pagebuf.Length && off < |data|
      modifies pagebuf
      ensures pagebuf[..page] == Padded(data, off, page)
    {
      var chunk := if |data| - off < page then |data| - off else page;
      for i := 0 to page
        invariant forall j :: 0 <= j < i ==> pagebuf[j] == 0xFF
      {
        pagebuf[i] := 0xFF;
      }
      for i := 0 to chunk
        invariant forall j :: 0 <= j < page ==> pagebuf[j] == if j < i then data[off + j] else 0xFF
      {
        pagebuf[i] := data[off + i];
      }
    }

    /** Writes one padded page unless it is blank. */
    method WritePage(p: seq<byte>, off: nat) returns (s: Status)
      requires Valid() && connected && 2 <= |p| <= 512
      modifies link`ackEnabled, link.transport.Repr
      ensures Valid()
      ensures Grew(old(Now()).log, Now().log, nvm.StoreScope(AddressAt(device.value.flashAddress, off), |p|))
      ensures s == Ok ==> PageRan(device.value, link.addressBytes, off, p, old(Now()), Now())
      ensures old(Attached()) && |p| == device.value.flashPageSize && off + |p| <= device.value.flashSize ==>
                s == Ok && Attached() && SameButFlash(old(Chip()), Chip())
                && Chip().flash == if AllFF(p) then old(Chip()).flash else Overlay(old(Chip()).flash, off, p)
    {
      var blank := IsBlank(p);
      s := Ok;
      if !blank {
        ghost var d := device.value;
        var address := AddressAt(device.value.flashAddress, off);
        if off + |p| <= d.flashSize {
          assert address == d.flashAddress + off && InFlashRange(d, address, |p|);
        }
        s := nvm.WriteFlashPage(address, p);
      }
    }

    /** The commands that write pages, and whole pages of the device's flash up to an extent. */
    function FlashScope(extent: nat): Scope
      requires device.Some? && nvm.device == device
      reads this, nvm, nvm.link, link
    {
      Flashing(link.addressBytes, nvm.CommandRegister(), PageCodes(device.value.variant),
               device.value.flashAddress, device.value.flashPageSize, extent)
    }

    /** One round of the page loop, begun at w0. */
    method WriteNextPage(pagebuf: array<byte>, data: seq<byte>, page: nat, off: nat, ghost whole: seq<byte>,
                         ghost w0: Wire)
      returns (s: Status)
      requires Valid() && connected && page == device.value.flashPageSize && GeometryOk(device.value)
      requires off < |data| && off % page == 0 && pagebuf.Length == MAX_PAGE && pagebuf !in link.transport.Repr
      requires Grew(w0.log, Now().log, FlashScope(Extent(device.value, |data|)))
      requires PagesRemain(device.value, link.addressBytes, data, off, Now(), w0)
      modifies pagebuf, link`ackEnabled, link.transport.Repr
      ensures Valid() && Grew(w0.log, Now().log, FlashScope(Extent(device.value, |data|)))
      ensures s == Ok ==> PagesRemain(device.value, link.addressBytes, data, off + page, Now(), w0)
      ensures old(Attached()) && StillWrites(old(Chip()).flash, data, page, device.value.flashSize, off, whole) ==>
                s == Ok && Attached() && SameButFlash(old(Chip()), Chip())
                && StillWrites(Chip().flash, data, page, device.value.flashSize, off + page, whole)
    {
      ghost var w1, d, ab := Now(), device.value, link.addressBytes;
      FillPageBuffer(pagebuf, data, off, page);
      if StillWrites(Chip().flash, data, page, d.flashSize, off, whole) {
        StillWritesPage(Chip().flash, data, page, d.flashSize, off, whole);
      }
      s := WritePage(pagebuf[..page], off);
      PageInExtent(d, off, |data|);
      GrewPage(w1.log, Now().log, ab, nvm.CommandRegister(), PageCodes(d.variant), d.flashAddress, page,
               Extent(d, |data|), off);
      GrewThen(w0.log, w1.log, Now().log, FlashScope(Extent(d, |data|)));
      if s == Ok {
        PageDone(d, ab, data, off, w1, Now(), w0);
      }
    }

    /** The loop over the pages. */
    method WritePagesInOrder(data: seq<byte>, page: nat) returns (s: Status)
      requires Valid() && connected && page == device.value.flashPageSize && GeometryOk(device.value)
      modifies link`ackEnabled, link.transport.Repr
      ensures Valid() && Grew(old(Now()).log, Now().log, FlashScope(Extent(device.value, |data|)))
      ensures s == Ok ==> PagesRan(device.value, link.addressBytes, data, 0, old(Now()), Now())
      ensures old(Attached()) && |data| <= device.value.flashSize ==>
                s == Ok && Attached() && SameButFlash(old(Chip()), Chip())
                && Fits(data, page, device.value.flashSize)
                && Chip().flash == WritePages(old(Chip()).flash, data, page, device.value.flashSize, 0, true)
    {
      s := Ok;
      WholePagesDivide(device.value);
      ghost var w0, ab, d, size := Now(), link.addressBytes, device.value, device.value.flashSize;
      ghost var emulated, whole := Attached() && |data| <= size, [];
      if emulated {
        whole := WritePages(Chip().flash, data, page, size, 0, true);
        StillWritesAll(Chip().flash, data, page, size);
      }
      PagesBegin(d, ab, data, w0);
      var pagebuf := new byte[MAX_PAGE];
      var off := 0;
      while off < |data|
        invariant Valid() && s == Ok && off % page == 0
        invariant Grew(w0.log, Now().log, FlashScope(Extent(d, |data|))) && PagesRemain(d, ab, data, off, Now(), w0)
        invariant emulated ==> Attached() && SameButFlash(old(Chip()), Chip())
                               && StillWrites(Chip().flash, data, page, size, off, whole)
        decreases |data| - off
      {
        s := WriteNextPage(pagebuf, data, page, off, whole, w0);
        if s != Ok {
          return;
        }
        NextPage(off, page);
        off := off + page;
      }
      PagesDone(d, ab, data, off, Now(), w0);
      if emulated {
        StillWritesNothing(Chip().flash, data, page, size, off, whole);
      }
    }

    /** Writes the image page by page onto erased flash, skipping blank pages. */
    method WriteFlash(data: seq<byte>) returns (s: Status)
      requires Valid()
      modifies link`ackEnabled, link.transport.Repr
      ensures Valid() && (!connected ==> s == ErrParam && Now() == old(Now()))
      ensures connected ==> Grew(old(Now()).log, Now().log, FlashScope(Extent(device.value, |data|)))
      ensures s == Ok ==>
                GeometryOk(device.value) && PagesRan(device.value, link.addressBytes, data, 0, old(Now()), Now())
      ensures old(Attached()) && |data| <= device.value.flashSize ==>
                s == Ok && Attached() && SameButFlash(old(Chip()), Chip())
                && Fits(data, device.value.flashPageSize, device.value.flashSize)
                && Chip().flash == WritePages(old(Chip()).flash, data, device.value.flashPageSize,
                                              device.value.flashSize, 0, true)
    {
      if !connected || device == None {
        return ErrParam;
      }
      SoundRow(table, device.value);
      var page := device.value.flashPageSize;
      if page == 0 || page > MAX_PAGE {
        return ErrParam;
      }
      s := WritePagesInOrder(data, page);
    }

    // ---- verify and dump ----

    static lemma FlashFits(d: Device, a: u32, off: nat, n: nat)
      requires GeometryOk(d) && off + n <= d.flashSize && a == AddressAt(d.flashAddress, off)
      ensures a == d.flashAddress + off && a + n <= AddressSpace(d.addressBytes)
    {}

    /** What a read of flash bytes on the emulator brings. */
    static lemma FlashRead(c: Chip, d: Device, a: u32, off: nat, n: nat)
      requires Emulates(c.cfg, d) && off + n <= d.flashSize && a == AddressAt(d.flashAddress, off)
      ensures a + n <= AddressSpace(d.addressBytes) && ReadSeq(c, a, n) == c.flash[off..off + n]
    {
      FlashFits(d, a, off, n);
      EmulatesMeans(c.cfg, d);
      Memory.ReadFlash(c, off, n);
    }

    /** Reads at most 256 flash bytes at an offset. */
    method ReadFlashChunk(off: nat, chunk: nat) returns (s: Status, rb: seq<byte>)
      requires Valid() && connected && chunk <= READ_CHUNK
      modifies link.transport.Repr
      ensures Valid() && s != ErrVerify && (s == Ok ==> |rb| == chunk) && Grew(old(Now()).log, Now().log, ReadOnly)
      ensures s == Ok ==>
                HasRead(link.addressBytes, AddressAt(device.value.flashAddress, off), chunk, old(Now()), Now(), rb)
      ensures old(Attached()) && off + chunk <= device.value.flashSize ==>
                s == Ok && Attached() && Chip() == old(Chip()) && rb == Chip().flash[off..off + chunk]
    {
      var address := AddressAt(device.value.flashAddress, off);
      if Attached() && off + chunk <= device.value.flashSize {
        FlashRead(Chip(), device.value, address, off, chunk);
      }
      s, rb := nvm.Read(address, chunk);
      ReadIs(link.addressBytes, address, chunk, old(Now()), Now(), s, rb);
    }

    static method FirstMismatch(rb: seq<byte>, expected: seq<byte>) returns (i: nat)
      requires |rb| == |expected|
      ensures i <= |rb| && rb[..i] == expected[..i] && (i < |rb| ==> rb[i] != expected[i])
    {
      i := 0;
      while i < |rb| && rb[i] == expected[i]
        invariant i <= |rb| && rb[..i] == expected[..i]
      {
        i := i + 1;
      }
    }

    /** Reads and compares the next chunk of a verify; `back` is all that was read back before. */
    method VerifyChunk(data: seq<byte>, off: nat, chunk: nat, ghost w0: Wire, ghost back: seq<byte>)
      returns (s: Status, mismatch: Option<Mismatch>, ghost back': seq<byte>)
      requires Valid() && connected
      requires chunk <= READ_CHUNK && off + chunk <= |data| && off % MAX_REPEAT == 0 && back == data[..off]
      requires Grew(w0.log, Now().log, ReadOnly)
      requires HasRead(link.addressBytes, device.value.flashAddress, off, w0, Now(), back)
      modifies link.transport.Repr
      ensures Valid() && Grew(w0.log, Now().log, ReadOnly)
      ensures s in {Ok, ErrVerify} ==>
                |back'| == off + chunk
                && HasRead(link.addressBytes, device.value.flashAddress, |back'|, w0, Now(), back')
      ensures s == Ok ==> back' == data[..off + chunk]
      ensures s == ErrVerify ==> mismatch.Some? && FirstDifference(mismatch.value, data, back')
      ensures old(Attached()) && off + chunk <= device.value.flashSize && BeginsWith(old(Chip()).flash, back) ==>
                s in {Ok, ErrVerify} && Attached() && Chip() == old(Chip()) && BeginsWith(Chip().flash, back')
    {
      mismatch, back' := None, back;
      ghost var w1 := Now();
      var read;
      s, read := ReadFlashChunk(off, chunk);
      GrewThen(w0.log, w1.log, Now().log, ReadOnly);
      if s != Ok {
        return;
      }
      back' := back + read;
      HasReadMore(link.addressBytes, device.value.flashAddress, off, chunk, w0, w1, Now(), back, read);
      if old(Attached()) && off + chunk <= device.value.flashSize && BeginsWith(Chip().flash, back) {
        BeginsWithMore(Chip().flash, back, chunk);
      }
      var i := FirstMismatch(read, data[off..off + chunk]);
      ChunkCompared(data, off, chunk, read, i);
      if i < chunk {
        mismatch := Some(Mismatch(off + i, data[off + i], read[i]));
        s := ErrVerify;
      }
    }

    /** The loop over the chunks. */
    method CompareFlash(data: seq<byte>) returns (s: Status, mismatch: Option<Mismatch>, ghost back: seq<byte>)
      requires Valid() && connected
      modifies link.transport.Repr
      ensures Valid() && Grew(old(Now()).log, Now().log, ReadOnly)
      ensures s in {Ok, ErrVerify} ==>
                HasRead(link.addressBytes, device.value.flashAddress, |back|, old(Now()), Now(), back)
      ensures s == Ok ==> back == data
      ensures s == ErrVerify ==> mismatch.Some? && FirstDifference(mismatch.value, data, back)
      ensures old(Attached()) && |data| <= device.value.flashSize ==>
                Attached() && Chip() == old(Chip()) && s in {Ok, ErrVerify}
                && |back| <= |data| && back == Chip().flash[..|back|]
    {
      s, mismatch, back := Ok, None, [];
      ghost var w0, c0, emulated := Now(), Chip(), Attached() && |data| <= device.value.flashSize;
      ghost var ab, base := link.addressBytes, device.value.flashAddress;
      HasReadNothing(ab, base, w0);
      var off := 0;
      while off < |data|
        invariant Valid() && s == Ok && off <= |data| && (off < |data| ==> off % MAX_REPEAT == 0) && back == data[..off]
        invariant Grew(w0.log, Now().log, ReadOnly) && HasRead(ab, base, off, w0, Now(), back)
        invariant emulated ==> Attached() && Chip() == c0 && BeginsWith(c0.flash, back)
        decreases |data| - off
      {
        var chunk := if |data| - off < READ_CHUNK then |data| - off else READ_CHUNK;
        s, mismatch, back := VerifyChunk(data, off, chunk, w0, back);
        if s != Ok {
          BeginsWithMeans(c0.flash, back);
          return;
        }
        off := off + chunk;
      }
      assert data[..off] == data;
      BeginsWithMeans(c0.flash, back);
    }

    /**
     Compares flash with the image. `back` is what was read back: the transcript is exactly a read
     of that many bytes from the flash base, answered with them.
     */
    method VerifyFlash(data: seq<byte>) returns (s: Status, mismatch: Option<Mismatch>, ghost back: seq<byte>)
      requires Valid()
      modifies link.transport.Repr
      ensures Valid() && (!connected ==> s == ErrParam && Now() == old(Now()))
      ensures Grew(old(Now()).log, Now().log, ReadOnly)
      ensures s in {Ok, ErrVerify} ==>
                HasRead(link.addressBytes, device.value.flashAddress, |back|, old(Now()), Now(), back)
      ensures s == Ok ==> back == data
      ensures s == ErrVerify ==> mismatch.Some? && FirstDifference(mismatch.value, data, back)
      ensures old(Attached()) && |data| <= device.value.flashSize ==>
                Attached() && Chip() == old(Chip()) && s in {Ok, ErrVerify}
                && |back| <= |data| && back == Chip().flash[..|back|]
    {
      mismatch, back := None, [];
      if !connected || device == None {
        return ErrParam, None, [];
      }
      s, mismatch, back := CompareFlash(data);
    }

    /** Reads the next chunk of a dump into its place in the buffer. */
    method DumpChunk(buf: array<byte>, off: nat, chunk: nat, ghost w0: Wire, ghost all: seq<byte>,
                     ghost buf0: seq<byte>)
      returns (s: Status, ghost all': seq<byte>)
      requires Valid() && connected && off + chunk <= buf.Length && buf !in link.transport.Repr
      requires chunk <= READ_CHUNK && off % MAX_REPEAT == 0
      requires Grew(w0.log, Now().log, ReadOnly) && |all| == off && Dumped(buf0, buf[..], all)
      requires HasRead(link.addressBytes, device.value.flashAddress, off, w0, Now(), all)
      modifies buf, link.transport.Repr
      ensures Valid() && Grew(w0.log, Now().log, ReadOnly) && Dumped(buf0, buf[..], all')
      ensures |all'| == if s == Ok then off + chunk else off
      ensures s == Ok ==> HasRead(link.addressBytes, device.value.flashAddress, off + chunk, w0, Now(), all')
      ensures old(Attached()) && off + chunk <= device.value.flashSize && BeginsWith(old(Chip()).flash, all) ==>
                s == Ok && Attached() && Chip() == old(Chip()) && BeginsWith(Chip().flash, all')
    {
      ghost var w1, buf1 := Now(), buf[..];
      all' := all;
      var rb;
      s, rb := ReadFlashChunk(off, chunk);
      GrewThen(w0.log, w1.log, Now().log, ReadOnly);
      if s != Ok {
        return;
      }
      all' := all + rb;
      HasReadMore(link.addressBytes, device.value.flashAddress, off, chunk, w0, w1, Now(), all, rb);
      if old(Attached()) && off + chunk <= device.value.flashSize && BeginsWith(Chip().flash, all) {
        BeginsWithMore(Chip().flash, all, chunk);
      }
      CopyInto(buf, off, rb);
      DumpedMore(buf0, buf1, all, buf[..], rb);
    }

    /** The loop over the chunks of a dump. */
    method DumpChunks(buf: array<byte>, len: nat) returns (s: Status)
      requires Valid() && connected && len <= buf.Length && buf !in link.transport.Repr
      modifies buf, link.transport.Repr
      ensures Valid() && Grew(old(Now()).log, Now().log, ReadOnly)
      ensures buf[len..] == old(buf[len..])
      ensures s == Ok ==>
                HasRead(link.addressBytes, device.value.flashAddress, len, old(Now()), Now(), buf[..len])
      ensures old(Attached()) && len <= device.value.flashSize ==>
                s == Ok && Attached() && Chip() == old(Chip()) && buf[..len] == Chip().flash[..len]
    {
      s := Ok;
      ghost var w0, c0, emulated := Now(), Chip(), Attached() && len <= device.value.flashSize;
      ghost var ab, base := link.addressBytes, device.value.flashAddress;
      HasReadNothing(ab, base, w0);
      ghost var all: seq<byte>, buf0 := [], buf[..];
      DumpedNothing(buf0);
      var off := 0;
      while off < len
        invariant Valid() && s == Ok && off <= len && (off < len ==> off % MAX_REPEAT == 0)
        invariant |all| == off && Dumped(buf0, buf[..], all)
        invariant Grew(w0.log, Now().log, ReadOnly) && HasRead(ab, base, off, w0, Now(), all)
        invariant emulated ==> Attached() && Chip() == c0 && BeginsWith(c0.flash, all)
        decreases len - off
      {
        var chunk := if len - off < READ_CHUNK then len - off else READ_CHUNK;
        s, all := DumpChunk(buf, off, chunk, w0, all, buf0);
        if s != Ok {
          DumpedMeans(buf0, buf[..], all, len);
          return;
        }
        off := off + chunk;
      }
      DumpedMeans(buf0, buf[..], all, len);
      BeginsWithMeans(c0.flash, all);
    }

    /** Reads `len` flash bytes into the caller's buffer, and leaves the rest of it alone. */
    method ReadFlash(buf: array<byte>, len: nat) returns (s: Status)
      requires Valid() && len <= buf.Length && buf !in link.transport.Repr
      modifies buf, link.transport.Repr
      ensures Valid() && (!connected ==> s == ErrParam && Now() == old(Now()))
      ensures Grew(old(Now()).log, Now().log, ReadOnly)
      ensures buf[len..] == old(buf[len..])
      ensures s == Ok ==>
                HasRead(link.addressBytes, device.value.flashAddress, len, old(Now()), Now(), buf[..len])
      ensures old(Attached()) && len <= device.value.flashSize ==>
                s == Ok && Attached() && Chip() == old(Chip()) && buf[..len] == Chip().flash[..len]
    {
      if !connected || device == None {
        return ErrParam;
      }
      s := DumpChunks(buf, len);
    }

    // ---- fuses ----

    /** One round of the fuse loop, begun at w0. */
    method ReadNextFuse(fuses: seq<byte>, ghost w0: Wire) returns (s: Status, value: byte)
      requires Valid() && connected && GeometryOk(device.value) && |fuses| < device.value.fusesSize
      requires Grew(w0.log, Now().log, ReadOnly)
      requires HasReadFuses(link.addressBytes, device.value.fusesAddress, w0, Now(), fuses)
      modifies link.transport.Repr
      ensures Valid() && Grew(w0.log, Now().log, ReadOnly)
      ensures s == Ok ==> HasReadFuses(link.addressBytes, device.value.fusesAddress, w0, Now(), fuses + [value])
      ensures old(Attached()) ==>
                s == Ok && Attached() && Chip() == old(Chip()) && value == Fuse(Chip(), device.value, |fuses|)
    {
      ghost var w1 := Now();
      s, value := nvm.ReadFuse(|fuses| % 256);
      GrewThen(w0.log, w1.log, Now().log, ReadOnly);
      if s == Ok {
        HasReadOneMore(link.addressBytes, device.value.fusesAddress, w0, w1, Now(), fuses, value);
      }
    }

    /** Reads the first `count` fuses, at most all of them. */
    method ReadFuses(count: nat) returns (s: Status, fuses: seq<byte>)
      requires Valid()
      modifies link.transport.Repr
      ensures Valid() && (!connected ==> s == ErrParam && Now() == old(Now()))
      ensures Grew(old(Now()).log, Now().log, ReadOnly)
      ensures s == Ok ==>
                |fuses| == Min(count, device.value.fusesSize) && |fuses| <= 256
                && HasReadFuses(link.addressBytes, device.value.fusesAddress, old(Now()), Now(), fuses)
      ensures old(Attached()) ==>
                s == Ok && Attached() && Chip() == old(Chip())
                && |fuses| == Min(count, device.value.fusesSize) && FusesRead(Chip(), device.value, fuses)
    {
      fuses := [];
      if !connected || device == None {
        return ErrParam, [];
      }
      SoundRow(table, device.value);
      var n := if count > device.value.fusesSize then device.value.fusesSize else count;
      ghost var w0, c0, emulated := Now(), Chip(), Attached();
      ghost var ab, d := link.addressBytes, device.value;
      HasReadNoFuses(ab, d.fusesAddress, w0);
      for i := 0 to n
        invariant Valid() && |fuses| == i && Grew(w0.log, Now().log, ReadOnly)
        invariant HasReadFuses(ab, d.fusesAddress, w0, Now(), fuses)
        invariant emulated ==> Attached() && Chip() == c0 && FusesRead(c0, d, fuses)
      {
        var value;
        s, value := ReadNextFuse(fuses, w0);
        if s != Ok {
          return;
        }
        fuses := fuses + [value];
      }
      s := Ok;
    }

    method WriteFuse(index: byte, value: byte) returns (s: Status)
      requires Valid()
      modifies link.transport.Repr
      ensures Valid() && (!connected ==> s == ErrParam && Now() == old(Now()))
      ensures connected && index >= device.value.fusesSize ==> s == ErrParam && Now() == old(Now())
      ensures connected && index < device.value.fusesSize ==>
                nvm.FuseGrown(old(Now()).log, Now().log, device.value.fusesAddress + index)
                && nvm.FuseRanAs(device.value.fusesAddress + index, value, old(Now()), Now(), s)
      ensures old(Attached()) && index < device.value.fusesSize ==>
                s == Ok && Attached() && IoStored(old(Chip()), Chip(), device.value.fusesAddress + index, value)
    {
      if !connected || device == None {
        return ErrParam;
      }
      s := nvm.WriteFuse(index, value);
    }

    /** What a fuse write leaves to be read: the new value there, every other fuse and all flash as before. */
    method FuseRoundTrip(index: byte, value: byte) returns (got: byte)
      requires Valid() && Attached() && index < device.value.fusesSize
      modifies link.transport.Repr
      ensures Valid() && Attached() && got == value && Chip().flash == old(Chip()).flash
      ensures forall i: byte :: i < device.value.fusesSize ==>
                Fuse(Chip(), device.value, i) == if i == index then value else Fuse(old(Chip()), device.value, i)
    {
      var s := WriteFuse(index, value);
      s, got := nvm.ReadFuse(index);
    }
  }
}
