/** NVM programming (updi_nvm.c): progmode, keys and reset, and the table-driven NVMCTRL commands. */
module UpdiNvmController {
  import opened Bytes
  import opened Protocol
  import opened Target
  import opened Memory
  import opened Lockstep
  import opened WireLog
  import opened Polling
  import Pymcuprog
  import opened UpdiDataLink
  import opened Devices
  import opened PortEquivalence

  datatype SibInfo = SibInfo(family: seq<byte>, nvmVersion: byte)

  const SIGROW_DEFAULT: u24 := 0x1100

  function TrimmedLength(sib: seq<byte>, n: nat): (k: nat)
    requires n <= |sib|
    ensures k <= n
  {
    if n > 0 && sib[n - 1] in {0x20, 0} then TrimmedLength(sib, n - 1) else n
  }

  /** The family name trimmed of trailing blanks, and the digit of the "P:x" field. */
  function ParseSib(sib: seq<byte>): SibInfo
    requires |sib| >= 11
  {
    SibInfo(sib[..TrimmedLength(sib, 7)],
            if 0x30 <= sib[10] <= 0x39 then sib[10] - 0x30 else 0xFF)
  }

  // ---- what the emulated chip looks like afterwards ----

  /** Only the control/status space and the armed keys may differ, and STATUSA does not. */
  predicate SameMemories(c: Chip, c': Chip) {
    c'.cfg == c.cfg && c'.flash == c.flash && c'.io == c.io && c'.cs[CS_STATUSA] == c.cs[CS_STATUSA]
  }

  /** Flash, the NVMCTRL command register and CTRLA aside, nothing differs. */
  predicate SameButFlash(c: Chip, c': Chip) {
    c'.cfg == c.cfg && c'.io[1..] == c.io[1..] && c'.nvmKey == c.nvmKey && c'.eraseKey == c.eraseKey
    && forall i :: 0 <= i < 16 && i != CS_CTRLA ==> c'.cs[i] == c.cs[i]
  }

  /** A command other than chip erase and WRITE_FUSE only leaves its code in the command register. */
  lemma PlainCommand(c: Chip, d: Device, command: byte)
    requires Emulates(c.cfg, d) && command != Desc(d.variant).cmdChipErase
    requires d.variant == P0 ==> command != Desc(P0).cmdWriteFuse
    ensures var a := d.nvmctrlBase + Desc(d.variant).regCtrla;
            a % AddressSpace(d.addressBytes) == a && MemWrite(c, a, command) == c.(io := c.io[0 := command])
  {
    EmulatesMeans(c.cfg, d);
  }

  lemma EraseCommand(c: Chip, d: Device)
    requires Emulates(c.cfg, d)
    ensures var v := Desc(d.variant);
            var a := d.nvmctrlBase + v.regCtrla;
            a % AddressSpace(d.addressBytes) == a
            && MemWrite(c, a, v.cmdChipErase) == c.(flash := Erased(), io := c.io[0 := v.cmdChipErase])
  {
    EmulatesMeans(c.cfg, d);
  }

  /** A store to I/O, outside flash and outside the command register. */
  lemma PlainStore(c: Chip, d: Device, address: u32, value: byte)
    requires Emulates(c.cfg, d) && InIo(address) && address != d.nvmctrlBase
    ensures address % AddressSpace(d.addressBytes) == address
    ensures MemWrite(c, address, value) == SetIo(c, address, value) == StoreSeq(c, address, [value])
  {
    EmulatesMeans(c.cfg, d);
    assert StoreSeq(c, address, [value]) == MemWrite(c, address, value);
  }

  lemma CommandAddress(d: Device)
    requires GeometryOk(d)
    ensures var a := d.nvmctrlBase + Desc(d.variant).regCtrla; a % AddressSpace(d.addressBytes) == a
  {}

  lemma StatusReadsReady(c: Chip, d: Device)
    requires Emulates(c.cfg, d)
    ensures var a := d.nvmctrlBase + Desc(d.variant).regStatus;
            a % AddressSpace(d.addressBytes) == a && MemRead(c, a) == 0
  {
    EmulatesMeans(c.cfg, d);
  }

  /** The transcript ends with a system status answer that has the NVMPROG bit set. */
  predicate SawProgmode(log: seq<Event>) {
    exists b: byte :: Bit(b, SYS_STATUS_NVMPROG) && EndsAnswered(log, LdcsFrame(ASI_SYS_STATUS), b)
  }

  /** The transcript ends with a system status answer that has the lock bit set. */
  predicate SawLocked(log: seq<Event>) {
    exists b: byte :: Bit(b, SYS_STATUS_LOCK) && EndsAnswered(log, LdcsFrame(ASI_SYS_STATUS), b)
  }

  /** The transcript ends with a key status answer that shows the key with this bit taken, or not. */
  predicate KeyTaken(log: seq<Event>, weight: nat)
    requires weight > 0
  {
    exists b: byte :: Bit(b, weight) && EndsAnswered(log, LdcsFrame(ASI_KEY_STATUS), b)
  }

  predicate KeyRefused(log: seq<Event>, weight: nat)
    requires weight > 0
  {
    exists b: byte :: !Bit(b, weight) && EndsAnswered(log, LdcsFrame(ASI_KEY_STATUS), b)
  }

  /** From one transcript to the other only reset was applied and released, sent or not. */
  predicate Toggled(a: seq<Event>, b: seq<Event>) {
    exists ok1: bool, ok2: bool ::
      b == a + [Sent(StcsFrame(ASI_RESET_REQ, RESET_REQ_VALUE), ok1), Sent(StcsFrame(ASI_RESET_REQ, 0), ok2)]
  }

  /** One of the answers to a poll of the lock status, or one that had the lock bit set. */
  predicate Answered(w: Wire, w': Wire)
    requires w.log <= w'.log
  {
    var a := Answers(Since(w, w')); exists k :: 0 <= k < |a| && a[k].Value?
  }

  predicate LockBitSeen(w: Wire, w': Wire)
    requires w.log <= w'.log
  {
    var a := Answers(Since(w, w')); exists k :: 0 <= k < |a| && a[k].Value? && Bit(a[k].value, SYS_STATUS_LOCK)
  }

  ghost predicate LockPolled(timeoutMs: u32, w1: Wire, w: Wire) {
    Polled(LdcsFrame(ASI_SYS_STATUS), WhileLocked, w1, w) && Keeps(WhileLocked, LastAnswer(w1, w))
    && Expired(timeoutMs, w1, w) && (LockBitSeen(w1, w) <==> Answered(w1, w))
  }

  /**
   What ErrLocked means: reset was applied and released, and all of the transcript after that is a poll of
   the lock status that never showed the lock bit clear, up to its time limit or cap on the clock readings
   since w0. The bit was seen set exactly if anything was answered at all.
   */
  ghost predicate StayedLocked(timeoutMs: u32, w0: Wire, w: Wire) {
    exists w1: Wire, n: nat ::
      n <= |w1.log| && w0.log <= w1.log[..n] && Toggled(w1.log[..n], w1.log) && w1.ticks == w0.ticks
      && LockPolled(timeoutMs, w1, w)
  }

  lemma LockNeverClear(timeoutMs: u32, w1: Wire, w: Wire)
    requires Polled(LdcsFrame(ASI_SYS_STATUS), WhileLocked, w1, w) && Keeps(WhileLocked, LastAnswer(w1, w))
    requires Expired(timeoutMs, w1, w)
    ensures LockPolled(timeoutMs, w1, w)
  {
    var a := Answers(Since(w1, w));
    assert forall k :: 0 <= k < |a| ==> Keeps(WhileLocked, a[k]);
  }

  /** The transcript after a reset toggle and these events. */
  function AfterReset(w0: Wire, io: seq<Event>, ticks: seq<u32>): Wire {
    w0.(log := w0.log + [Sent(StcsFrame(ASI_RESET_REQ, RESET_REQ_VALUE), true), Sent(StcsFrame(ASI_RESET_REQ, 0), true)]
               + io,
        ticks := w0.ticks + ticks)
  }

  /** Staying locked can be mere silence: here no frame was answered. */
  lemma SilenceLooksLocked(w0: Wire, t: u32)
    ensures StayedLocked(100, w0, AfterReset(w0, [Sent(LdcsFrame(ASI_SYS_STATUS), false)], [t, (t + 100) % U32]))
  {
    var w1, frame := AfterReset(w0, [], []), LdcsFrame(ASI_SYS_STATUS);
    var w := AfterReset(w0, [Sent(frame, false)], [t, (t + 100) % U32]);
    assert w1.log[..|w0.log|] == w0.log && Toggled(w0.log, w1.log) && w1.ticks == w0.ticks;
    assert Since(w1, w) == [Sent(frame, false)] && Answers([]) == [] && Answers(Since(w1, w)) == [Silent];
    assert w.ticks[|w1.ticks|..] == [t, (t + 100) % U32];
    LockNeverClear(100, w1, w);
  }

  predicate NoReset(io: seq<Event>) {
    forall i :: 0 <= i < |io| && io[i].Sent? ==> io[i].frame != StcsFrame(ASI_RESET_REQ, RESET_REQ_VALUE)
  }

  /** The last reset toggle of a transcript is where it is. */
  lemma LastToggle(a: seq<Event>, io: seq<Event>, n: nat, b: seq<Event>)
    requires Toggled(a, a + b) && |b| == 2 && NoReset(io) && |a| <= n && n + 2 <= |a + b + io|
    requires Toggled((a + b + io)[..n], (a + b + io)[..n + 2])
    ensures n == |a|
  {
    var all := a + b + io;
    assert all[..n + 2][n] == all[n];
    assert (a + b)[|a| + 1] == b[1] == all[|a| + 1];
    assert forall i :: |a| + 2 <= i < |all| ==> all[i] == io[i - |a| - 2];
  }

  /** So whatever follows a reset toggle, and resets nothing, is all that came since the last one. */
  lemma SinceReset(w0: Wire, io: seq<Event>, ticks: seq<u32>, w1: Wire, n: nat)
    requires NoReset(io) && w1.log <= AfterReset(w0, io, ticks).log
    requires n <= |w1.log| && w0.log <= w1.log[..n] && Toggled(w1.log[..n], w1.log)
    ensures Since(w1, AfterReset(w0, io, ticks)) == io
  {
    var w := AfterReset(w0, io, ticks);
    var b := [Sent(StcsFrame(ASI_RESET_REQ, RESET_REQ_VALUE), true), Sent(StcsFrame(ASI_RESET_REQ, 0), true)];
    assert w1.log == w.log[..n + 2] && w.log[..n] == w1.log[..n];
    LastToggle(w0.log, io, n, b);
  }

  lemma AnswersKeep(w1: Wire, w: Wire, io: seq<Event>)
    requires LockPolled(100, w1, w) && Since(w1, w) == io
    ensures forall k :: 0 <= k < |Answers(io)| ==> Keeps(WhileLocked, Answers(io)[k])
  {}

  /** In a run that stayed locked no answer since the reset was clear, whatever came after it. */
  lemma NoAnswerWasClear(w0: Wire, io: seq<Event>, ticks: seq<u32>)
    requires NoReset(io) && StayedLocked(100, w0, AfterReset(w0, io, ticks))
    ensures forall k :: 0 <= k < |Answers(io)| ==> Keeps(WhileLocked, Answers(io)[k])
  {
    var w := AfterReset(w0, io, ticks);
    var w1: Wire, n: nat :| n <= |w1.log| && w0.log <= w1.log[..n] && Toggled(w1.log[..n], w1.log)
      && w1.ticks == w0.ticks && LockPolled(100, w1, w);
    SinceReset(w0, io, ticks, w1, n);
    AnswersKeep(w1, w, io);
  }

  /** The transcript ends with a system status answer that has the lock bit clear. */
  predicate SawUnlocked(log: seq<Event>) {
    exists b: byte :: !Bit(b, SYS_STATUS_LOCK) && EndsAnswered(log, LdcsFrame(ASI_SYS_STATUS), b)
  }

  /** One status read, and nothing else. */
  predicate AskedOnce(w: Wire, w': Wire) {
    w.log <= w'.log && Exchanges(LdcsFrame(ASI_SYS_STATUS), Since(w, w')) && |Answers(Since(w, w'))| == 1
  }

  /** A status read showed the lock bit clear, and the next and last one did not show NVMPROG. */
  ghost predicate NotEntered(w0: Wire, w: Wire) {
    !SawProgmode(w.log)
    && exists w1: Wire :: w0.log <= w1.log && SawUnlocked(w1.log) && AskedOnce(w1, w)
  }

  ghost function Fuse(c: Chip, d: Device, index: byte): byte
    requires GeometryOk(d) && index < d.fusesSize
  {
    c.io[d.fusesAddress + index - IO_BASE]
  }

  lemma FuseRead(c: Chip, d: Device, index: byte)
    requires Emulates(c.cfg, d) && index < d.fusesSize
    ensures var a := d.fusesAddress + index;
            a % AddressSpace(d.addressBytes) == a && MemRead(c, a) == Fuse(c, d, index)
  {
    EmulatesMeans(c.cfg, d);
  }

  lemma FuseInIo(d: Device, index: byte)
    requires GeometryOk(d) && index < d.fusesSize
    ensures IO_BASE + 16 <= d.fusesAddress + index < IO_BASE + IO_SIZE
  {}

  /** One byte of the I/O space stored; only the NVMCTRL registers may differ besides it. */
  predicate IoStored(c: Chip, c': Chip, addr: nat, value: byte) {
    c'.cfg == c.cfg && c'.flash == c.flash && c'.cs == c.cs && c'.nvmKey == c.nvmKey && c'.eraseKey == c.eraseKey
    && forall k :: 16 <= k < IO_SIZE ==> c'.io[k] == if k == addr - IO_BASE then value else c.io[k]
  }

  /** The chip after a command followed, on P:3, by NOCMD. */
  function AfterCommand(c: Chip, d: Device, command: byte): Chip {
    var c1 := MemWrite(c, d.nvmctrlBase + Desc(d.variant).regCtrla, command);
    if Desc(d.variant).clearCmdAfter then MemWrite(c1, d.nvmctrlBase + Desc(d.variant).regCtrla, 0) else c1
  }

  lemma EepromFuseStored(c: Chip, c3: Chip, c': Chip, d: Device, addr: u32, value: byte)
    requires Emulates(c.cfg, d) && d.variant == P3 && IO_BASE + 16 <= addr < IO_BASE + IO_SIZE
    requires c3 == SetIo(c.(io := c.io[0 := Desc(P3).cmdEepromBufferClear]), addr, value)
    requires c' == AfterCommand(c3, d, Desc(P3).cmdEepromEraseWrite)
    ensures IoStored(c, c', addr, value)
  {
    EmulatesMeans(c.cfg, d);
    PlainCommand(c3, d, Desc(P3).cmdEepromEraseWrite);
    PlainCommand(c3.(io := c3.io[0 := Desc(P3).cmdEepromEraseWrite]), d, 0);
  }

  /** WRITE_FUSE copies the DATA register to the address in the ADDR registers. */
  lemma RegisterFuseStored(c: Chip, c4: Chip, c': Chip, d: Device, addr: u32, value: byte)
    requires Emulates(c.cfg, d) && d.variant == P0 && IO_BASE + 16 <= addr < IO_BASE + IO_SIZE
    requires c4 == SetIo(SetIo(SetIo(c, IO_BASE + 8, addr % 256), IO_BASE + 9, addr / 256 % 256), IO_BASE + 6, value)
    requires c' == AfterCommand(c4, d, Desc(P0).cmdWriteFuse)
    ensures IoStored(c, c', addr, value)
  {
    EmulatesMeans(c.cfg, d);
    assert c4.io[8] == addr % 256 && c4.io[9] == addr / 256 % 256 && c4.io[6] == value;
    assert Word(c4.io[8], c4.io[9]) == addr;
  }

  predicate InFlashRange(d: Device, address: u32, n: nat) {
    d.flashAddress <= address && address + n <= d.flashAddress + d.flashSize
  }

  lemma InFlashAddress(d: Device, address: u32, n: nat)
    requires GeometryOk(d) && InFlashRange(d, address, n) && n > 0
    ensures address % AddressSpace(d.addressBytes) == address
  {}

  lemma PageStoredAt(c: Chip, d: Device, off: nat, data: seq<byte>)
    requires Emulates(c.cfg, d) && off + |data| <= d.flashSize
    ensures StoreSeq(c, d.flashAddress + off, data) == c.(flash := Overlay(c.flash, off, data))
  {
    EmulatesMeans(c.cfg, d);
    StoreFlash(c, off, data);
  }

  /** Words stored at a flash address change flash and nothing else but CTRLA. */
  lemma PageStored(c: Chip, c': Chip, d: Device, address: u32, data: seq<byte>)
    requires Emulates(c.cfg, d) && InFlashRange(d, address, |data|) && data != []
    requires var stored := StoreSeq(c, address % AddressSpace(d.addressBytes), data);
             c' == stored || c' == WithAckOn(stored)
    ensures SameButFlash(c, c') && c'.flash == Overlay(c.flash, address - d.flashAddress, data)
  {
    InFlashAddress(d, address, |data|);
    PageStoredAt(c, d, address - d.flashAddress, data);
  }

  lemma EraseCommitted(c: Chip, c': Chip, d: Device)
    requires Emulates(c.cfg, d) && c' == AfterCommand(c, d, Desc(d.variant).cmdChipErase)
    ensures SameButFlash(c, c') && c'.flash == Erased()
  {
    EraseCommand(c, d);
    if d.variant == P3 {
      PlainCommand(c.(flash := Erased(), io := c.io[0 := Desc(d.variant).cmdChipErase]), d, 0);
    }
  }

  /** The emulator has no page buffer: a page command leaves flash as it is. */
  lemma PageCommitted(c: Chip, c': Chip, d: Device, command: byte)
    requires Emulates(c.cfg, d) && command in {Desc(d.variant).cmdWritePage, Desc(d.variant).cmdErasePage}
    requires c' == AfterCommand(c, d, command)
    ensures SameButFlash(c, c') && c'.flash == c.flash
  {
    PlainCommand(c, d, command);
    if d.variant == P3 {
      PlainCommand(c.(io := c.io[0 := command]), d, 0);
    }
  }

  /** Both only ask for a later start. */
  lemma EarlierStart(w0: Wire, w1: Wire, w: Wire)
    requires w0.log <= w1.log
    ensures w0.ticks == w1.ticks && StayedLocked(100, w1, w) ==> StayedLocked(100, w0, w)
    ensures NotEntered(w1, w) ==> NotEntered(w0, w)
  {
    if w0.ticks == w1.ticks && StayedLocked(100, w1, w) {
      var w2: Wire, n: nat :| n <= |w2.log| && w1.log <= w2.log[..n] && Toggled(w2.log[..n], w2.log)
        && w2.ticks == w1.ticks && LockPolled(100, w2, w);
      assert w0.log <= w2.log[..n];
    }
    if NotEntered(w1, w) {
      var w2: Wire :| w1.log <= w2.log && SawUnlocked(w2.log) && AskedOnce(w2, w);
      assert w0.log <= w2.log;
    }
  }

  class UpdiNvm {
    const link: UpdiLink
    var device: Option<Device>

    ghost predicate Valid()
      reads this, link, link.transport, link.transport.Repr
    {
      link.Valid() && this !in link.transport.Repr && this as object != link
    }

    ghost function Now(): Wire
      reads link.transport
    {
      link.transport.wire
    }

    ghost function Chip(): Chip
      reads link.transport
    {
      link.transport.wire.target.chip
    }

    /** The other end is the emulator, set up as this device and in step. */
    ghost predicate Paired()
      reads this, link, link.transport
    {
      Live(Now()) && device.Some? && Emulates(Chip().cfg, device.value)
      && link.addressBytes == device.value.addressBytes
    }

    constructor (link: UpdiLink)
      requires link.Valid()
      ensures Valid() && this.link == link && device == None
    {
      this.link := link;
      device := None;
    }

    method SetDevice(d: Option<Device>)
      modifies `device
      ensures device == d
    {
      device := d;
    }

    // ---- reset, status and keys ----

    method Reset(apply: bool) returns (s: Status)
      requires Valid()
      modifies link.transport.Repr
      ensures Valid() && s in {Ok, ErrTransport} && Grew(old(Now()).log, Now().log, ReadOnly)
      ensures Ran(StcsScript(ASI_RESET_REQ, if apply then RESET_REQ_VALUE else 0), old(Now()), Now(), s, [])
      ensures Now().emulated == old(Now()).emulated && Now().ticks == old(Now()).ticks
      ensures Live(old(Now())) ==>
                s == Ok && Live(Now())
                && Chip() == StoreCs(old(Chip()), ASI_RESET_REQ, if apply then RESET_REQ_VALUE else 0)
    {
      s := link.Stcs(ASI_RESET_REQ, if apply then RESET_REQ_VALUE else 0x00);
    }

    method InProgmode() returns (r: bool)
      requires Valid()
      modifies link.transport.Repr
      ensures Valid() && Grew(old(Now()).log, Now().log, ReadOnly)
      ensures Now().emulated == old(Now()).emulated && Now().ticks == old(Now()).ticks
      ensures (r <==> SawProgmode(Now().log)) && |Now().log| > |old(Now()).log|
      ensures AskedOnce(old(Now()), Now())
      ensures Live(old(Now())) ==>
                Live(Now()) && Chip() == old(Chip()) && r == Bit(Chip().cs[ASI_SYS_STATUS], SYS_STATUS_NVMPROG)
    {
      ghost var w0 := Now();
      var s, st := link.Ldcs(ASI_SYS_STATUS);
      OneExchange(LdcsFrame(ASI_SYS_STATUS), w0, Now(), s, if s == Ok then [st] else []);
      AnsweredLast(LdcsFrame(ASI_SYS_STATUS), w0, Now(), s, if s == Ok then [st] else []);
      r := s == Ok && Bit(st, SYS_STATUS_NVMPROG);
    }

    method IsLocked() returns (r: bool)
      requires Valid()
      modifies link.transport.Repr
      ensures Valid() && Grew(old(Now()).log, Now().log, ReadOnly)
      ensures r <==> SawLocked(Now().log)
      ensures Live(old(Now())) ==>
                Live(Now()) && Chip() == old(Chip()) && r == Bit(Chip().cs[ASI_SYS_STATUS], SYS_STATUS_LOCK)
    {
      ghost var w0 := Now();
      var s, st := link.Ldcs(ASI_SYS_STATUS);
      AnsweredLast(LdcsFrame(ASI_SYS_STATUS), w0, Now(), s, if s == Ok then [st] else []);
      r := s == Ok && Bit(st, SYS_STATUS_LOCK);
    }

    /** One lock-status read of a poll loop. */
    method SeesUnlocked(ghost w0: Wire, ghost start: u32, ghost n: nat) returns (clear: bool)
      requires Valid() && n < MAX_POLLS && Grew(w0.log, Now().log, ReadOnly)
      requires Waiting(LdcsFrame(ASI_SYS_STATUS), WhileLocked, w0, Now(), start, n)
      modifies link.transport.Repr
      ensures Valid() && Grew(w0.log, Now().log, ReadOnly)
      ensures Polled(LdcsFrame(ASI_SYS_STATUS), WhileLocked, w0, Now()) && |Answers(Since(w0, Now()))| == n + 1
      ensures clear <==> !Keeps(WhileLocked, LastAnswer(w0, Now()))
      ensures clear <==> SawUnlocked(Now().log)
      ensures !clear ==> Waiting(LdcsFrame(ASI_SYS_STATUS), WhileLocked, w0, Now(), start, n + 1)
      ensures Live(old(Now())) ==>
                Live(Now()) && Chip() == old(Chip()) && clear == !Bit(Chip().cs[ASI_SYS_STATUS], SYS_STATUS_LOCK)
    {
      ghost var w1 := Now();
      var s, st := link.Ldcs(ASI_SYS_STATUS);
      PollOnce(LdcsFrame(ASI_SYS_STATUS), WhileLocked, w0, w1, Now(), s, if s == Ok then [st] else [], start, n);
      GrewThen(w0.log, w1.log, Now().log, ReadOnly);
      AnsweredLast(LdcsFrame(ASI_SYS_STATUS), w1, Now(), s, if s == Ok then [st] else []);
      clear := s == Ok && !Bit(st, SYS_STATUS_LOCK);
    }

    /**
     True exactly when the last status answered with the lock bit clear. False only after the time
     limit or the iteration cap; silence all along gives false just as the lock bit does.
     */
    method WaitUnlocked(timeoutMs: u32) returns (unlocked: bool)
      requires Valid()
      modifies link.transport.Repr
      ensures Valid() && Grew(old(Now()).log, Now().log, ReadOnly)
      ensures Polled(LdcsFrame(ASI_SYS_STATUS), WhileLocked, old(Now()), Now())
      ensures unlocked <==> !Keeps(WhileLocked, LastAnswer(old(Now()), Now()))
      ensures unlocked <==> SawUnlocked(Now().log)
      ensures !unlocked ==> Expired(timeoutMs, old(Now()), Now())
      ensures Live(old(Now())) && !Bit(old(Chip()).cs[ASI_SYS_STATUS], SYS_STATUS_LOCK) ==>
                unlocked && Live(Now()) && Chip() == old(Chip())
    {
      ghost var w0 := Now();
      ghost var frame := LdcsFrame(ASI_SYS_STATUS);
      var start := link.Millis();
      var iters := 0;
      while true
        invariant Valid() && iters < MAX_POLLS
        invariant Grew(w0.log, Now().log, ReadOnly) && Waiting(frame, WhileLocked, w0, Now(), start, iters)
        invariant Live(w0) ==> Live(Now()) && Chip() == w0.target.chip
        invariant Live(w0) && !Bit(w0.target.chip.cs[ASI_SYS_STATUS], SYS_STATUS_LOCK) ==> iters == 0
        decreases MAX_POLLS - iters
      {
        var clear := SeesUnlocked(w0, start, iters);
        if clear {
          return true;
        }
        ghost var w2 := Now();
        var now := link.Millis();
        PollTick(frame, WhileLocked, w0, w2, start, now, iters + 1);
        if (now - start) % U32 >= timeoutMs {
          return false;
        }
        iters := iters + 1;
        if iters >= MAX_POLLS {
          return false;
        }
      }
    }

    // ---- programming mode ----

    static function ResetToggled(c: Chip): Chip {
      StoreCs(StoreCs(c, ASI_RESET_REQ, RESET_REQ_VALUE), ASI_RESET_REQ, 0)
    }

    /** The chip after the NVMProg key and the reset toggle around it. */
    static function KeyApplied(c: Chip): Chip {
      ResetToggled(ArmKey(StoreCs(c, ASI_RESET_REQ, RESET_REQ_VALUE), NVM_KEY))
    }

    /** The chip let run again: reset toggled, UPDI disabled. */
    static function Released(c: Chip): Chip {
      StoreCs(ResetToggled(c), CS_CTRLB, CTRLB_UPDIDIS + CTRLB_CCDETDIS)
    }

    static lemma ReleasedKeeps(c: Chip)
      ensures SameMemories(c, Released(c))
    {}

    /** The chip after the chip-erase key and the reset toggle: unlocked, its flash untouched. */
    static function EraseKeyApplied(c: Chip): Chip { ResetToggled(ArmKey(c, ERASE_KEY)) }

    static lemma EraseKeyUnlocks(c: Chip)
      ensures Bit(ArmKey(c, ERASE_KEY).cs[ASI_KEY_STATUS], KEY_STATUS_CHIPERASE)
      ensures !Bit(EraseKeyApplied(c).cs[ASI_SYS_STATUS], SYS_STATUS_LOCK)
      ensures SameMemories(c, EraseKeyApplied(c))
    {
      var c1 := ArmKey(c, ERASE_KEY);
      assert c1.eraseKey;
      assert !Bit(ClearBit(c1.cs[ASI_SYS_STATUS], SYS_STATUS_LOCK), SYS_STATUS_LOCK);
    }

    static lemma NvmKeyArmed(c: Chip)
      ensures Bit(ArmKey(c, NVM_KEY).cs[ASI_KEY_STATUS], KEY_STATUS_NVMPROG)
    {}

    /** Reset applied and released again; the results are ignored. */
    method ToggleReset()
      requires Valid()
      modifies link.transport.Repr
      ensures Valid() && Grew(old(Now()).log, Now().log, ReadOnly)
      ensures Now().emulated == old(Now()).emulated && Now().ticks == old(Now()).ticks
      ensures Toggled(old(Now()).log, Now().log)
      ensures Live(old(Now())) ==> Live(Now()) && Chip() == ResetToggled(old(Chip()))
    {
      ghost var w0 := Now();
      var s1 := Reset(true);
      ghost var w1 := Now();
      SentLast(StcsFrame(ASI_RESET_REQ, RESET_REQ_VALUE), w0, w1, s1);
      var s2 := Reset(false);
      SentLast(StcsFrame(ASI_RESET_REQ, 0), w1, Now(), s2);
      assert Now().log == w0.log + [Sent(StcsFrame(ASI_RESET_REQ, RESET_REQ_VALUE), s1 == Ok),
                                    Sent(StcsFrame(ASI_RESET_REQ, 0), s2 == Ok)];
    }

    static lemma KeyAppliedUnlocks(c: Chip)
      ensures var st := KeyApplied(c).cs[ASI_SYS_STATUS];
              Bit(st, SYS_STATUS_NVMPROG) && !Bit(st, SYS_STATUS_LOCK)
      ensures SameMemories(c, KeyApplied(c))
    {
      var c0 := StoreCs(c, ASI_RESET_REQ, RESET_REQ_VALUE);
      var c1 := ArmKey(c0, NVM_KEY);
      assert c1.nvmKey;
      var c2 := StoreCs(c1, ASI_RESET_REQ, RESET_REQ_VALUE);
      var st := c2.cs[ASI_SYS_STATUS];
      var st1 := ClearBit(SetBit(st, SYS_STATUS_NVMPROG), SYS_STATUS_LOCK);
      assert Bit(SetBit(st, SYS_STATUS_NVMPROG), SYS_STATUS_NVMPROG);
      assert Bit(st1, SYS_STATUS_NVMPROG) && !Bit(st1, SYS_STATUS_LOCK);
    }

    /** Reset held, the key sent, and the target asked whether it took the key. */
    method OfferNvmKey() returns (s: Status)
      requires Valid()
      modifies link.transport.Repr
      ensures Valid() && Grew(old(Now()).log, Now().log, ReadOnly)
      ensures Now().emulated == old(Now()).emulated && Now().ticks == old(Now()).ticks
      ensures s in {Ok, ErrTransport, ErrTimeout, ErrProtocol}
      ensures s == Ok ==> KeyTaken(Now().log, KEY_STATUS_NVMPROG)
      ensures s == ErrProtocol ==> KeyRefused(Now().log, KEY_STATUS_NVMPROG)
      ensures Live(old(Now())) ==>
                s == Ok && Live(Now())
                && Chip() == ArmKey(StoreCs(old(Chip()), ASI_RESET_REQ, RESET_REQ_VALUE), NVM_KEY)
    {
      s := Reset(true);
      if s != Ok {
        return;
      }
      s := link.Key(KEY_64, NVM_KEY);
      if s != Ok {
        return;
      }
      NvmKeyArmed(StoreCs(old(Chip()), ASI_RESET_REQ, RESET_REQ_VALUE));
      ghost var w2 := Now();
      var keyStatus;
      s, keyStatus := link.Ldcs(ASI_KEY_STATUS);
      AnsweredLast(LdcsFrame(ASI_KEY_STATUS), w2, Now(), s, if s == Ok then [keyStatus] else []);
      if s == Ok && !Bit(keyStatus, KEY_STATUS_NVMPROG) {
        s := ErrProtocol; // key rejected
      }
    }

    /** After the key was taken: reset, the lock bit, and the target's own word. */
    method AwaitProgmode() returns (s: Status)
      requires Valid()
      modifies link.transport.Repr
      ensures Valid() && Grew(old(Now()).log, Now().log, ReadOnly) && s in {Ok, ErrLocked, ErrProtocol}
      ensures Now().emulated == old(Now()).emulated
      ensures s == Ok ==> SawProgmode(Now().log) && |Now().log| > |old(Now()).log|
      ensures s == ErrLocked ==> StayedLocked(100, old(Now()), Now())
      ensures s == ErrProtocol ==> NotEntered(old(Now()), Now())
      ensures Live(old(Now())) && !Bit(ResetToggled(old(Chip())).cs[ASI_SYS_STATUS], SYS_STATUS_LOCK) ==>
                Live(Now()) && Chip() == ResetToggled(old(Chip()))
                && s == if Bit(Chip().cs[ASI_SYS_STATUS], SYS_STATUS_NVMPROG) then Ok else ErrProtocol
    {
      ToggleReset();
      ghost var w1 := Now();
      var unlocked := WaitUnlocked(100);
      GrewThen(old(Now()).log, w1.log, Now().log, ReadOnly);
      if !unlocked {
        LockNeverClear(100, w1, Now());
        assert w1.log[..|old(Now()).log|] == old(Now()).log;
        return ErrLocked;
      }
      ghost var w2 := Now();
      var entered := InProgmode();
      GrewThen(old(Now()).log, w2.log, Now().log, ReadOnly);
      s := if entered then Ok else ErrProtocol;
    }

    /**
     Hands over the NVMProg key under reset. Success means that the target itself reported
     programming mode; ErrLocked, that it never showed a clear lock bit, perhaps by saying nothing.
     */
    method EnterProgmode() returns (s: Status)
      requires Valid()
      modifies link.transport.Repr
      ensures Valid() && Grew(old(Now()).log, Now().log, ReadOnly)
      ensures Now().emulated == old(Now()).emulated
      ensures s == Ok ==> SawProgmode(Now().log) && |Now().log| > |old(Now()).log|
      ensures s in {Ok, ErrTransport, ErrTimeout, ErrLocked, ErrProtocol}
      ensures s == ErrLocked ==> StayedLocked(100, old(Now()), Now())
      ensures s == ErrProtocol ==> KeyRefused(Now().log, KEY_STATUS_NVMPROG) || NotEntered(old(Now()), Now())
      ensures Live(old(Now())) ==>
                s == Ok && Live(Now()) && SameMemories(old(Chip()), Chip())
                && Bit(Chip().cs[ASI_SYS_STATUS], SYS_STATUS_NVMPROG)
    {
      var already := InProgmode();
      if already {
        return Ok;
      }
      s := OfferNvmKey();
      if s != Ok {
        return;
      }
      ghost var w1 := Now();
      s := AwaitProgmode();
      GrewThen(old(Now()).log, w1.log, Now().log, ReadOnly);
      EarlierStart(old(Now()), w1, Now());
      if Live(old(Now())) {
        KeyAppliedUnlocks(old(Chip()));
      }
    }

    method LeaveProgmode() returns (s: Status)
      requires Valid()
      modifies link.transport.Repr
      ensures Valid() && s in {Ok, ErrTransport} && Grew(old(Now()).log, Now().log, ReadOnly)
      ensures |Now().log| == |old(Now()).log| + 3 && Toggled(old(Now()).log, Now().log[..|Now().log| - 1])
      ensures Now().log[|Now().log| - 1] == Sent(StcsFrame(CS_CTRLB, CTRLB_UPDIDIS + CTRLB_CCDETDIS), s == Ok)
      ensures Live(old(Now())) ==> s == Ok && Live(Now()) && Chip() == Released(old(Chip()))
    {
      ToggleReset();
      ghost var w1 := Now();
      s := link.Stcs(CS_CTRLB, CTRLB_UPDIDIS + CTRLB_CCDETDIS);
      SentLast(StcsFrame(CS_CTRLB, CTRLB_UPDIDIS + CTRLB_CCDETDIS), w1, Now(), s);
      assert Now().log[..|Now().log| - 1] == w1.log;
    }

    /** After the erase key was taken: reset, and the lock bit. */
    method AwaitUnlocked() returns (s: Status)
      requires Valid()
      modifies link.transport.Repr
      ensures Valid() && Grew(old(Now()).log, Now().log, ReadOnly) && s in {Ok, ErrNvm}
      ensures Now().emulated == old(Now()).emulated && (s == Ok <==> SawUnlocked(Now().log))
      ensures Live(old(Now())) && !Bit(ResetToggled(old(Chip())).cs[ASI_SYS_STATUS], SYS_STATUS_LOCK) ==>
                s == Ok && Live(Now()) && Chip() == ResetToggled(old(Chip()))
    {
      ToggleReset();
      ghost var l := Now().log;
      var unlocked := WaitUnlocked(500);
      GrewThen(old(Now()).log, l, Now().log, ReadOnly);
      s := if unlocked then Ok else ErrNvm;
    }

    /** Unlocks by the chip-erase key, the one operation that sends it. */
    method Unlock() returns (s: Status)
      requires Valid()
      modifies link.transport.Repr
      ensures Valid() && Grew(old(Now()).log, Now().log, Unlocking)
      ensures Now().emulated == old(Now()).emulated
      ensures s == Ok ==> SawUnlocked(Now().log)
      ensures s == Ok ==>
                exists n :: |old(Now()).log| < n <= |Now().log| && KeyTaken(Now().log[..n], KEY_STATUS_CHIPERASE)
      ensures s == ErrProtocol ==> KeyRefused(Now().log, KEY_STATUS_CHIPERASE)
      ensures Live(old(Now())) ==> s == Ok && Live(Now()) && Chip() == EraseKeyApplied(old(Chip()))
    {
      if Live(Now()) {
        EraseKeyUnlocks(Chip());
      }
      s := link.Key(KEY_64, ERASE_KEY);
      if s != Ok {
        return;
      }
      ghost var w1 := Now();
      var keyStatus;
      s, keyStatus := link.Ldcs(ASI_KEY_STATUS);
      AnsweredLast(LdcsFrame(ASI_KEY_STATUS), w1, Now(), s, if s == Ok then [keyStatus] else []);
      GrewThen(old(Now()).log, w1.log, Now().log, Unlocking);
      if s != Ok {
        return;
      }
      if !Bit(keyStatus, KEY_STATUS_CHIPERASE) {
        return ErrProtocol;
      }
      ghost var l2 := Now().log;
      s := AwaitUnlocked();
      GrewThen(old(Now()).log, l2, Now().log, Unlocking);
      assert Now().log[..|l2|] == l2;
    }

    // ---- identification ----

    /** A SIB read brought bytes that say this. */
    static ghost predicate SibWasRead(w: Wire, w': Wire, info: SibInfo) {
      exists sib: seq<byte> :: |sib| >= 11 && Ran(SibScript(16), w, w', Ok, sib) && info == ParseSib(sib)
    }

    static method ReadSibInfo(link: UpdiLink) returns (s: Status, info: SibInfo)
      requires link.Valid()
      modifies link.transport.Repr
      ensures link.Valid() && Grew(old(link.Now()).log, link.Now().log, ReadOnly)
      ensures link.Now().emulated == old(link.Now()).emulated && link.Now().ticks == old(link.Now()).ticks
      ensures s in {Ok, ErrTransport, ErrTimeout, ErrProtocol}
      ensures s == Ok ==> SibWasRead(old(link.Now()), link.Now(), info)
      ensures Live(old(link.Now())) ==>
                s == Ok && Live(link.Now()) && link.Chip() == old(link.Chip())
                && info == ParseSib(SibBytes(link.Chip().cfg.sib, 16))
    {
      info := SibInfo([], 0);
      var sib;
      s, sib := link.ReadSib(16);
      if s != Ok {
        return;
      }
      if |sib| < 11 {
        return ErrProtocol, info;
      }
      var n := 7;
      while n > 0 && sib[n - 1] in {0x20, 0}
        invariant n <= 7 && TrimmedLength(sib, n) == TrimmedLength(sib, 7)
      {
        n := n - 1;
      }
      info := SibInfo(sib[..n], if 0x30 <= sib[10] <= 0x39 then sib[10] - 0x30 else 0xFF);
      assert SibBytes(link.Chip().cfg.sib, 16)[..16] == SibBytes(link.Chip().cfg.sib, 16);
    }

    function SignatureRow(): u32
      reads this
    {
      if device.Some? then device.value.sigrowAddress else SIGROW_DEFAULT
    }

    method ReadSignature() returns (s: Status, sig: seq<byte>)
      requires Valid()
      modifies link.transport.Repr
      ensures Valid() && (s == Ok ==> |sig| == 3) && Grew(old(Now()).log, Now().log, ReadOnly)
      ensures Now().emulated == old(Now()).emulated
      ensures s in {Ok, ErrTransport, ErrNack, ErrTimeout}
      ensures Ran(ReadDataScript(link.addressBytes, SignatureRow(), 3), old(Now()), Now(), s, sig)
      ensures Live(old(Now())) ==>
                s == Ok && Live(Now()) && Chip() == old(Chip())
                && sig == ReadSeq(Chip(), SignatureRow() % AddressSpace(link.addressBytes), 3)
    {
      var addr := if device.Some? then device.value.sigrowAddress else SIGROW_DEFAULT;
      s, sig := link.ReadData(addr, 3);
    }

    // ---- NVMCTRL command primitives ----

    /** The NVMCTRL command register. */
    function CommandRegister(): u32
      requires device.Some?
      reads this
    {
      device.value.nvmctrlBase + Desc(device.value.variant).regCtrla
    }

    /** Reads, and stores of one command, or of NOCMD, to the command register. */
    function CommandScope(command: byte): Scope
      requires device.Some?
      reads this, link
    {
      Commanding(link.addressBytes, CommandRegister(), {command})
    }

    /** The commands that write a page, and one block of words stored at an address. */
    function StoreScope(address: u32, length: nat): Scope
      requires device.Some?
      reads this, link
    {
      Storing(link.addressBytes, CommandRegister(), PageCodes(device.value.variant), address, length)
    }

    method ExecuteNvmCommand(command: byte) returns (s: Status)
      requires Valid() && device.Some?
      modifies link.transport.Repr
      ensures Valid() && Grew(old(Now()).log, Now().log, CommandScope(command))
      ensures Commanded(link.addressBytes, device.value.nvmctrlBase, device.value.variant, command,
                        old(Now()), Now(), s)
      ensures old(Paired()) ==>
                s == Ok && Paired()
                && var d := device.value;
                   Chip() == MemWrite(old(Chip()), d.nvmctrlBase + Desc(d.variant).regCtrla, command)
    {
      var d := Desc(device.value.variant);
      if Paired() {
        CommandAddress(device.value);
        MemWriteKeeps(Chip(), device.value.nvmctrlBase + d.regCtrla, command);
      }
      s := link.StByte(device.value.nvmctrlBase + d.regCtrla, command);
    }

    method LdStatus() returns (s: Status, status: byte)
      requires Valid() && device.Some?
      modifies link.transport.Repr
      ensures Valid() && Grew(old(Now()).log, Now().log, Reading)
      ensures Ran([Tx(StatusFrame(link.addressBytes, device.value.nvmctrlBase, device.value.variant)), Step.Read(1)],
                  old(Now()), Now(), s, if s == Ok then [status] else [])
      ensures old(Paired()) ==> s == Ok && status == 0 && Paired() && Chip() == old(Chip())
    {
      if Paired() {
        StatusReadsReady(Chip(), device.value);
      }
      var d := Desc(device.value.variant);
      s, status := link.LdByte(device.value.nvmctrlBase + d.regStatus);
    }

    /** One NVMCTRL status read of a poll loop. */
    method ReadStatus(ghost w0: Wire, ghost start: u32, ghost n: nat) returns (s: Status, status: byte)
      requires Valid() && device.Some? && n < MAX_POLLS && Grew(w0.log, Now().log, Reading)
      requires Waiting(StatusFrame(link.addressBytes, device.value.nvmctrlBase, device.value.variant),
                       StatusPatience(device.value.variant), w0, Now(), start, n)
      modifies link.transport.Repr
      ensures Valid() && s in {Ok, ErrTimeout, ErrTransport} && Grew(w0.log, Now().log, Reading)
      ensures Polled(StatusFrame(link.addressBytes, device.value.nvmctrlBase, device.value.variant),
                     StatusPatience(device.value.variant), w0, Now())
      ensures LastAnswer(w0, Now()) == if s == Ok then Value(status) else Silent
      ensures |Answers(Since(w0, Now()))| == n + 1 && Now().ticks == old(Now()).ticks
      ensures Keeps(StatusPatience(device.value.variant), LastAnswer(w0, Now())) ==>
                Waiting(StatusFrame(link.addressBytes, device.value.nvmctrlBase, device.value.variant),
                        StatusPatience(device.value.variant), w0, Now(), start, n + 1)
      ensures old(Paired()) ==> s == Ok && status == 0 && Paired() && Chip() == old(Chip())
    {
      ghost var w1 := Now();
      ghost var v := device.value.variant;
      s, status := LdStatus();
      PollOnce(StatusFrame(link.addressBytes, device.value.nvmctrlBase, v), StatusPatience(v),
               w0, w1, Now(), s, if s == Ok then [status] else [], start, n);
      GrewThen(w0.log, w1.log, Now().log, Reading);
    }

    /**
     Polls NVMCTRL.STATUS. Ok exactly when the last answer shows neither error nor busy, ErrNvm
     exactly when it shows an error; a timeout is a missing answer, whenever it is missing, or a busy
     answer after the time limit or the iteration cap.
     */
    method WaitNvmReady(timeoutMs: u32) returns (s: Status)
      requires Valid() && device.Some?
      modifies link.transport.Repr
      ensures Valid() && s in {Ok, ErrNvm, ErrTimeout, ErrTransport} && Grew(old(Now()).log, Now().log, Reading)
      ensures Polled(StatusFrame(link.addressBytes, device.value.nvmctrlBase, device.value.variant),
                     StatusPatience(device.value.variant), old(Now()), Now())
      ensures var last := LastAnswer(old(Now()), Now());
              && (s == Ok <==> IsReady(device.value.variant, last))
              && (s == ErrNvm <==> last.Value? && And(last.value, Desc(device.value.variant).statusWrerrMask) != 0)
              && (s == ErrTransport ==> last.Silent?)
              && (s == ErrTimeout && last.Value? ==> Expired(timeoutMs, old(Now()), Now()))
              && (last.Silent? && timeoutMs > 0 && |Answers(Since(old(Now()), Now()))| < MAX_POLLS ==>
                    !Expired(timeoutMs, old(Now()), Now()))
      ensures s == Ok ==>
                ReadyAfter(link.addressBytes, device.value.nvmctrlBase, device.value.variant, timeoutMs,
                           old(Now()), Now())
      ensures old(Paired()) ==> s == Ok && Paired() && Chip() == old(Chip())
    {
      ghost var w0 := Now();
      ghost var frame := StatusFrame(link.addressBytes, device.value.nvmctrlBase, device.value.variant);
      ghost var patience := StatusPatience(device.value.variant);
      var d := Desc(device.value.variant);
      var start := link.Millis();
      var iters := 0;
      while true
        invariant Valid() && iters < MAX_POLLS && Grew(w0.log, Now().log, Reading)
        invariant Waiting(frame, patience, w0, Now(), start, iters)
        invariant InTime(timeoutMs, w0, Now(), iters + 1)
        invariant old(Paired()) ==> iters == 0 && Paired() && Chip() == old(Chip())
        decreases MAX_POLLS - iters
      {
        var status;
        s, status := ReadStatus(w0, start, iters);
        if s != Ok {
          return;
        }
        if And(status, d.statusWrerrMask) != 0 {
          return ErrNvm;
        }
        if And(status, d.statusBusyMask) == 0 {
          return Ok;
        }
        ghost var w2 := Now();
        var now := link.Millis();
        InTimeTick(frame, patience, timeoutMs, w0, w2, start, now, iters + 1);
        if (now - start) % U32 >= timeoutMs {
          return ErrTimeout;
        }
        iters := iters + 1;
        if iters >= MAX_POLLS {
          return ErrTimeout;
        }
      }
    }

    // ---- NVM operations ----

    /** The command store and, once it is acknowledged, the wait. */
    method CommandAndWait(command: byte, timeoutMs: u32) returns (s: Status, executed: bool, ghost w1: Wire)
      requires Valid() && device.Some?
      modifies link.transport.Repr
      ensures Valid() && Grew(old(Now()).log, Now().log, CommandScope(command)) && (s == Ok ==> executed)
      ensures s == Ok ==>
                var d := device.value;
                Commanded(link.addressBytes, d.nvmctrlBase, d.variant, command, old(Now()), w1, Ok)
                && ReadyAfter(link.addressBytes, d.nvmctrlBase, d.variant, timeoutMs, w1, Now())
      ensures old(Paired()) ==>
                s == Ok && Paired()
                && var d := device.value;
                   Chip() == MemWrite(old(Chip()), d.nvmctrlBase + Desc(d.variant).regCtrla, command)
    {
      ghost var w0 := Now();
      executed, w1 := false, w0;
      s := ExecuteNvmCommand(command);
      if s != Ok {
        return;
      }
      executed, w1 := true, Now();
      s := WaitNvmReady(timeoutMs);
      GrewThen(w0.log, w1.log, Now().log, CommandScope(command));
    }

    /**
     Executes a command, waits for it, and on P:3 clears the command register whatever the wait
     returned, ignoring the result of that store (returned for the proofs as `cleared`).
     */
    method Commit(command: byte, timeoutMs: u32)
      returns (s: Status, ghost w1: Wire, ghost mid: Wire, ghost cleared: Status)
      requires Valid() && device.Some?
      modifies link.transport.Repr
      ensures Valid() && Grew(old(Now()).log, Now().log, CommandScope(command))
      ensures s == Ok ==>
                Committed(device.value.variant, link.addressBytes, device.value.nvmctrlBase, command, timeoutMs,
                          old(Now()), w1, mid, Now(), cleared)
      ensures old(Paired()) ==>
                s == Ok && Paired() && Chip() == AfterCommand(old(Chip()), device.value, command)
    {
      ghost var l0 := Now().log;
      var executed;
      cleared := Ok;
      s, executed, w1 := CommandAndWait(command, timeoutMs);
      mid := Now();
      if executed && Desc(device.value.variant).clearCmdAfter {
        var ignored := ExecuteNvmCommand(Desc(device.value.variant).cmdNocmd);
        GrewThen(l0, mid.log, Now().log, CommandScope(command));
        cleared := ignored;
      }
    }

    /** What a successful run of an NVM operation means in terms of the Python class of its variant. */
    ghost predicate RanAs(acts: seq<Pymcuprog.Act>, w0: Wire, s: Status)
      requires device.Some?
      reads this, link, link.transport
    {
      s == Ok ==> Matches(device.value.variant, link.addressBytes, acts, w0, Now())
    }

    method ChipErase() returns (s: Status)
      requires Valid() && device.Some?
      modifies link.transport.Repr
      ensures Valid() && Grew(old(Now()).log, Now().log, CommandScope(Desc(device.value.variant).cmdChipErase))
      ensures s == Ok ==>
                ErasedAs(device.value.variant, link.addressBytes, device.value.nvmctrlBase, old(Now()), Now())
      ensures old(Paired()) ==>
                s == Ok && Paired() && Chip().flash == Erased() && SameButFlash(old(Chip()), Chip())
    {
      ghost var w0 := Now();
      ghost var ab, d := link.addressBytes, device.value;
      s := WaitNvmReady(100);
      if s != Ok {
        return;
      }
      ghost var w1 := Now();
      ghost var w2, mid, cleared;
      s, w2, mid, cleared := Commit(Desc(device.value.variant).cmdChipErase, 500);
      GrewThen(w0.log, w1.log, Now().log, CommandScope(Desc(d.variant).cmdChipErase));
      if s == Ok {
        ChipEraseRan(d.variant, ab, d.nvmctrlBase, w0, w1, w2, mid, Now(), cleared);
      }
      if old(Paired()) {
        EraseCommitted(w1.target.chip, Chip(), d);
      }
    }

    /** The dummy store that selects a page. */
    method SelectPage(address: u32) returns (s: Status)
      requires Valid() && device.Some?
      modifies link.transport.Repr
      ensures Valid() && Grew(old(Now()).log, Now().log, Commanding(link.addressBytes, address, {0xFF}))
      ensures s == Ok ==> Ran(Pymcuprog.WriteData(link.addressBytes, address, [0xFF]), old(Now()), Now(), Ok, [])
      ensures old(Paired()) && InFlashRange(device.value, address, 1) ==>
                s == Ok && Paired() && SameButFlash(old(Chip()), Chip())
                && Chip().flash == Overlay(old(Chip()).flash, address - device.value.flashAddress, [0xFF])
    {
      if Paired() && InFlashRange(device.value, address, 1) {
        InFlashAddress(device.value, address, 1);
      }
      s := link.WriteData(address, [0xFF]);
      Pymcuprog.SameWriteData(link.addressBytes, address, [0xFF]);
      if old(Paired()) && InFlashRange(device.value, address, 1) {
        PageStored(old(Chip()), Chip(), device.value, address, [0xFF]);
      }
    }

    /** Selects a page by a dummy store, then erases it. */
    method EraseFlashPage(address: u32) returns (s: Status)
      requires Valid() && device.Some?
      modifies link.transport.Repr
      ensures Valid()
      ensures RanAs(PyEraseFlashPage(device.value.variant, link.addressBytes, device.value.nvmctrlBase, address),
                    old(Now()), s)
      ensures Grew(old(Now()).log, Now().log, Fusing(link.addressBytes, {CommandRegister(), address}))
      ensures old(Paired()) && InFlashRange(device.value, address, 1) ==>
                s == Ok && Paired() && SameButFlash(old(Chip()), Chip())
                && Chip().flash == Overlay(old(Chip()).flash, address - device.value.flashAddress, [0xFF])
    {
      ghost var w0 := Now();
      ghost var ab, d := link.addressBytes, device.value;
      ghost var registers := {CommandRegister(), address};
      s := WaitNvmReady(100);
      GrewAmong(w0.log, w0.log, Now().log, ab, address, {}, registers);
      if s != Ok {
        return;
      }
      ghost var w1 := Now();
      s := SelectPage(address);
      GrewAmong(w0.log, w1.log, Now().log, ab, address, {0xFF}, registers);
      if s != Ok {
        return;
      }
      ghost var w2 := Now();
      ghost var w3, mid, cleared;
      s, w3, mid, cleared := Commit(Desc(device.value.variant).cmdErasePage, 100);
      assert device == old(device) && link.addressBytes == old(link.addressBytes);
      GrewAmong(w0.log, w2.log, Now().log, ab, CommandRegister(), {Desc(d.variant).cmdErasePage}, registers);
      if s == Ok {
        EraseFlashPagePort(d.variant, ab, d.nvmctrlBase, address, Pymcuprog.WriteData(ab, address, [0xFF]),
                           w0, w1, w2, w3, mid, Now(), cleared);
      }
      if old(Paired()) && InFlashRange(d, address, 1) {
        PageCommitted(w2.target.chip, Chip(), d, Desc(d.variant).cmdErasePage);
      }
    }

    /** A read of any length, chunked to the link's limit. */
    method Read(address: u32, size: nat) returns (s: Status, buf: seq<byte>)
      requires Valid()
      modifies link.transport.Repr
      ensures Valid() && s != ErrVerify && (s == Ok ==> |buf| == size) && Grew(old(Now()).log, Now().log, ReadOnly)
      ensures Ran(ReadScript(link.addressBytes, address, size), old(Now()), Now(), s, buf)
      ensures Live(old(Now())) && address + size <= AddressSpace(link.addressBytes) ==>
                s == Ok && Live(Now()) && Chip() == old(Chip()) && buf == ReadSeq(Chip(), address, size)
    {
      ghost var w0 := Now();
      ghost var ab := link.addressBytes;
      ghost var script := ReadScript(ab, address, size);
      buf := [];
      var at: u32, left: nat := address, size;
      RemainsAll(script, w0);
      while left > 0
        invariant Valid() && |buf| + left == size && Grew(w0.log, Now().log, ReadOnly)
        invariant Remains(ReadScript(ab, at, left), Now(), buf, script, w0)
      {
        var chunk := if left > MAX_REPEAT then MAX_REPEAT else left;
        ghost var w1 := Now();
        var piece;
        s, piece := link.ReadData(at, chunk);
        GrewThen(w0.log, w1.log, Now().log, ReadOnly);
        ReadStep(ab, at, left, chunk);
        Advance(ReadDataScript(ab, at, chunk), ReadScript(ab, AddressAt(at, chunk), left - chunk),
                w1, Now(), s, piece, buf, script, w0);
        buf := buf + piece;
        if s != Ok {
          break;
        }
        at, left := AddressAt(at, chunk), left - chunk;
      }
      if left == 0 {
        s := Ok;
        RemainsNothing(Now(), buf, script, w0);
      }
      if Live(w0) && address + size <= AddressSpace(ab) {
        RanFollows(script, w0, Now(), s, buf);
        PerformRead(ab, address, size, w0.target);
      }
    }

    // ---- flash pages ----

    /** A command and a wait as long as Python's. */
    method CommandInTime(command: byte) returns (s: Status)
      requires Valid() && device.Some?
      modifies link.transport.Repr
      ensures Valid() && Grew(old(Now()).log, Now().log, CommandScope(command))
      ensures s == Ok ==>
                Plays(link.addressBytes,
                      [PyCommand(device.value.variant, link.addressBytes, device.value.nvmctrlBase, command),
                       PyWait(device.value.variant, device.value.nvmctrlBase)], old(Now()), Now())
      ensures old(Paired()) ==>
                s == Ok && Paired()
                && var d := device.value;
                   Chip() == MemWrite(old(Chip()), d.nvmctrlBase + Desc(d.variant).regCtrla, command)
    {
      var executed;
      ghost var w1;
      s, executed, w1 := CommandAndWait(command, 100);
      if s == Ok {
        CommandPlays(link.addressBytes, device.value.nvmctrlBase, device.value.variant, command, old(Now()), w1, Now());
      }
    }

    /** Waits, clears a page buffer, and waits again. */
    method ClearBuffer(command: byte) returns (s: Status, ghost w1: Wire)
      requires Valid() && device.Some?
      modifies link.transport.Repr
      ensures Valid() && Grew(old(Now()).log, Now().log, CommandScope(command))
      ensures s == Ok ==>
                && ReadyAfter(link.addressBytes, device.value.nvmctrlBase, device.value.variant, 100, old(Now()), w1)
                && Plays(link.addressBytes,
                         [PyCommand(device.value.variant, link.addressBytes, device.value.nvmctrlBase, command),
                          PyWait(device.value.variant, device.value.nvmctrlBase)], w1, Now())
      ensures old(Paired())
              && command in {Desc(device.value.variant).cmdPageBufferClear, Desc(P3).cmdEepromBufferClear} ==>
                s == Ok && Paired() && Chip() == old(Chip()).(io := old(Chip()).io[0 := command])
    {
      s := WaitNvmReady(100);
      w1 := Now();
      if s != Ok {
        return;
      }
      if old(Paired()) && command in {Desc(device.value.variant).cmdPageBufferClear, Desc(P3).cmdEepromBufferClear} {
        PlainCommand(Chip(), device.value, command);
      }
      s := CommandInTime(command);
      GrewThen(old(Now()).log, w1.log, Now().log, CommandScope(command));
    }

    method FillPage(address: u32, data: seq<byte>) returns (s: Status)
      requires Valid() && device.Some?
      modifies link`ackEnabled, link.transport.Repr
      ensures Valid() && Grew(old(Now()).log, Now().log, StoreScope(address, |data|))
      ensures s == Ok ==> WordsOk(|data|)
      ensures s == Ok ==> Ran(WordsScript(link.addressBytes, address, data), old(Now()), Now(), Ok, [])
      ensures old(Paired()) && WordsOk(|data|) && InFlashRange(device.value, address, |data|) ==>
                s == Ok && Paired() && SameButFlash(old(Chip()), Chip())
                && Chip().flash == Overlay(old(Chip()).flash, address - device.value.flashAddress, data)
    {
      s := link.WriteDataWords(address, data);
      if s != ErrParam {
        WordsWithin(link.addressBytes, CommandRegister(), PageCodes(device.value.variant), address, data);
        RanWithin(WordsScript(link.addressBytes, address, data), old(Now()), Now(), s, [],
                  StoreScope(address, |data|));
      }
      if old(Paired()) && WordsOk(|data|) && InFlashRange(device.value, address, |data|) {
        PageStored(old(Chip()), Chip(), device.value, address, data);
      }
    }

    /** The page buffer cleared, and loaded word by word at the flash address. */
    method LoadPage(address: u32, data: seq<byte>) returns (s: Status, ghost w1: Wire, ghost w2: Wire)
      requires Valid() && device.Some?
      modifies link`ackEnabled, link.transport.Repr
      ensures Valid() && Grew(old(Now()).log, Now().log, StoreScope(address, |data|))
      ensures s == Ok ==>
                && WordsOk(|data|)
                && ReadyAfter(link.addressBytes, device.value.nvmctrlBase, device.value.variant, 100, old(Now()), w1)
                && Plays(link.addressBytes,
                         [PyCommand(device.value.variant, link.addressBytes, device.value.nvmctrlBase,
                                    Desc(device.value.variant).cmdPageBufferClear),
                          PyWait(device.value.variant, device.value.nvmctrlBase)], w1, w2)
                && Ran(WordsScript(link.addressBytes, address, data), w2, Now(), Ok, [])
      ensures old(Paired()) && WordsOk(|data|) && InFlashRange(device.value, address, |data|) ==>
                s == Ok && Paired() && SameButFlash(old(Chip()), Chip())
                && Chip().flash == Overlay(old(Chip()).flash, address - device.value.flashAddress, data)
    {
      s, w1 := ClearBuffer(Desc(device.value.variant).cmdPageBufferClear);
      w2 := Now();
      GrewWiden(old(Now()).log, w2.log, link.addressBytes, CommandRegister(),
                Desc(device.value.variant).cmdPageBufferClear, PageCodes(device.value.variant), address, |data|);
      if s != Ok {
        return;
      }
      s := FillPage(address, data);
      GrewThen(old(Now()).log, w2.log, Now().log, StoreScope(address, |data|));
    }

    /** Loads the page buffer, then commits the page, which must be erased already. */
    method WriteFlashPage(address: u32, data: seq<byte>) returns (s: Status)
      requires Valid() && device.Some?
      modifies link`ackEnabled, link.transport.Repr
      ensures Valid() && Grew(old(Now()).log, Now().log, StoreScope(address, |data|))
      ensures s == Ok ==> WordsOk(|data|) && |data| <= device.value.flashPageSize
      ensures s == Ok ==>
                RanAs(PyWriteFlash(device.value.variant, link.addressBytes, device.value.nvmctrlBase, address, data),
                      old(Now()), s)
      ensures old(Paired()) && WordsOk(|data|) && |data| <= device.value.flashPageSize
              && InFlashRange(device.value, address, |data|) ==>
                s == Ok && Paired() && SameButFlash(old(Chip()), Chip())
                && Chip().flash == Overlay(old(Chip()).flash, address - device.value.flashAddress, data)
    {
      ghost var w0 := Now();
      ghost var ab, d := link.addressBytes, device.value;
      if |data| == 0 || |data| % 2 == 1 {
        return ErrParam;
      }
      if |data| > device.value.flashPageSize {
        return ErrParam;
      }
      ghost var w1, w2, w4, mid, cleared;
      s, w1, w2 := LoadPage(address, data);
      if s != Ok {
        return;
      }
      ghost var w3 := Now();
      s, w4, mid, cleared := Commit(Desc(device.value.variant).cmdWritePage, 100);
      assert device == old(device) && link.addressBytes == old(link.addressBytes);
      GrewWiden(w3.log, Now().log, ab, CommandRegister(), Desc(d.variant).cmdWritePage, PageCodes(d.variant),
                address, |data|);
      GrewThen(w0.log, w3.log, Now().log, StoreScope(address, |data|));
      if s == Ok {
        Pymcuprog.SameWriteDataWords(ab, address, data);
        WriteFlashPort(d.variant, ab, d.nvmctrlBase, address, data, WordsScript(ab, address, data),
                       w0, w1, w2, w3, w4, mid, Now(), cleared);
      }
      if old(Paired()) && InFlashRange(d, address, |data|) {
        PageCommitted(w3.target.chip, Chip(), d, Desc(d.variant).cmdWritePage);
      }
    }

    // ---- fuses ----

    method ReadFuse(index: byte) returns (s: Status, value: byte)
      requires Valid() && device.Some?
      modifies link.transport.Repr
      ensures Valid() && Grew(old(Now()).log, Now().log, ReadOnly)
      ensures index >= device.value.fusesSize ==> s == ErrParam && Now() == old(Now())
      ensures index < device.value.fusesSize ==>
                Ran(LdByteScript(link.addressBytes, device.value.fusesAddress + index), old(Now()), Now(), s,
                    if s == Ok then [value] else [])
      ensures old(Paired()) && index < device.value.fusesSize ==>
                s == Ok && Paired() && Chip() == old(Chip())
                && value == Fuse(Chip(), device.value, index)
    {
      if index >= device.value.fusesSize {
        return ErrParam, 0;
      }
      if Paired() {
        FuseRead(Chip(), device.value, index);
      }
      s, value := link.LdByte(device.value.fusesAddress + index);
    }

    /** Reads, and stores to the registers that writing a fuse goes through, or to the fuse itself. */
    function FuseScope(addr: u32): Scope
      requires device.Some?
      reads this, link
    {
      var base, d := device.value.nvmctrlBase, Desc(device.value.variant);
      Fusing(link.addressBytes,
             {CommandRegister(), addr, base + d.regAddr, base + d.regAddr + 1, base + d.regData})
    }

    /** Between the transcripts nothing else was sent. Sealed. */
    ghost predicate FuseGrown(a: seq<Event>, b: seq<Event>, addr: u32)
      requires device.Some?
      reads this, link
    {
      forall k: int {:trigger Unsealed(FuseGrownSeal, k)} :: Unsealed(FuseGrownSeal, k) ==> Grew(a, b, FuseScope(addr))
    }

    lemma FuseGrew(a: seq<Event>, b: seq<Event>, c: seq<Event>, register: u32, code: byte, addr: u32)
      requires device.Some? && register in FuseScope(addr).registers && FuseGrown(a, b, addr)
      requires Grew(b, c, Reading) || Grew(b, c, Commanding(link.addressBytes, register, {code}))
      ensures FuseGrown(a, c, addr)
    {
      assert Unsealed(FuseGrownSeal, 0);
      GrewAmong(a, b, c, link.addressBytes, register, {code}, FuseScope(addr).registers);
    }

    lemma FuseGrewThen(a: seq<Event>, b: seq<Event>, c: seq<Event>, addr: u32)
      requires device.Some? && FuseGrown(a, b, addr) && FuseGrown(b, c, addr)
      ensures FuseGrown(a, c, addr)
    {
      assert Unsealed(FuseGrownSeal, 0);
      GrewThen(a, b, c, FuseScope(addr));
    }

    lemma FuseGrewNothing(a: seq<Event>, addr: u32)
      requires device.Some?
      ensures FuseGrown(a, a, addr)
    {}

    /** Stores one byte at an address outside flash and outside the command register. */
    method StPlain(address: u32, value: byte) returns (s: Status)
      requires Valid() && device.Some?
      modifies link.transport.Repr
      ensures Valid() && Grew(old(Now()).log, Now().log, Commanding(link.addressBytes, address, {value}))
      ensures s == Ok ==> Ran(StByteScript(link.addressBytes, address, value), old(Now()), Now(), Ok, [])
      ensures old(Paired()) && InIo(address) && address != device.value.nvmctrlBase ==>
                s == Ok && Paired() && Chip() == SetIo(old(Chip()), address, value)
    {
      if Paired() && InIo(address) && address != device.value.nvmctrlBase {
        PlainStore(Chip(), device.value, address, value);
      }
      s := link.StByte(address, value);
    }

    /** The fuse byte written to its page buffer through the block write. */
    method FillFuse(addr: u32, value: byte) returns (s: Status)
      requires Valid() && device.Some?
      modifies link.transport.Repr
      ensures Valid() && Grew(old(Now()).log, Now().log, Commanding(link.addressBytes, addr, {value}))
      ensures s == Ok ==> Ran(Pymcuprog.WriteData(link.addressBytes, addr, [value]), old(Now()), Now(), Ok, [])
      ensures old(Paired()) && InIo(addr) && addr != device.value.nvmctrlBase ==>
                s == Ok && Paired() && Chip() == SetIo(old(Chip()), addr, value)
    {
      if Paired() && InIo(addr) && addr != device.value.nvmctrlBase {
        PlainStore(Chip(), device.value, addr, value);
      }
      s := link.WriteData(addr, [value]);
      Pymcuprog.SameWriteData(link.addressBytes, addr, [value]);
    }

    /** A successful run matches the Python write_fuse of the device's variant. Sealed. */
    ghost predicate FuseRanAs(addr: u32, value: byte, w0: Wire, w: Wire, s: Status)
      requires device.Some?
      reads this, link
    {
      forall k: int {:trigger Unsealed(FuseRanAsSeal, k)} :: Unsealed(FuseRanAsSeal, k) && s == Ok ==>
        Matches(device.value.variant, link.addressBytes,
                PyWriteFuse(device.value.variant, link.addressBytes, device.value.nvmctrlBase, addr, value), w0, w)
    }

    /** The P:3 path: a fuse is an EEPROM byte, erased and written through the page buffer. */
    method WriteFuseEeprom(addr: u32, value: byte) returns (s: Status)
      requires Valid() && device.Some? && device.value.variant == P3
      modifies link.transport.Repr
      ensures Valid() && FuseGrown(old(Now()).log, Now().log, addr)
      ensures FuseRanAs(addr, value, old(Now()), Now(), s)
      ensures old(Paired()) && IO_BASE + 16 <= addr < IO_BASE + IO_SIZE ==>
                s == Ok && Paired() && IoStored(old(Chip()), Chip(), addr, value)
    {
      ghost var w0 := Now();
      ghost var ab, d := link.addressBytes, device.value;
      ghost var w1;
      FuseGrewNothing(w0.log, addr);
      s, w1 := ClearBuffer(Desc(P3).cmdEepromBufferClear);
      FuseGrew(w0.log, w0.log, Now().log, CommandRegister(), Desc(P3).cmdEepromBufferClear, addr);
      if s != Ok {
        return;
      }
      ghost var w2 := Now();
      s := FillFuse(addr, value);
      FuseGrew(w0.log, w2.log, Now().log, addr, value, addr);
      if s != Ok {
        return;
      }
      ghost var w3 := Now();
      ghost var w4, mid, cleared;
      s, w4, mid, cleared := Commit(Desc(P3).cmdEepromEraseWrite, 100);
      FuseGrew(w0.log, w3.log, Now().log, CommandRegister(), Desc(P3).cmdEepromEraseWrite, addr);
      if s == Ok {
        WriteFuseP3Port(ab, d.nvmctrlBase, addr, value, Pymcuprog.WriteData(ab, addr, [value]),
                        w0, w1, w2, w3, w4, mid, Now(), cleared);
      }
      if old(Paired()) && IO_BASE + 16 <= addr < IO_BASE + IO_SIZE {
        EepromFuseStored(old(Chip()), w3.target.chip, Chip(), d, addr, value);
      }
    }

    /** The address and the value into NVMCTRL ADDR (low, high) and DATA. */
    method LoadFuseRegisters(addr: u32, value: byte) returns (s: Status)
      requires Valid() && device.Some? && device.value.variant == P0
      modifies link.transport.Repr
      ensures Valid() && FuseGrown(old(Now()).log, Now().log, addr)
      ensures s == Ok ==>
                Plays(link.addressBytes, FuseLoads(link.addressBytes, device.value.nvmctrlBase, addr, value),
                      old(Now()), Now())
      ensures old(Paired()) ==>
                s == Ok && Paired()
                && Chip() == SetIo(SetIo(SetIo(old(Chip()), IO_BASE + 8, addr % 256), IO_BASE + 9, addr / 256 % 256),
                                   IO_BASE + 6, value)
    {
      ghost var w1 := Now();
      var base, v := device.value.nvmctrlBase, Desc(P0);
      FuseGrewNothing(w1.log, addr);
      s := StPlain(base + v.regAddr, addr % 256);
      FuseGrew(w1.log, w1.log, Now().log, base + v.regAddr, addr % 256, addr);
      if s != Ok {
        return;
      }
      ghost var w2 := Now();
      s := StPlain(base + v.regAddr + 1, addr / 256 % 256);
      FuseGrew(w1.log, w2.log, Now().log, base + v.regAddr + 1, addr / 256 % 256, addr);
      if s != Ok {
        return;
      }
      ghost var w3 := Now();
      s := StPlain(base + v.regData, value);
      FuseGrew(w1.log, w3.log, Now().log, base + v.regData, value, addr);
      if s == Ok {
        FuseRegistersPlay(link.addressBytes, base, addr, value, w1, w2, w3, Now());
      }
    }

    /** Waits, then loads the registers. */
    method PrepareFuse(addr: u32, value: byte) returns (s: Status, ghost w1: Wire)
      requires Valid() && device.Some? && device.value.variant == P0
      modifies link.transport.Repr
      ensures Valid() && FuseGrown(old(Now()).log, Now().log, addr)
      ensures s == Ok ==>
                && ReadyAfter(link.addressBytes, device.value.nvmctrlBase, P0, 100, old(Now()), w1)
                && Plays(link.addressBytes, FuseLoads(link.addressBytes, device.value.nvmctrlBase, addr, value),
                         w1, Now())
      ensures old(Paired()) ==>
                s == Ok && Paired()
                && Chip() == SetIo(SetIo(SetIo(old(Chip()), IO_BASE + 8, addr % 256), IO_BASE + 9, addr / 256 % 256),
                                   IO_BASE + 6, value)
    {
      ghost var w0 := Now();
      FuseGrewNothing(w0.log, addr);
      s := WaitNvmReady(100);
      w1 := Now();
      FuseGrew(w0.log, w0.log, w1.log, CommandRegister(), 0, addr);
      if s != Ok {
        return;
      }
      s := LoadFuseRegisters(addr, value);
      FuseGrewThen(w0.log, w1.log, Now().log, addr);
    }

    /** The P:0 path: NVMCTRL ADDR and DATA loaded, then WRITE_FUSE. */
    method WriteFuseRegisters(addr: u32, value: byte) returns (s: Status)
      requires Valid() && device.Some? && device.value.variant == P0
      modifies link.transport.Repr
      ensures Valid() && FuseGrown(old(Now()).log, Now().log, addr)
      ensures FuseRanAs(addr, value, old(Now()), Now(), s)
      ensures old(Paired()) && IO_BASE + 16 <= addr < IO_BASE + IO_SIZE ==>
                s == Ok && Paired() && IoStored(old(Chip()), Chip(), addr, value)
    {
      ghost var w0, ab, d := Now(), link.addressBytes, device.value;
      ghost var w1;
      s, w1 := PrepareFuse(addr, value);
      if s != Ok {
        return;
      }
      ghost var w4 := Now();
      ghost var w5, mid, cleared;
      s, w5, mid, cleared := Commit(Desc(P0).cmdWriteFuse, 100);
      FuseGrew(w0.log, w4.log, Now().log, CommandRegister(), Desc(P0).cmdWriteFuse, addr);
      if s == Ok {
        WriteFuseP0Port(ab, d.nvmctrlBase, addr, value, w0, w1, w4, w5, Now());
      }
      if old(Paired()) && IO_BASE + 16 <= addr < IO_BASE + IO_SIZE {
        RegisterFuseStored(w0.target.chip, w4.target.chip, Chip(), d, addr, value);
      }
    }

    /** By the path of the variant. */
    method WriteFuseAt(addr: u32, value: byte) returns (s: Status)
      requires Valid() && device.Some?
      modifies link.transport.Repr
      ensures Valid() && FuseGrown(old(Now()).log, Now().log, addr)
      ensures FuseRanAs(addr, value, old(Now()), Now(), s)
      ensures old(Paired()) && IO_BASE + 16 <= addr < IO_BASE + IO_SIZE ==>
                s == Ok && Paired() && IoStored(old(Chip()), Chip(), addr, value)
    {
      if Desc(device.value.variant).fuseViaEeprom {
        s := WriteFuseEeprom(addr, value);
      } else {
        s := WriteFuseRegisters(addr, value);
      }
    }

    method WriteFuse(index: byte, value: byte) returns (s: Status)
      requires Valid() && device.Some?
      modifies link.transport.Repr
      ensures Valid() && (index >= device.value.fusesSize ==> s == ErrParam && Now() == old(Now()))
      ensures s == Ok ==> index < device.value.fusesSize
      ensures index < device.value.fusesSize ==>
                FuseGrown(old(Now()).log, Now().log, device.value.fusesAddress + index)
                && FuseRanAs(device.value.fusesAddress + index, value, old(Now()), Now(), s)
      ensures old(Paired()) && index < device.value.fusesSize ==>
                s == Ok && Paired() && IoStored(old(Chip()), Chip(), device.value.fusesAddress + index, value)
    {
      s := ErrParam;
      if index < device.value.fusesSize {
        var addr: u32 := device.value.fusesAddress + index;
        if Paired() {
          FuseInIo(device.value, index);
        }
        s := WriteFuseAt(addr, value);
        assert addr == device.value.fusesAddress + index;
      }
    }
  }
}
