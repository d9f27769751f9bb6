/** The response queue of the emulator: a fixed ring buffer with one slot always free. */
module ResponseRing {
  import opened Bytes
  import opened Target

  /** The bytes between head and tail, oldest first, wrapping at the end of the buffer. */
  function Queued(buf: seq<byte>, head: nat, tail: nat): seq<byte>
    requires head < |buf| && tail < |buf|
  {
    if head <= tail then buf[head..tail] else buf[head..] + buf[..tail]
  }

  function Next(i: nat): nat { if i + 1 == RX_CAP then 0 else i + 1 }

  lemma QueuedPop(buf: seq<byte>, head: nat, tail: nat)
    requires |buf| == RX_CAP && head < RX_CAP && tail < RX_CAP && head != tail
    ensures Queued(buf, head, tail) == [buf[head]] + Queued(buf, Next(head), tail)
  {}

  lemma QueuedPush(buf: seq<byte>, head: nat, tail: nat, b: byte)
    requires |buf| == RX_CAP && head < RX_CAP && tail < RX_CAP
    ensures Next(tail) == head <==> |Queued(buf, head, tail)| == RX_CAP - 1
    ensures Next(tail) != head ==> Queued(buf[tail := b], head, Next(tail)) == Queued(buf, head, tail) + [b]
  {}

  class RxRing {
    const rx: array<byte>
    var head: nat
    var tail: nat

    ghost predicate Valid()
      reads this
    {
      rx.Length == RX_CAP && head < RX_CAP && tail < RX_CAP
    }

    /** The queued bytes, oldest first. */
    ghost function Contents(): (queue: seq<byte>)
      requires Valid()
      reads this, rx
      ensures |queue| < RX_CAP
    {
      Queued(rx[..], head, tail)
    }

    constructor ()
      ensures Valid() && fresh(rx) && Contents() == []
    {
      rx := new byte[RX_CAP](_ => 0);
      head, tail := 0, 0;
    }

    method PushByte(b: byte)
      requires Valid()
      modifies this, rx
      ensures Valid() && Contents() == Push(old(Contents()), b)
    {
      var next := (tail + 1) % RX_CAP;
      assert next == Next(tail);
      QueuedPush(rx[..], head, tail, b);
      if next == head {
        return; // full: the byte is dropped
      }
      rx[tail] := b;
      assert rx[..] == old(rx[..])[tail := b];
      tail := next;
    }

    method PopByte() returns (ok: bool, b: byte)
      requires Valid()
      modifies this
      ensures Valid() && ok == (old(Contents()) != [])
      ensures if ok then old(Contents()) == [b] + Contents() else Contents() == old(Contents())
    {
      if head == tail {
        return false, 0;
      }
      QueuedPop(rx[..], head, tail);
      b := rx[head];
      head := (head + 1) % RX_CAP;
      assert head == Next(old(head));
      ok := true;
    }
  }
}

/** The target emulator with its memories as arrays; FeedByte refines Target.Feed. */
module UpdiEmulator {
  import opened Bytes
  import opened Protocol
  import opened Target
  import opened ResponseRing

  /** Responses queued first, then the address register advanced: a load is done. */
  lemma LoadIncMeans(t: Target, t': Target, n: nat)
    requires t' == t.(rx := PushAll(t.rx, ReadSeq(t.chip, t.dec.ptr, n)),
                      dec := t.dec.(repeatNext := 0, ptr := AddressAt(t.dec.ptr, n), state := Idle))
    ensures t' == LdIncDone(t, n)
  {}

  /** What the last byte of an operand field leads to. */
  function OperandDone(t: Target): Target
    requires t.dec.state in {LdsAddr, StsAddr, StsData, StPtrAddr}
  {
    match t.dec.state
    case LdsAddr => LdsDone(t, t.dec.acc)
    case StsAddr => StsAddressed(t, t.dec.acc)
    case StsData => StsDone(t, t.dec.acc)
    case StPtrAddr => StPtrDone(t, t.dec.acc)
  }

  lemma OperandByte(t: Target, b: byte)
    requires t.dec.state in {LdsAddr, StsAddr, StsData, StPtrAddr}
    ensures var t1 := t.(dec := t.dec.(acc := t.dec.acc + [b]));
            Feed(t, b) == if |t1.dec.acc| < t1.dec.need then t1 else OperandDone(t1)
  {}

  class Emulator {
    const cfg: Config
    const flash: array<byte>
    const io: array<byte>
    const cs: array<byte>
    const ring: RxRing
    var nvmKey: bool
    var eraseKey: bool
    var state: State
    var acc: seq<byte>
    var need: nat
    var pendingCs: byte
    var curAddr: u32
    var dataSize: nat
    var ptr: u32
    var repeatNext: byte
    var incLeft: int
    var nowMs: u32

    ghost const Repr: set<object> := {this, flash, io, cs, ring, ring.rx}

    ghost predicate Valid()
      reads this, ring
    {
      flash.Length == FLASH_SIZE && io.Length == IO_SIZE && cs.Length == 16 && ring.Valid()
      && flash != io && flash != cs && io != cs
      && ring.rx != flash && ring.rx != io && ring.rx != cs
    }

    ghost function ChipNow(): Chip
      requires Valid()
      reads this, ring, flash, io, cs
    {
      Chip(cfg, flash[..], io[..], cs[..], nvmKey, eraseKey)
    }

    /** The state of the pure model that this object represents. */
    ghost function Abs(): Target
      requires Valid()
      reads this, flash, io, cs, ring, ring.rx
    {
      Target(ChipNow(),
             Decoder(state, acc, need, pendingCs, curAddr, dataSize, ptr, repeatNext, incLeft),
             ring.Contents())
    }

    /** Erased flash, no keys armed, the signature in its row, STATUSA alive. */
    constructor (cfg: Config, sig: seq<byte>)
      requires |sig| == 3
      ensures Valid() && fresh(Repr) && this.cfg == cfg
      ensures Quiet(Abs()) && Abs().chip.flash == Erased() && Abs().chip.io[0x100..0x103] == sig
      ensures Abs().chip.cs[CS_STATUSA] == 0x30 && forall i :: 0 < i < 16 ==> Abs().chip.cs[i] == 0
      ensures !Abs().chip.nvmKey && !Abs().chip.eraseKey
    {
      this.cfg := cfg;
      flash := new byte[FLASH_SIZE](_ => 0xFF);
      io := new byte[IO_SIZE](_ => 0);
      cs := new byte[16](_ => 0);
      ring := new RxRing();
      nvmKey, eraseKey, state, acc, need, pendingCs := false, false, Idle, [], 0, 0;
      curAddr, dataSize, ptr, repeatNext, incLeft, nowMs := 0, 0, 0, 0, 0, 0;
      new;
      cs[CS_STATUSA] := 0x30;
      io[0x100], io[0x101], io[0x102] := sig[0], sig[1], sig[2];
      assert flash[..] == Erased();
    }

    function ReadByte(addr: u32): (b: byte)
      requires Valid()
      reads this, ring, flash, io, cs
      ensures b == MemRead(ChipNow(), addr)
    {
      if addr == cfg.nvmctrlBase + cfg.statusOffset then 0
      else if InFlash(cfg, addr) then flash[addr - cfg.flashBase]
      else if InIo(addr) then io[addr - IO_BASE]
      else 0
    }

    /** What a store to the NVMCTRL command register sets off, before the store itself. */
    method ApplyCommand(val: byte)
      requires Valid()
      modifies flash, io
      ensures Valid() && ChipNow() == CommandEffect(old(ChipNow()), val)
    {
      if cfg.cmdChipErase != 0 && val == cfg.cmdChipErase {
        forall i | 0 <= i < FLASH_SIZE {
          flash[i] := 0xFF;
        }
        assert flash[..] == Erased();
      }
      if cfg.cmdWriteFuse != 0xFF && val == cfg.cmdWriteFuse {
        var fa := Word(io[cfg.fuseAddrOffset], io[cfg.fuseAddrOffset + 1]);
        var fd := io[cfg.fuseDataOffset];
        if InIo(fa) {
          io[fa - IO_BASE] := fd;
        }
      }
    }

    method WriteByte(addr: u32, val: byte)
      requires Valid()
      modifies flash, io
      ensures Valid() && ChipNow() == MemWrite(old(ChipNow()), addr, val)
    {
      if InFlash(cfg, addr) {
        flash[addr - cfg.flashBase] := val;
        return;
      }
      if addr == cfg.nvmctrlBase + cfg.ctrlaOffset {
        ApplyCommand(val);
      }
      if InIo(addr) {
        io[addr - IO_BASE] := val;
      }
    }

    method ApplyStcs(addr: byte, val: byte)
      requires Valid()
      modifies cs
      ensures Valid() && ChipNow() == StoreCs(old(ChipNow()), addr, val)
    {
      cs[addr % 16] := val;
      if addr == ASI_RESET_REQ && val == 0 {
        if nvmKey {
          cs[ASI_SYS_STATUS] := SetBit(cs[ASI_SYS_STATUS], SYS_STATUS_NVMPROG);
          cs[ASI_SYS_STATUS] := ClearBit(cs[ASI_SYS_STATUS], SYS_STATUS_LOCK);
        }
        if eraseKey {
          cs[ASI_SYS_STATUS] := ClearBit(cs[ASI_SYS_STATUS], SYS_STATUS_LOCK);
        }
      }
    }

    /** Answers with the n bytes at an address, one queued byte at a time. */
    method Respond(addr: u32, n: nat)
      requires Valid()
      modifies ring, ring.rx
      ensures Valid()
      ensures ring.Contents() == PushAll(old(ring.Contents()), ReadSeq(ChipNow(), addr, n))
    {
      var next: u32 := addr;
      ghost var all := PushAll(ring.Contents(), ReadSeq(ChipNow(), addr, n));
      for i := 0 to n
        invariant Valid() && ChipNow() == old(ChipNow())
        invariant all == PushAll(ring.Contents(), ReadSeq(old(ChipNow()), next, n - i))
      {
        ghost var rest := ReadSeq(old(ChipNow()), next, n - i);
        assert rest[0] == MemRead(ChipNow(), next) && rest[1..] == ReadSeq(old(ChipNow()), (next + 1) % U32, n - i - 1);
        ring.PushByte(ReadByte(next));
        next := (next + 1) % U32;
      }
    }

    /** The pointer load: the source advances the pointer inside the same loop. */
    method LoadInc(n: nat)
      requires Valid()
      modifies this, ring, ring.rx
      ensures Valid() && Abs() == LdIncDone(old(Abs()), n)
    {
      ghost var t, answer := Abs(), ReadSeq(ChipNow(), ptr, n);
      Respond(ptr, n);
      assert Abs() == t.(rx := PushAll(t.rx, answer));
      ptr := AddressAt(ptr, n);
      repeatNext, state := 0, Idle;
      LoadIncMeans(t, Abs(), n);
    }

    method RespondSib(n: nat)
      requires Valid()
      modifies ring, ring.rx
      ensures Valid()
      ensures ring.Contents() == PushAll(old(ring.Contents()), SibBytes(cfg.sib, n))
    {
      ghost var all := PushAll(ring.Contents(), SibBytes(cfg.sib, n));
      assert SibBytes(cfg.sib, n)[0..] == SibBytes(cfg.sib, n);
      for i := 0 to n
        invariant Valid() && ChipNow() == old(ChipNow())
        invariant all == PushAll(ring.Contents(), SibBytes(cfg.sib, n)[i..])
      {
        assert SibBytes(cfg.sib, n)[i..][1..] == SibBytes(cfg.sib, n)[i + 1..];
        ring.PushByte(if i < |cfg.sib| then cfg.sib[i] else 0);
      }
    }

    /** ST: set the pointer, or store at it. */
    method DecodeStore(op: byte, mode: nat)
      requires Valid() && op / 32 == 3 && mode == op / 4 % 4
      modifies this
      ensures Valid() && Abs() == FeedOpcode(old(Abs()), op)
    {
      if mode == 2 {
        need, acc, state := if op / 2 % 2 == 1 then 3 else 2, [], StPtrAddr;
      } else if mode == 1 {
        var total := repeatNext + 1;
        repeatNext := 0;
        if op % 4 == DATA_16 {
          incLeft, state := total * 2, StInc16;
        } else {
          incLeft, state := total, StInc8;
        }
      } else {
        state := Idle;
      }
    }

    /** LD: only *ptr++ answers. */
    method DecodeLoad(op: byte, mode: nat)
      requires Valid() && op / 32 == 1 && mode == op / 4 % 4
      modifies this, ring, ring.rx
      ensures Valid() && Abs() == FeedOpcode(old(Abs()), op)
    {
      if mode == 1 {
        var total := repeatNext + 1;
        LoadInc(if op % 4 == DATA_16 then 2 * total else total);
      } else {
        state := Idle;
      }
    }

    method DecodeOpcode(op: byte)
      requires Valid()
      modifies this, ring, ring.rx
      ensures Valid() && Abs() == FeedOpcode(old(Abs()), op)
    {
      var group := op / 32;
      var mode := op / 4 % 4;
      if group == 4 {
        ring.PushByte(cs[op % 16]);
        state := Idle;
      } else if group == 6 {
        pendingCs, state := op % 16, StcsVal;
      } else if group == 0 || group == 2 {
        dataSize, need, acc := OperandWidth(op), AddressWidth(op), [];
        state := if group == 0 then LdsAddr else StsAddr;
      } else if group == 3 {
        DecodeStore(op, mode);
      } else if group == 1 {
        DecodeLoad(op, mode);
      } else if group == 5 {
        state := RepeatVal;
      } else if op / 4 % 2 == 1 {
        RespondSib(SibLength(op % 4));
        state := Idle;
      } else {
        need, acc, state := KeyLength(op % 4), [], KeyBytes;
      }
    }

    /** One byte of an operand field; `full` says that the field is now complete. */
    method Collect(b: byte) returns (full: bool)
      modifies `acc
      ensures acc == old(acc) + [b] && full == (need <= |acc|)
    {
      acc := acc + [b];
      full := |acc| >= need;
    }

    method StoreAll(addr: u32, bytes: seq<byte>)
      requires Valid()
      modifies flash, io
      ensures Valid() && ChipNow() == StoreSeq(old(ChipNow()), addr, bytes)
    {
      ghost var stored := StoreSeq(ChipNow(), addr, bytes);
      var a: u32 := addr;
      assert bytes[0..] == bytes;
      for i := 0 to |bytes|
        invariant Valid() && stored == StoreSeq(ChipNow(), a, bytes[i..])
      {
        assert bytes[i..][1..] == bytes[i + 1..];
        WriteByte(a, bytes[i]);
        a := (a + 1) % U32;
      }
    }

    /** The address of a direct load is complete: answer it. */
    method FinishLds()
      requires Valid()
      modifies `curAddr, `state, ring, ring.rx
      ensures Valid() && Abs() == LdsDone(old(Abs()), old(acc))
    {
      ghost var t := Abs();
      curAddr := LittleEndian(acc) % U32;
      Respond(curAddr, dataSize);
      state := Idle;
      assert Abs().chip == t.chip;
    }

    /** All bytes of the operand are there. */
    method CompleteOperand()
      requires Valid() && state in {LdsAddr, StsAddr, StsData, StPtrAddr}
      modifies `curAddr, `acc, `need, `ptr, `state, flash, io, ring, ring.rx
      ensures Valid() && Abs() == OperandDone(old(Abs()))
    {
      match state
      case LdsAddr =>
        FinishLds();
      case StsAddr =>
        curAddr := LittleEndian(acc) % U32;
        ring.PushByte(ACK);
        acc, need, state := [], dataSize, StsData;
      case StsData =>
        StoreAll(curAddr, acc);
        ring.PushByte(ACK);
        state := Idle;
      case StPtrAddr =>
        ptr := LittleEndian(acc) % U32;
        ring.PushByte(ACK);
        state := Idle;
    }

    method FeedOperand(b: byte)
      requires Valid() && state in {LdsAddr, StsAddr, StsData, StPtrAddr}
      modifies this, flash, io, ring, ring.rx
      ensures Valid() && Abs() == Feed(old(Abs()), b)
    {
      OperandByte(Abs(), b);
      var full := Collect(b);
      if full {
        CompleteOperand();
      }
    }

    method FeedKeyByte(b: byte)
      requires Valid() && state == KeyBytes
      modifies this, cs
      ensures Valid() && Abs() == Feed(old(Abs()), b)
    {
      var full := Collect(b);
      if full {
        var key := Reverse(acc);
        if key == NVM_KEY {
          nvmKey := true;
          cs[ASI_KEY_STATUS] := SetBit(cs[ASI_KEY_STATUS], KEY_STATUS_NVMPROG);
        } else if key == ERASE_KEY {
          eraseKey := true;
          cs[ASI_KEY_STATUS] := SetBit(cs[ASI_KEY_STATUS], KEY_STATUS_CHIPERASE);
        }
        state := Idle;
      }
    }

    /** One byte stored at the pointer; the acknowledgement, if any, follows it. */
    method StoreInc(b: byte)
      requires Valid() && state in {StInc8, StInc16}
      modifies this, flash, io
      ensures Valid() && ring.Contents() == old(ring.Contents())
      ensures Abs().(rx := if old(state) == StInc8 then Push(Abs().rx, ACK) else Abs().rx) == Feed(old(Abs()), b)
    {
      WriteByte(ptr, b);
      ptr, incLeft := (ptr + 1) % U32, incLeft - 1;
      if incLeft <= 0 {
        state := Idle;
      }
    }

    method FeedByte(b: byte)
      requires Valid()
      modifies this, flash, io, cs, ring, ring.rx
      ensures Valid() && Abs() == Feed(old(Abs()), b)
    {
      match state
      case Idle =>
        if b == SYNC {
          state := Opcode;
        }
      case Opcode => DecodeOpcode(b);
      case StcsVal =>
        ApplyStcs(pendingCs, b);
        state := Idle;
      case RepeatVal => repeatNext, state := b, Idle;
      case LdsAddr => FeedOperand(b);
      case StsAddr => FeedOperand(b);
      case StsData => FeedOperand(b);
      case StPtrAddr => FeedOperand(b);
      case StInc8 =>
        StoreInc(b);
        ring.PushByte(ACK);
      case StInc16 => StoreInc(b);
      case KeyBytes => FeedKeyByte(b);
    }

    method SendBytes(data: seq<byte>)
      requires Valid()
      modifies this, flash, io, cs, ring, ring.rx
      ensures Valid() && Abs() == FeedAll(old(Abs()), data)
    {
      ghost var fed := FeedAll(Abs(), data);
      assert data[0..] == data;
      for i := 0 to |data|
        invariant Valid() && fed == FeedAll(Abs(), data[i..])
      {
        assert data[i..][1..] == data[i + 1..];
        FeedByte(data[i]);
      }
    }

    /** Never waits: takes what is queued, at most n bytes. */
    method RecvBytes(n: nat) returns (data: seq<byte>)
      requires Valid()
      modifies ring
      ensures Valid() && data == Taken(old(Abs()), n) && Abs() == AfterTaking(old(Abs()), n)
    {
      data := [];
      ghost var all := ring.Contents();
      var more := true;
      while more && |data| < n
        invariant Valid() && |data| <= n && data + ring.Contents() == all
        invariant !more ==> ring.Contents() == []
        invariant ChipNow() == old(ChipNow())
        decreases n - |data|, more
      {
        var ok, b := ring.PopByte();
        if ok {
          assert data + [b] + ring.Contents() == data + ([b] + ring.Contents());
          data := data + [b];
        } else {
          more := false;
        }
      }
      assert data == all[..|data|] && ring.Contents() == all[|data|..];
    }

    method DoubleBreak()
      requires Valid()
      modifies this`state
      ensures Valid() && Abs() == old(Abs()).(dec := old(Abs()).dec.(state := Idle))
    {
      state := Idle;
    }

    /** A clock that advances on every call. */
    method Millis() returns (ms: u32)
      requires Valid()
      modifies this`nowMs
      ensures Valid() && Abs() == old(Abs())
      ensures ms == (old(nowMs) + 1) % U32 && nowMs == ms
    {
      nowMs := (nowMs + 1) % U32;
      ms := nowMs;
    }
  }
}
