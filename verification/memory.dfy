/** What runs of stores and reads mean for flash and for the I/O space. */
module Memory {
  import opened Bytes
  import opened Target

  lemma StoreSeqStep(c: Chip, addr: u32, val: byte, data: seq<byte>)
    requires addr + 1 < U32
    ensures StoreSeq(c, addr, [val] + data) == StoreSeq(MemWrite(c, addr, val), addr + 1, data)
  {
    assert ([val] + data)[1..] == data;
  }

  lemma {:induction false} StoreSeqSplit(c: Chip, addr: u32, a: seq<byte>, b: seq<byte>)
    requires addr + |a| < U32
    ensures StoreSeq(c, addr, a + b) == StoreSeq(StoreSeq(c, addr, a), addr + |a|, b)
    decreases |a|
  {
    if a == [] {
      assert a + b == b;
    } else {
      StoreSeqSplit(MemWrite(c, addr, a[0]), addr + 1, a[1..], b);
      StoreSeqStep(c, addr, a[0], a[1..]);
      StoreSeqStep(c, addr, a[0], a[1..] + b);
      assert a == [a[0]] + a[1..] && a + b == [a[0]] + (a[1..] + b);
    }
  }

  lemma ReadSeqStep(c: Chip, addr: u32, n: nat)
    requires addr + 1 < U32 && n > 0
    ensures ReadSeq(c, addr, n) == [MemRead(c, addr)] + ReadSeq(c, addr + 1, n - 1)
  {}

  lemma {:induction false} ReadSeqSplit(c: Chip, addr: u32, m: nat, n: nat)
    requires addr + m < U32
    ensures ReadSeq(c, addr, m + n) == ReadSeq(c, addr, m) + ReadSeq(c, addr + m, n)
    decreases m
  {
    if m > 0 {
      var next := addr + 1;
      ReadSeqSplit(c, next, m - 1, n);
      ReadSeqStep(c, addr, m + n);
      ReadSeqStep(c, addr, m);
    }
  }

  lemma MemWriteKeeps(c: Chip, addr: u32, val: byte)
    ensures var c' := MemWrite(c, addr, val);
            c'.cfg == c.cfg && c'.cs == c.cs && c'.nvmKey == c.nvmKey && c'.eraseKey == c.eraseKey
  {}

  lemma CommandEffectCs(c: Chip, cs: CsSpace, val: byte)
    ensures CommandEffect(c.(cs := cs), val) == CommandEffect(c, val).(cs := cs)
  {}

  lemma MemWriteCs(c: Chip, cs: CsSpace, addr: u32, val: byte)
    ensures MemWrite(c.(cs := cs), addr, val) == MemWrite(c, addr, val).(cs := cs)
  {
    if !InFlash(c.cfg, addr) && addr == c.cfg.nvmctrlBase + c.cfg.ctrlaOffset {
      CommandEffectCs(c, cs, val);
    }
  }

  /** Memory stores neither read nor change the control/status space. */
  lemma {:induction false} StoreSeqCs(c: Chip, cs: CsSpace, addr: u32, data: seq<byte>)
    ensures StoreSeq(c.(cs := cs), addr, data) == StoreSeq(c, addr, data).(cs := cs)
    ensures StoreSeq(c, addr, data).cs == c.cs && StoreSeq(c, addr, data).cfg == c.cfg
    decreases |data|
  {
    if data != [] {
      MemWriteCs(c, cs, addr, data[0]);
      MemWriteKeeps(c, addr, data[0]);
      StoreSeqCs(MemWrite(c, addr, data[0]), cs, (addr + 1) % U32, data[1..]);
    }
  }

  /** The memory map puts NVMCTRL and the I/O space below flash, and flash inside 32 bits. */
  predicate MapOk(cfg: Config) {
    cfg.nvmctrlBase + 256 <= cfg.flashBase && IO_BASE + IO_SIZE <= cfg.flashBase
    && cfg.flashBase + FLASH_SIZE <= U32
  }

  lemma {:induction false} StoreFlash(c: Chip, off: nat, data: seq<byte>)
    requires MapOk(c.cfg) && off + |data| <= FLASH_SIZE && c.cfg.flashBase + off < U32
    ensures StoreSeq(c, c.cfg.flashBase + off, data) == c.(flash := Overlay(c.flash, off, data))
    decreases |data|
  {
    if data == [] {
      assert Overlay(c.flash, off, data) == c.flash;
    } else {
      var c1 := MemWrite(c, c.cfg.flashBase + off, data[0]);
      assert c1 == c.(flash := c.flash[off := data[0]]);
      if |data| == 1 {
        assert data[1..] == [];
        assert Overlay(c.flash, off, data) == c1.flash;
      } else {
        StoreFlash(c1, off + 1, data[1..]);
        assert Overlay(c1.flash, off + 1, data[1..]) == Overlay(c.flash, off, data);
      }
    }
  }

  lemma {:induction false} ReadFlash(c: Chip, off: nat, n: nat)
    requires MapOk(c.cfg) && off + n <= FLASH_SIZE && c.cfg.flashBase + off < U32
    ensures ReadSeq(c, c.cfg.flashBase + off, n) == c.flash[off..off + n]
    decreases n
  {
    if n > 1 {
      ReadFlash(c, off + 1, n - 1);
      assert c.flash[off..off + n] == [c.flash[off]] + c.flash[off + 1..off + n];
    } else if n == 1 {
      assert ReadSeq(c, (c.cfg.flashBase + off + 1) % U32, 0) == [];
    }
  }
}
