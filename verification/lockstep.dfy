/**
 Scripts run against the emulated target: what each link operation does to the chip, and that
 it leaves host and target in step.
 */
module Lockstep {
  import opened Bytes
  import opened Protocol
  import opened Target
  import opened Memory

  datatype Performance = Performance(target: Target, status: Status, data: seq<byte>)

  function Prepend(data: seq<byte>, p: Performance): Performance { p.(data := data + p.data) }

  /** Runs a script on the emulated target, whose sends never fail. */
  function Perform(script: Script, t: Target): Performance
    decreases |script|
  {
    if script == [] then Performance(t, Ok, [])
    else
      match script[0]
      case Tx(frame) => Perform(script[1..], FeedAll(t, frame))
      case Ack =>
        if Taken(t, 1) == [ACK] then Perform(script[1..], AfterTaking(t, 1))
        else Performance(AfterTaking(t, 1), ErrNack, [])
      case Read(n) =>
        if |Taken(t, n)| == n then Prepend(Taken(t, n), Perform(script[1..], AfterTaking(t, n)))
        else Performance(AfterTaking(t, n), ErrTimeout, [])
      case ReadSome(n) =>
        if Taken(t, n) != [] then Prepend(Taken(t, n), Perform(script[1..], AfterTaking(t, n)))
        else Performance(AfterTaking(t, n), ErrTimeout, [])
  }

  lemma {:induction false} PerformThen(s1: Script, s2: Script, t: Target)
    ensures var p := Perform(s1, t);
            Perform(s1 + s2, t) == if p.status == Ok then Prepend(p.data, Perform(s2, p.target)) else p
    decreases |s1|
  {
    if s1 == [] {
      assert s1 + s2 == s2;
    } else {
      assert (s1 + s2)[1..] == s1[1..] + s2;
      match s1[0]
      case Tx(frame) => PerformThen(s1[1..], s2, FeedAll(t, frame));
      case Ack => PerformThen(s1[1..], s2, AfterTaking(t, 1));
      case Read(n) => PerformThen(s1[1..], s2, AfterTaking(t, n));
      case ReadSome(n) => PerformThen(s1[1..], s2, AfterTaking(t, n));
    }
  }

  lemma {:induction false} FeedThen(t: Target, a: seq<byte>, b: seq<byte>)
    ensures FeedAll(t, a + b) == FeedAll(FeedAll(t, a), b)
    decreases |a|
  {
    if a == [] {
      assert a + b == b;
    } else {
      assert (a + b)[1..] == a[1..] + b;
      FeedThen(Feed(t, a[0]), a[1..], b);
    }
  }

  // ---- frames ----

  lemma FeedOne(t: Target, a: byte)
    ensures FeedAll(t, [a]) == Feed(t, a)
  {}

  lemma FeedTwo(t: Target, a: byte, b: byte)
    ensures FeedAll(t, [a, b]) == Feed(Feed(t, a), b)
  {
    assert [a, b][1..] == [b];
    FeedOne(Feed(t, a), b);
  }

  lemma FeedThree(t: Target, a: byte, b: byte, c: byte)
    ensures FeedAll(t, [a, b, c]) == Feed(Feed(Feed(t, a), b), c)
  {
    assert [a, b, c][1..] == [b, c];
    FeedTwo(Feed(t, a), b, c);
  }

  /** SYNCH and an opcode take an idle decoder to what the opcode selects. */
  lemma FeedHeader(t: Target, op: byte, operands: seq<byte>)
    requires t.dec.state == Idle
    ensures FeedAll(t, [SYNC, op] + operands)
         == FeedAll(FeedOpcode(t.(dec := t.dec.(state := Opcode)), op), operands)
  {
    FeedThen(t, [SYNC, op], operands);
    FeedTwo(t, SYNC, op);
  }

  lemma LowBytes(a: u32)
    ensures a % 256 + 256 * (a / 256 % 256) == a % 0x1_0000
    ensures a % 0x1_0000 + 65536 * (a / 65536 % 256) == a % 0x100_0000
  {
    assert a / 256 / 256 == a / 65536;
  }

  lemma LittleEndianOf(b: byte, rest: seq<byte>)
    ensures LittleEndian([b] + rest) == b + 256 * LittleEndian(rest)
  {
    assert ([b] + rest)[1..] == rest;
  }

  /** The address bytes of a frame are the address modulo the address space. */
  lemma AddressFieldValue(ab: AddressBytes, a: u32)
    ensures |AddressField(ab, a)| == ab
    ensures LittleEndian(AddressField(ab, a)) % U32 == a % AddressSpace(ab)
  {
    var f := AddressField(ab, a);
    LowBytes(a);
    LittleEndianOf(f[0], f[1..]);
    LittleEndianOf(f[1], f[2..]);
    assert f == [f[0]] + f[1..] && f[1..] == [f[1]] + f[2..];
    if ab == 3 {
      LittleEndianOf(f[2], []);
      assert f[2..] == [f[2]] + [];
    }
  }

  /** Every address byte but the last is only collected; the last completes the address phase. */
  lemma FeedAddress(t: Target, ab: AddressBytes, a: u32)
    requires t.dec.state in {LdsAddr, StsAddr, StPtrAddr} && t.dec.acc == [] && t.dec.need == ab
    ensures var f := AddressField(ab, a);
            FeedAll(t, f) == match t.dec.state
                             case LdsAddr => LdsDone(t, f)
                             case StsAddr => StsAddressed(t, f)
                             case _ => StPtrDone(t, f)
  {
    var f := AddressField(ab, a);
    if ab == 3 {
      assert f == [f[0], f[1], f[2]];
      FeedThree(t, f[0], f[1], f[2]);
      assert [] + [f[0]] == [f[0]] && [f[0]] + [f[1]] == [f[0], f[1]] && [f[0], f[1]] + [f[2]] == f;
    } else {
      assert f == [f[0], f[1]];
      FeedTwo(t, f[0], f[1]);
      assert [] + [f[0]] == [f[0]] && [f[0]] + [f[1]] == f;
    }
  }

  // ---- single steps of a script ----

  lemma TxStep(frame: seq<byte>, rest: Script, t: Target)
    ensures Perform([Tx(frame)] + rest, t) == Perform(rest, FeedAll(t, frame))
  {
    assert ([Tx(frame)] + rest)[1..] == rest;
  }

  lemma AckStep(rest: Script, t: Target)
    requires t.rx == [ACK]
    ensures Perform([Ack] + rest, t) == Perform(rest, t.(rx := []))
  {
    assert ([Ack] + rest)[1..] == rest;
    assert Taken(t, 1) == [ACK] && AfterTaking(t, 1) == t.(rx := []);
  }

  /** Send a frame, then read every byte the target answered. */
  lemma TxRead(frame: seq<byte>, n: nat, t: Target)
    requires |FeedAll(t, frame).rx| == n
    ensures var t1 := FeedAll(t, frame);
            Perform([Tx(frame), Read(n)], t) == Performance(t1.(rx := []), Ok, t1.rx)
  {
    var t1 := FeedAll(t, frame);
    TxStep(frame, [Read(n)], t);
    assert [Tx(frame)] + [Read(n)] == [Tx(frame), Read(n)];
    assert Taken(t1, n) == t1.rx && AfterTaking(t1, n) == t1.(rx := []);
    assert [Read(n)][1..] == [] && t1.rx + [] == t1.rx;
  }

  lemma TxAck(frame: seq<byte>, rest: Script, t: Target)
    requires FeedAll(t, frame).rx == [ACK]
    ensures Perform([Tx(frame), Ack] + rest, t) == Perform(rest, FeedAll(t, frame).(rx := []))
  {
    assert [Tx(frame), Ack] + rest == [Tx(frame)] + ([Ack] + rest);
    TxStep(frame, [Ack] + rest, t);
    AckStep(rest, FeedAll(t, frame));
  }

  // ---- single accesses ----

  /** The operation succeeded with these data, left this chip, and host and target are in step. */
  predicate Done(p: Performance, c: Chip, data: seq<byte>) {
    p.status == Ok && p.data == data && p.target.chip == c && Quiet(p.target)
  }

  lemma DoneThen(s1: Script, s2: Script, t: Target, c1: Chip, c2: Chip, d1: seq<byte>, d2: seq<byte>)
    requires Done(Perform(s1, t), c1, d1)
    requires Done(Perform(s2, Perform(s1, t).target), c2, d2)
    ensures Done(Perform(s1 + s2, t), c2, d1 + d2)
  {
    PerformThen(s1, s2, t);
  }

  lemma NoWrap(ab: AddressBytes, a: u32, n: nat)
    requires a + n < AddressSpace(ab)
    ensures a % AddressSpace(ab) == a && (a + n) % U32 == a + n == (a + n) % AddressSpace(ab)
  {}

  lemma PerformLdcs(address: byte, t: Target)
    requires Quiet(t)
    ensures Done(Perform(LdcsScript(address), t), t.chip, [t.chip.cs[address % 16]])
  {
    FeedTwo(t, SYNC, LDCS + address % 16);
    assert FeedAll(t, LdcsFrame(address)).rx == [t.chip.cs[address % 16]];
    TxRead(LdcsFrame(address), 1, t);
  }

  /** An LDCS read on an idle decoder: with responses queued it takes the oldest of them for the answer. */
  lemma PerformLdcsQueued(address: byte, t: Target)
    requires t.dec.state == Idle
    ensures var p := Perform(LdcsScript(address), t);
            var queue := Push(t.rx, t.chip.cs[address % 16]);
            p.status == Ok && p.data == [queue[0]] && p.target == t.(rx := queue[1..])
  {
    var frame := LdcsFrame(address);
    FeedTwo(t, SYNC, LDCS + address % 16);
    var t1 := FeedAll(t, frame);
    assert t1 == t.(rx := Push(t.rx, t.chip.cs[address % 16]));
    TxStep(frame, [Read(1)], t);
    assert [Tx(frame)] + [Read(1)] == LdcsScript(address);
    assert Taken(t1, 1) == [t1.rx[0]];
    assert Perform([Read(1)], t1) == Prepend(Taken(t1, 1), Perform([Read(1)][1..], AfterTaking(t1, 1)));
  }

  /**
   When the liveness check leaves the target in step: if its two bytes leave the decoder idle and at most
   one response queued. For a decoder that was idle that is so exactly if it was in step before.
   */
  lemma LivenessReadInStep(t: Target)
    ensures var p, t1 := Perform(LdcsScript(CS_STATUSA), t), FeedAll(t, LdcsFrame(CS_STATUSA));
      && p.status == (if t1.rx == [] then ErrTimeout else Ok)
      && (Quiet(p.target) <==> t1.dec.state == Idle && t1.dec.repeatNext == 0 && |t1.rx| <= 1)
      && (t.dec.state == Idle ==> p.status == Ok && (Quiet(p.target) <==> Quiet(t)))
  {
    var frame := LdcsFrame(CS_STATUSA);
    var t1 := FeedAll(t, frame);
    TxStep(frame, [Read(1)], t);
    assert [Tx(frame)] + [Read(1)] == LdcsScript(CS_STATUSA);
    assert |Taken(t1, 1)| == 1 ==>
        Perform([Read(1)], t1) == Prepend(Taken(t1, 1), Perform([Read(1)][1..], AfterTaking(t1, 1)));
    if t.dec.state == Idle {
      PerformLdcsQueued(CS_STATUSA, t);
    }
  }

  /** In the middle of an instruction it can: here the SYNCH is taken for the value of an STCS. */
  lemma LivenessReadResyncs(t: Target, stale: byte)
    requires t.dec.state == StcsVal && t.dec.repeatNext == 0 && t.rx == [stale]
    ensures var p := Perform(LdcsScript(CS_STATUSA), t); p.status == Ok && p.data == [stale] && Quiet(p.target)
  {
    var frame := LdcsFrame(CS_STATUSA);
    FeedTwo(t, SYNC, LDCS + CS_STATUSA);
    TxRead(frame, 1, t);
  }

  lemma PerformStcs(address: byte, value: byte, t: Target)
    requires t.dec.state == Idle
    ensures var p := Perform(StcsScript(address, value), t);
            p == Performance(
                   t.(chip := StoreCs(t.chip, address % 16, value),
                      dec := t.dec.(pendingCs := address % 16)), Ok, [])
  {
    FeedThree(t, SYNC, STCS + address % 16, value);
    var t1 := FeedAll(t, StcsFrame(address, value));
    assert StcsScript(address, value)[1..] == [];
    assert t1.dec == t.dec.(pendingCs := address % 16);
  }

  lemma {:induction false} PushAllFits(rx: seq<byte>, bytes: seq<byte>)
    requires |rx| + |bytes| < RX_CAP
    ensures PushAll(rx, bytes) == rx + bytes
    decreases |bytes|
  {
    if bytes == [] {
      assert rx + bytes == rx;
    } else {
      PushAllFits(rx + [bytes[0]], bytes[1..]);
      assert (rx + [bytes[0]]) + bytes[1..] == rx + bytes;
    }
  }

  lemma FeedLds(ab: AddressBytes, a: u32, t: Target)
    requires Quiet(t)
    ensures var t1 := FeedAll(t, LdsFrame(ab, a));
            t1.chip == t.chip && t1.rx == [MemRead(t.chip, a % AddressSpace(ab))]
            && t1.dec.state == Idle && t1.dec.repeatNext == 0
  {
    var op := LDS + AddressSize(ab) + DATA_8;
    var f := AddressField(ab, a);
    FeedHeader(t, op, f);
    var t1 := FeedOpcode(t.(dec := t.dec.(state := Opcode)), op);
    assert t1 == t.(dec := t.dec.(dataSize := 1, need := ab, acc := [], state := LdsAddr));
    FeedAddress(t1, ab, a);
    AddressFieldValue(ab, a);
    var m := MemRead(t.chip, a % AddressSpace(ab));
    assert ReadSeq(t.chip, a % AddressSpace(ab), 1) == [m];
    PushAllFits([], [m]);
  }

  lemma PerformLdByte(ab: AddressBytes, a: u32, t: Target)
    requires Quiet(t)
    ensures Done(Perform(LdByteScript(ab, a), t), t.chip, [MemRead(t.chip, a % AddressSpace(ab))])
  {
    FeedLds(ab, a, t);
    TxRead(LdsFrame(ab, a), 1, t);
  }

  /** The address phase of a direct store: acknowledged, the decoder then waits for the data. */
  lemma FeedSts(ab: AddressBytes, size: byte, a: u32, t: Target)
    requires Quiet(t) && size <= DATA_16
    ensures var t1 := FeedAll(t, StsFrame(ab, size, a));
            t1.chip == t.chip && t1.rx == [ACK] && t1.dec.state == StsData && t1.dec.acc == []
            && t1.dec.need == size + 1 && t1.dec.curAddr == a % AddressSpace(ab) && t1.dec.repeatNext == 0
  {
    var op := STS + AddressSize(ab) + size;
    FeedHeader(t, op, AddressField(ab, a));
    var t1 := FeedOpcode(t.(dec := t.dec.(state := Opcode)), op);
    FeedAddress(t1, ab, a);
    AddressFieldValue(ab, a);
    var f := AddressField(ab, a);
  }

  /** The data bytes of a direct store reach memory together, then the store is acknowledged. */
  lemma FeedStsData(values: seq<byte>, t: Target)
    requires t.dec.state == StsData && t.dec.acc == [] && t.dec.need == |values| && t.rx == []
    requires 1 <= |values| <= 2
    ensures var t1 := FeedAll(t, values);
            t1.chip == StoreSeq(t.chip, t.dec.curAddr, values) && t1.rx == [ACK]
            && t1.dec.state == Idle && t1.dec.repeatNext == t.dec.repeatNext
  {
    if |values| == 2 {
      assert values == [values[0], values[1]];
      FeedTwo(t, values[0], values[1]);
      assert [] + [values[0]] == [values[0]] && [values[0]] + [values[1]] == values;
    } else {
      assert values == [values[0]] == [] + [values[0]];
      FeedOne(t, values[0]);
    }
  }

  lemma PerformSts(ab: AddressBytes, a: u32, values: seq<byte>, t: Target)
    requires Quiet(t) && 1 <= |values| <= 2
    ensures Done(Perform([Tx(StsFrame(ab, |values| - 1, a))] + DataPhase(values), t),
                 StoreSeq(t.chip, a % AddressSpace(ab), values), [])
  {
    var frame := StsFrame(ab, |values| - 1, a);
    FeedSts(ab, |values| - 1, a, t);
    var t1 := FeedAll(t, frame).(rx := []);
    assert [Tx(frame)] + DataPhase(values) == [Tx(frame), Ack] + [Tx(values), Ack];
    TxAck(frame, [Tx(values), Ack], t);
    FeedStsData(values, t1);
    assert [Tx(values), Ack] == [Tx(values), Ack] + [];
    TxAck(values, [], t1);
  }

  lemma PerformStByte(ab: AddressBytes, a: u32, v: byte, t: Target)
    requires Quiet(t)
    ensures Done(Perform(StByteScript(ab, a, v), t), MemWrite(t.chip, a % AddressSpace(ab), v), [])
  {
    PerformSts(ab, a, [v], t);
    assert StoreSeq(t.chip, a % AddressSpace(ab), [v]) == MemWrite(t.chip, a % AddressSpace(ab), v);
  }

  // ---- pointer accesses ----

  /** Ready to move n bytes or words at ptr: idle, everything read, the REPEAT counter loaded. */
  predicate Poised(t: Target, c: Chip, ptr: u32, n: nat) {
    t.chip == c && t.dec.state == Idle && t.rx == [] && t.dec.ptr == ptr && t.dec.repeatNext + 1 == n
  }

  lemma FeedStPtr(ab: AddressBytes, a: u32, t: Target)
    requires Quiet(t)
    ensures var t1 := FeedAll(t, StPtrFrame(ab, a));
            t1.rx == [ACK] && Poised(t1.(rx := []), t.chip, a % AddressSpace(ab), 1)
  {
    var op := ST + PTR_ADDRESS + PointerSize(ab);
    var f := AddressField(ab, a);
    FeedHeader(t, op, f);
    var t1 := FeedOpcode(t.(dec := t.dec.(state := Opcode)), op);
    assert t1 == t.(dec := t.dec.(need := ab, acc := [], state := StPtrAddr));
    FeedAddress(t1, ab, a);
    AddressFieldValue(ab, a);
  }

  lemma PerformStPtr(ab: AddressBytes, a: u32, t: Target)
    requires Quiet(t)
    ensures var p := Perform(StPtrScript(ab, a), t);
            p.status == Ok && p.data == [] && Poised(p.target, t.chip, a % AddressSpace(ab), 1)
  {
    FeedStPtr(ab, a, t);
    assert StPtrScript(ab, a) == [Tx(StPtrFrame(ab, a)), Ack] + [];
    TxAck(StPtrFrame(ab, a), [], t);
  }

  lemma PerformRepeat(count: nat, t: Target)
    requires 1 <= count <= MAX_REPEAT && t.dec.state == Idle
    ensures var p := Perform(RepeatScript(count), t);
            p == Performance(t.(dec := t.dec.(repeatNext := count - 1)), Ok, [])
  {
    FeedThree(t, SYNC, REPEAT, count - 1);
    assert RepeatScript(count)[1..] == [];
    assert FeedAll(t, RepeatFrame(count)).dec == t.dec.(repeatNext := count - 1);
  }

  lemma PerformStPtrRepeat(ab: AddressBytes, a: u32, count: nat, t: Target)
    requires Quiet(t) && 1 <= count <= MAX_REPEAT
    ensures var p := Perform(StPtrScript(ab, a) + RepeatScript(count), t);
            p.status == Ok && p.data == [] && Poised(p.target, t.chip, a % AddressSpace(ab), count)
    ensures var p := Perform(StPtrScript(ab, a) + RepeatIfMany(count), t);
            p.status == Ok && p.data == [] && Poised(p.target, t.chip, a % AddressSpace(ab), count)
  {
    PerformStPtr(ab, a, t);
    var t1 := Perform(StPtrScript(ab, a), t).target;
    PerformThen(StPtrScript(ab, a), RepeatScript(count), t);
    PerformRepeat(count, t1);
    PerformThen(StPtrScript(ab, a), RepeatIfMany(count), t);
  }

  lemma LdIncOpcode(wide: bool, op: byte, t: Target)
    requires op == LD + PTR_INC + if wide then DATA_16 else DATA_8
    ensures FeedOpcode(t, op) == LdIncDone(t, (t.dec.repeatNext + 1) * if wide then 2 else 1)
  {
    assert op / 32 == 1 && op / 4 % 4 == 1;
  }

  lemma LdIncFromOpcode(t: Target, t1: Target, n: nat)
    requires t1 == t.(dec := t.dec.(state := Opcode))
    ensures LdIncDone(t1, n) == LdIncDone(t, n)
  {}

  lemma FeedLdInc(wide: bool, t: Target)
    requires t.dec.state == Idle
    ensures FeedAll(t, LdIncFrame(if wide then DATA_16 else DATA_8))
         == LdIncDone(t, (t.dec.repeatNext + 1) * if wide then 2 else 1)
  {
    var op := LD + PTR_INC + if wide then DATA_16 else DATA_8;
    var total := (t.dec.repeatNext + 1) * if wide then 2 else 1;
    FeedTwo(t, SYNC, op);
    var t1 := t.(dec := t.dec.(state := Opcode));
    LdIncOpcode(wide, op, t1);
    LdIncFromOpcode(t, t1, total);
  }

  /** No response byte of a pointer load is dropped, and the host reads exactly what was produced. */
  lemma PerformLdInc(wide: bool, c: Chip, ptr: u32, n: nat, t: Target)
    requires 1 <= n <= MAX_REPEAT && Poised(t, c, ptr, n)
    ensures Done(Perform(if wide then LdInc16Script(n) else LdIncScript(n), t), c,
                 ReadSeq(c, ptr, if wide then 2 * n else n))
  {
    var size := if wide then 2 * n else n;
    var frame := LdIncFrame(if wide then DATA_16 else DATA_8);
    FeedLdInc(wide, t);
    PushAllFits([], ReadSeq(c, ptr, size));
    TxRead(frame, size, t);
  }

  lemma PerformReadData(ab: AddressBytes, a: u32, size: nat, t: Target)
    requires Quiet(t) && 1 <= size <= MAX_REPEAT
    ensures Done(Perform(ReadDataScript(ab, a, size), t), t.chip, ReadSeq(t.chip, a % AddressSpace(ab), size))
  {
    PerformStPtrRepeat(ab, a, size, t);
    PerformThen(StPtrScript(ab, a) + RepeatIfMany(size), LdIncScript(size), t);
    PerformLdInc(false, t.chip, a % AddressSpace(ab), size,
                 Perform(StPtrScript(ab, a) + RepeatIfMany(size), t).target);
  }

  lemma PerformReadWords(ab: AddressBytes, a: u32, words: nat, t: Target)
    requires Quiet(t) && 1 <= words <= MAX_REPEAT / 2
    ensures Done(Perform(ReadWordsScript(ab, a, words), t), t.chip,
                 ReadSeq(t.chip, a % AddressSpace(ab), 2 * words))
  {
    PerformStPtrRepeat(ab, a, words, t);
    PerformThen(StPtrScript(ab, a) + RepeatIfMany(words), LdInc16Script(words), t);
    PerformLdInc(true, t.chip, a % AddressSpace(ab), words,
                 Perform(StPtrScript(ab, a) + RepeatIfMany(words), t).target);
  }

  /** A load of no bytes is answered with one, which stays queued. */
  lemma EmptyRead(t: Target)
    requires Quiet(t)
    ensures var p := Perform(LdIncScript(0), t); p.status == Ok && p.data == [] && |p.target.rx| == 1
  {
    FeedTwo(t, SYNC, LdIncFrame(DATA_8)[1]);
    assert LdIncFrame(DATA_8) == [SYNC, LdIncFrame(DATA_8)[1]];
    var t1, m := FeedAll(t, LdIncFrame(DATA_8)), MemRead(t.chip, t.dec.ptr);
    assert ReadSeq(t.chip, t.dec.ptr, 1) == [m];
    PushAllFits([], [m]);
    assert t1.rx == [m];
    assert LdIncScript(0)[1..] == [Read(0)] && [Read(0)][1..] == [];
    assert Taken(t1, 0) == [] && AfterTaking(t1, 0).rx == [m];
  }

  /** A block read keeps host and target in step exactly when it asks for at least one byte. */
  lemma ReadDataInStep(ab: AddressBytes, a: u32, size: nat, t: Target)
    requires Quiet(t) && size <= MAX_REPEAT
    ensures var p := Perform(ReadDataScript(ab, a, size), t);
            p.status == Ok && |p.data| == size && (Quiet(p.target) <==> size >= 1)
  {
    if size >= 1 {
      PerformReadData(ab, a, size, t);
    } else {
      PerformStPtr(ab, a, t);
      PerformThen(StPtrScript(ab, a), LdIncScript(0), t);
      assert StPtrScript(ab, a) + [] + LdIncScript(0) == StPtrScript(ab, a) + LdIncScript(0);
      EmptyRead(Perform(StPtrScript(ab, a), t).target);
    }
  }

  lemma PerformLastRead(ab: AddressBytes, a: u32, size: nat, t: Target)
    requires Quiet(t) && 0 < size <= MAX_REPEAT && a + size <= AddressSpace(ab)
    ensures Done(Perform(ReadScript(ab, a, size), t), t.chip, ReadSeq(t.chip, a, size))
  {
    NoWrap(ab, a, 0);
    PerformReadData(ab, a, size, t);
    ReadStep(ab, a, size, size);
    assert ReadScript(ab, AddressAt(a, size), 0) == [];
    assert ReadDataScript(ab, a, size) + [] == ReadDataScript(ab, a, size);
  }

  /** One 256-byte piece, and then the rest. */
  lemma PerformReadThen(ab: AddressBytes, a: u32, rest: nat, t: Target)
    requires Quiet(t) && rest > 0 && a + MAX_REPEAT + rest <= AddressSpace(ab)
    requires Done(Perform(ReadScript(ab, a + MAX_REPEAT, rest), Perform(ReadDataScript(ab, a, MAX_REPEAT), t).target),
                  t.chip, ReadSeq(t.chip, a + MAX_REPEAT, rest))
    ensures Done(Perform(ReadScript(ab, a, MAX_REPEAT + rest), t), t.chip, ReadSeq(t.chip, a, MAX_REPEAT + rest))
  {
    var k := MAX_REPEAT;
    NoWrap(ab, a, k);
    PerformReadData(ab, a, k, t);
    ReadStep(ab, a, k + rest, k);
    ReadSeqSplit(t.chip, a, k, rest);
    DoneThen(ReadDataScript(ab, a, k), ReadScript(ab, a + k, rest), t, t.chip, t.chip,
             ReadSeq(t.chip, a, k), ReadSeq(t.chip, a + k, rest));
  }

  /** A read of any length in 256-byte pieces yields the bytes of one long read. */
  lemma {:induction false} PerformRead(ab: AddressBytes, a: u32, size: nat, t: Target)
    requires Quiet(t) && a + size <= AddressSpace(ab)
    ensures Done(Perform(ReadScript(ab, a, size), t), t.chip, ReadSeq(t.chip, a, size))
    decreases size
  {
    if 0 < size <= MAX_REPEAT {
      PerformLastRead(ab, a, size, t);
    } else if size > MAX_REPEAT {
      NoWrap(ab, a, MAX_REPEAT);
      PerformReadData(ab, a, MAX_REPEAT, t);
      PerformRead(ab, a + MAX_REPEAT, size - MAX_REPEAT, Perform(ReadDataScript(ab, a, MAX_REPEAT), t).target);
      PerformReadThen(ab, a, size - MAX_REPEAT, t);
    }
  }

  // ---- block stores ----

  /** Bytes streamed under an active ST *ptr++: each is stored and acknowledged in turn. */
  lemma {:induction false} PerformStream(data: seq<byte>, t: Target)
    requires t.rx == []
    requires if data == [] then t.dec.state == Idle else t.dec.state == StInc8 && t.dec.incLeft == |data|
    ensures var p := Perform(StreamScript(data), t);
            p.status == Ok && p.data == [] && p.target.chip == StoreSeq(t.chip, t.dec.ptr, data)
            && p.target.rx == [] && p.target.dec.state == Idle
            && p.target.dec.repeatNext == t.dec.repeatNext
    decreases |data|
  {
    if data != [] {
      FeedOne(t, data[0]);
      TxAck([data[0]], StreamScript(data[1..]), t);
      PerformStream(data[1..], FeedAll(t, [data[0]]).(rx := []));
    }
  }

  lemma FeedStInc(wide: bool, operands: seq<byte>, t: Target)
    requires t.dec.state == Idle
    ensures FeedAll(t, StIncFrame(if wide then DATA_16 else DATA_8) + operands)
         == FeedAll(t.(dec := t.dec.(
                         repeatNext := 0,
                         incLeft := (t.dec.repeatNext + 1) * (if wide then 2 else 1),
                         state := if wide then StInc16 else StInc8)), operands)
  {
    FeedHeader(t, StIncFrame(if wide then DATA_16 else DATA_8)[1], operands);
  }

  /** The first byte travels with the instruction; after its ACK the rest is streamed. */
  lemma FirstStored(data: seq<byte>, c: Chip, ptr: u32, t: Target) returns (t1: Target)
    requires 1 <= |data| <= MAX_REPEAT && Poised(t, c, ptr, |data|)
    ensures FeedAll(t, StIncFrame(DATA_8) + [data[0]]).rx == [ACK]
    ensures t1 == FeedAll(t, StIncFrame(DATA_8) + [data[0]]).(rx := [])
    ensures if |data| == 1 then t1.dec.state == Idle else t1.dec.state == StInc8 && t1.dec.incLeft == |data| - 1
    ensures t1.dec.repeatNext == 0 && StoreSeq(t1.chip, t1.dec.ptr, data[1..]) == StoreSeq(c, ptr, data)
  {
    FeedStInc(false, [data[0]], t);
    var t0 := t.(dec := t.dec.(repeatNext := 0, incLeft := |data|, state := StInc8));
    FeedOne(t0, data[0]);
    t1 := FeedAll(t, StIncFrame(DATA_8) + [data[0]]).(rx := []);
  }

  lemma PerformStInc(data: seq<byte>, c: Chip, ptr: u32, t: Target)
    requires 1 <= |data| <= MAX_REPEAT && Poised(t, c, ptr, |data|)
    ensures Done(Perform(StIncScript(data), t), StoreSeq(c, ptr, data), [])
  {
    var frame := StIncFrame(DATA_8) + [data[0]];
    var t1 := FirstStored(data, c, ptr, t);
    TxAck(frame, StreamScript(data[1..]), t);
    PerformStream(data[1..], t1);
  }

  /** An unacknowledged block is stored silently, and leaves the decoder idle at its exact end. */
  lemma {:induction false} FeedBlock(data: seq<byte>, t: Target)
    requires data != [] && t.dec.state == StInc16 && t.dec.incLeft == |data|
    ensures var t1 := FeedAll(t, data);
            t1.chip == StoreSeq(t.chip, t.dec.ptr, data) && t1.rx == t.rx && t1.dec.state == Idle
            && t1.dec.repeatNext == t.dec.repeatNext
    decreases |data|
  {
    if |data| == 1 {
      FeedOne(t, data[0]);
      assert data[1..] == [];
    } else {
      FeedBlock(data[1..], Feed(t, data[0]));
    }
  }

  /** What the ACK-less word block leaves: the bytes stored, CTRLA back to ACK on. */
  function WithAckOn(c: Chip): Chip { c.(cs := c.cs[CS_CTRLA := CTRLA_IBDLY]) }

  lemma PerformStInc16Block(data: seq<byte>, c: Chip, ptr: u32, n: nat, t: Target)
    requires 1 <= n <= MAX_REPEAT && |data| == 2 * n && Poised(t, c, ptr, n)
    ensures Done(Perform(StInc16BlockScript(data), t), WithAckOn(StoreSeq(c, ptr, data)), [])
  {
    var s1, s2, s3, s4 := DisableAckScript(), [Tx(StIncFrame(DATA_16))], [Tx(data)], EnableAckScript();
    PerformStcs(CS_CTRLA, CTRLA_IBDLY + CTRLA_RSD, t);
    var t1 := Perform(s1, t).target;
    PerformThen(s1, s2, t);
    TxStep(StIncFrame(DATA_16), [], t1);
    assert s2 + [] == s2 && s3 + [] == s3;
    FeedStInc(true, [], t1);
    assert StIncFrame(DATA_16) + [] == StIncFrame(DATA_16);
    var t2 := FeedAll(t1, StIncFrame(DATA_16));
    PerformThen(s1 + s2, s3, t);
    TxStep(data, [], t2);
    FeedBlock(data, t2);
    var t3 := FeedAll(t2, data);
    PerformThen(s1 + s2 + s3, s4, t);
    PerformStcs(CS_CTRLA, CTRLA_IBDLY, t3);
    StoreSeqCs(c, t1.chip.cs, ptr, data);
  }

  lemma PerformChunk(ab: AddressBytes, a: u32, data: seq<byte>, t: Target)
    requires Quiet(t) && 1 <= |data| <= MAX_REPEAT
    ensures Done(Perform(ChunkScript(ab, a, data), t), StoreSeq(t.chip, a % AddressSpace(ab), data), [])
  {
    PerformStPtrRepeat(ab, a, |data|, t);
    PerformThen(StPtrScript(ab, a) + RepeatScript(|data|), StIncScript(data), t);
    PerformStInc(data, t.chip, a % AddressSpace(ab),
                 Perform(StPtrScript(ab, a) + RepeatScript(|data|), t).target);
  }

  lemma PerformLastChunk(ab: AddressBytes, a: u32, data: seq<byte>, t: Target)
    requires Quiet(t) && 1 <= |data| <= MAX_REPEAT && a + |data| <= AddressSpace(ab)
    ensures Done(Perform(ChunksScript(ab, a, data), t), StoreSeq(t.chip, a, data), [])
  {
    NoWrap(ab, a, 0);
    PerformChunk(ab, a, data, t);
    assert data[..|data|] == data && data[|data|..] == [];
    assert ChunksScript(ab, a, data) == ChunkScript(ab, a, data) + [] == ChunkScript(ab, a, data);
  }

  /** One full block, and then the rest. */
  lemma PerformChunkThen(ab: AddressBytes, a: u32, block: seq<byte>, rest: seq<byte>, t: Target)
    requires Quiet(t) && |block| == MAX_REPEAT && rest != [] && a + |block| + |rest| <= AddressSpace(ab)
    requires var chip := StoreSeq(t.chip, a, block);
             Done(Perform(ChunksScript(ab, a + MAX_REPEAT, rest), Perform(ChunkScript(ab, a, block), t).target),
                  StoreSeq(chip, a + MAX_REPEAT, rest), [])
    ensures Done(Perform(ChunksScript(ab, a, block + rest), t), StoreSeq(t.chip, a, block + rest), [])
  {
    var b := ChunkScript(ab, a, block);
    NoWrap(ab, a, MAX_REPEAT);
    PerformChunk(ab, a, block, t);
    StoreSeqSplit(t.chip, a, block, rest);
    DoneThen(b, ChunksScript(ab, a + MAX_REPEAT, rest), t, StoreSeq(t.chip, a, block),
             StoreSeq(t.chip, a, block + rest), [], []);
    assert (block + rest)[..MAX_REPEAT] == block && (block + rest)[MAX_REPEAT..] == rest;
  }

  lemma {:induction false} PerformChunks(ab: AddressBytes, a: u32, data: seq<byte>, t: Target)
    requires Quiet(t) && a + |data| <= AddressSpace(ab)
    ensures Done(Perform(ChunksScript(ab, a, data), t), StoreSeq(t.chip, a, data), [])
    decreases |data|
  {
    if data != [] {
      var k := Min(|data|, MAX_REPEAT);
      var block, rest := data[..k], data[k..];
      assert data == block + rest;
      NoWrap(ab, a, k - 1);
      PerformChunk(ab, a, block, t);
      if rest == [] {
        PerformLastChunk(ab, a, data, t);
      } else {
        PerformChunks(ab, a + k, rest, Perform(ChunkScript(ab, a, block), t).target);
        PerformChunkThen(ab, a, block, rest, t);
      }
    }
  }

  /** Whichever of its three paths it takes, a byte write is one pointwise store of the sequence. */
  lemma PerformWriteData(ab: AddressBytes, a: u32, data: seq<byte>, t: Target)
    requires Quiet(t) && data != [] && a + |data| <= AddressSpace(ab)
    ensures Done(Perform(WriteDataScript(ab, a, data), t), StoreSeq(t.chip, a, data), [])
  {
    if |data| == 1 {
      NoWrap(ab, a, 0);
      PerformStByte(ab, a, data[0], t);
      assert data[1..] == [];
    } else if |data| == 2 {
      NoWrap(ab, a, 1);
      var c1 := MemWrite(t.chip, a, data[0]);
      var b := StByteScript(ab, a, data[0]);
      PerformStByte(ab, a, data[0], t);
      PerformStByte(ab, a + 1, data[1], Perform(b, t).target);
      DoneThen(b, StByteScript(ab, a + 1, data[1]), t, c1, MemWrite(c1, a + 1, data[1]), [], []);
      assert data[1..] == [data[1]] && [data[1]][1..] == [];
      assert StoreSeq(c1, a + 1, [data[1]]) == MemWrite(c1, a + 1, data[1]);
    } else {
      PerformChunks(ab, a, data, t);
    }
  }

  /** A word write stores the same bytes as writing them one at a time. */
  lemma PerformWords(ab: AddressBytes, a: u32, data: seq<byte>, t: Target)
    requires Quiet(t) && WordsOk(|data|)
    ensures var stored := StoreSeq(t.chip, a % AddressSpace(ab), data);
            Done(Perform(WordsScript(ab, a, data), t), if |data| == 2 then stored else WithAckOn(stored), [])
  {
    if |data| == 2 {
      assert data == [data[0], data[1]];
      PerformSts(ab, a, data, t);
    } else {
      PerformStPtrRepeat(ab, a, |data| / 2, t);
      PerformThen(StPtrScript(ab, a) + RepeatScript(|data| / 2), StInc16BlockScript(data), t);
      PerformStInc16Block(data, t.chip, a % AddressSpace(ab), |data| / 2,
                          Perform(StPtrScript(ab, a) + RepeatScript(|data| / 2), t).target);
    }
  }

  // ---- keys and the SIB ----

  lemma {:induction false} FeedKeyBytes(data: seq<byte>, t: Target)
    requires t.dec.state == KeyBytes && data != [] && t.dec.need == |t.dec.acc| + |data|
    ensures FeedAll(t, data)
         == t.(chip := ArmKey(t.chip, Reverse(t.dec.acc + data)),
               dec := t.dec.(acc := t.dec.acc + data, state := Idle))
    decreases |data|
  {
    if |data| == 1 {
      FeedOne(t, data[0]);
      assert data[1..] == [] && [data[0]] == data;
    } else {
      FeedKeyBytes(data[1..], Feed(t, data[0]));
      assert t.dec.acc + [data[0]] + data[1..] == t.dec.acc + data;
    }
  }

  lemma FeedKeyHeader(t: Target)
    requires t.dec.state == Idle
    ensures FeedAll(t, KeyFrame(KEY_64)) == t.(dec := t.dec.(need := 8, acc := [], state := KeyBytes))
  {
    FeedTwo(t, SYNC, KEY + KEY_64);
  }

  /** The key sent reversed is the key the target compares. */
  lemma PerformKey(key: seq<byte>, t: Target)
    requires Quiet(t) && |key| == 8
    ensures Done(Perform(KeyScript(KEY_64, key), t), ArmKey(t.chip, key), [])
  {
    var s1, s2 := [Tx(KeyFrame(KEY_64))], [Tx(Reverse(key))];
    assert KeyScript(KEY_64, key) == s1 + s2;
    FeedKeyHeader(t);
    var t1 := FeedAll(t, KeyFrame(KEY_64));
    TxStep(KeyFrame(KEY_64), s2, t);
    TxStep(Reverse(key), [], t1);
    assert s2 + [] == s2;
    FeedKeyBytes(Reverse(key), t1);
    assert [] + Reverse(key) == Reverse(key) && Reverse(Reverse(key)) == key;
  }

  /** A SIB read leaves host and target in step exactly when it has room for the shortest block. */
  lemma PerformSib(size: nat, t: Target)
    requires Quiet(t)
    ensures var p := Perform(SibScript(size), t);
            var n := SibLength(SibSelector(size));
            && p.status == (if size == 0 then ErrTimeout else Ok)
            && p.data == SibBytes(t.chip.cfg.sib, n)[..Min(n, size)] && p.target.chip == t.chip
            && (Quiet(p.target) <==> size >= 8)
  {
    var n := SibLength(SibSelector(size));
    var frame := SibFrame(SibSelector(size));
    FeedHeader(t, KEY + KEY_SIB + SibSelector(size), []);
    assert frame + [] == frame;
    PushAllFits([], SibBytes(t.chip.cfg.sib, n));
    var t1 := FeedAll(t, frame);
    assert t1.rx == SibBytes(t.chip.cfg.sib, n);
    TxStep(frame, [ReadSome(size)], t);
    assert [Tx(frame)] + [ReadSome(size)] == SibScript(size);
    assert [ReadSome(size)][1..] == [];
    assert Taken(t1, size) + [] == Taken(t1, size) && |Taken(t1, size)| == Min(n, size);
  }
}
