/** The data link (updi_link.c): every operation runs its script, on any target. */
module UpdiDataLink {
  import opened Bytes
  import opened Protocol
  import opened Target
  import opened Lockstep
  import opened WireLog
  import opened UpdiTransport

  // ---- an emulated target between instructions, perhaps with stale responses queued ----

  predicate Idling(w: Wire) { w.emulated && w.target.dec.state == Idle }

  /** Idle as before, with the same responses queued and the same REPEAT count. */
  predicate SameQueue(t: Target, t': Target) {
    t'.dec.state == Idle && t'.rx == t.rx && t'.dec.repeatNext == t.dec.repeatNext
    && t'.chip.cs[CS_STATUSA] == t.chip.cs[CS_STATUSA]
  }

  /** Idle as before, after a STATUSA read took the oldest response. */
  predicate TookOldest(t: Target, t': Target) {
    t'.rx == Push(t.rx, t.chip.cs[CS_STATUSA])[1..] && SameQueue(t.(rx := t'.rx), t')
  }

  /** What the two liveness reads of an activation get for answers. */
  predicate SeemsAlive(t: Target) {
    var answers := t.rx + [t.chip.cs[CS_STATUSA], t.chip.cs[CS_STATUSA]];
    answers[0] != 0 || answers[1] != 0
  }

  lemma BreakIdling(w: Wire, w': Wire, s: Status)
    requires Ran([Tx([0])], w, w', s, []) && Idling(w)
    ensures w'.target == w.target
  {
    RanFollows([Tx([0])], w, w', s, []);
    FeedOne(w.target, 0);
    TxStep([0], [], w.target);
    assert [Tx([0])] + [] == [Tx([0])];
  }

  lemma StcsIdling(address: byte, value: byte, w: Wire, w': Wire, s: Status)
    requires Ran(StcsScript(address, value), w, w', s, []) && Idling(w) && address % 16 != CS_STATUSA
    requires address % 16 != ASI_RESET_REQ
    ensures s == Ok && SameQueue(w.target, w'.target)
  {
    RanFollows(StcsScript(address, value), w, w', s, []);
    PerformStcs(address, value, w.target);
  }

  lemma LdcsIdling(w: Wire, w': Wire, s: Status, data: seq<byte>)
    requires Ran(LdcsScript(CS_STATUSA), w, w', s, data) && Idling(w)
    ensures s == Ok && data == [Push(w.target.rx, w.target.chip.cs[CS_STATUSA])[0]] && TookOldest(w.target, w'.target)
  {
    RanFollows(LdcsScript(CS_STATUSA), w, w', s, data);
    PerformLdcsQueued(CS_STATUSA, w.target);
  }

  /** One liveness read, and one more after it if the first answer was zero: the queue hardly changes. */
  lemma ReadsIdling(t: Target, t1: Target, t2: Target)
    requires |t.rx| < RX_CAP && TookOldest(t, t1)
    ensures |t1.rx| == Min(|t.rx|, RX_CAP - 2)
    ensures TookOldest(t1, t2) ==> |t2.rx| == Min(|t.rx|, RX_CAP - 2)
    ensures SeemsAlive(t) <==>
      Push(t.rx, t.chip.cs[CS_STATUSA])[0] != 0 || Push(t1.rx, t1.chip.cs[CS_STATUSA])[0] != 0
  {}

  lemma WithinReadData(ab: AddressBytes, address: u32, size: nat)
    requires size <= MAX_REPEAT
    ensures ScriptWithin(ReadDataScript(ab, address, size), ReadOnly)
  {
    assert ReadOnlyFrame(StPtrFrame(ab, address));
    assert ReadOnlyFrame(LdIncFrame(DATA_8));
  }

  class UpdiLink {
    const transport: Transport
    var addressBytes: AddressBytes
    var timeoutMs: u32
    var ackEnabled: bool

    ghost predicate Valid()
      reads this, transport, transport.Repr
    {
      this !in transport.Repr && transport.Valid()
    }

    ghost function Now(): Wire
      reads transport
    {
      transport.wire
    }

    /** The chip behind an emulated transport. */
    ghost function Chip(): Chip
      reads transport
    {
      transport.wire.target.chip
    }

    constructor (transport: Transport)
      requires transport.Valid()
      ensures Valid() && this.transport == transport
      ensures addressBytes == 2 && timeoutMs == 300 && ackEnabled
    {
      this.transport := transport;
      addressBytes, timeoutMs, ackEnabled := 2, 300, true;
    }

    method SetAddressSize(n: byte)
      modifies `addressBytes
      ensures addressBytes == if n == 3 then 3 else 2
    {
      addressBytes := if n == 3 then 3 else 2;
    }

    method SendRaw(frame: seq<byte>) returns (ok: bool)
      requires Valid()
      modifies transport.Repr
      ensures Valid()
      ensures Ran([Tx(frame)], old(Now()), Now(), if ok then Ok else ErrTransport, [])
      ensures Now().emulated ==> ok
    {
      ok := transport.Send(frame);
      RanSent(frame, ok, old(Now()), Now());
    }

    method RecvRaw(n: nat) returns (bytes: seq<byte>)
      requires Valid()
      modifies transport.Repr
      ensures Valid() && |bytes| <= n
      ensures n == 1 ==> Ran([Ack], old(Now()), Now(), if bytes == [ACK] then Ok else ErrNack, [])
      ensures Ran([Read(n)], old(Now()), Now(), if |bytes| == n then Ok else ErrTimeout,
                  if |bytes| == n then bytes else [])
      ensures Ran([ReadSome(n)], old(Now()), Now(), if bytes != [] then Ok else ErrTimeout, bytes)
    {
      bytes := transport.Recv(n);
      RanReceived(n, bytes, old(Now()), Now());
    }

    /** Appends the 2 or 3 address bytes to the frame. */
    method PutAddress(frame: array<byte>, n: nat, address: u32) returns (m: nat)
      requires n + 3 <= frame.Length
      modifies frame
      ensures m <= frame.Length && frame[..m] == old(frame[..n]) + AddressField(addressBytes, address)
    {
      frame[n] := address % 256;
      frame[n + 1] := address / 256 % 256;
      m := n + 2;
      if addressBytes == 3 {
        frame[m] := address / 65536 % 256;
        m := m + 1;
      }
    }

    method BuildFrame(op: byte, address: u32) returns (frame: seq<byte>)
      ensures frame == [SYNC, op] + AddressField(addressBytes, address)
    {
      var buffer := new byte[5];
      buffer[0] := SYNC;
      buffer[1] := op;
      var n := PutAddress(buffer, 2, address);
      frame := buffer[..n];
    }

    /** Sends a frame and reads exactly n bytes. */
    method Exchange(frame: seq<byte>, n: nat) returns (s: Status, bytes: seq<byte>)
      requires Valid()
      modifies transport.Repr
      ensures Valid() && s in {Ok, ErrTransport, ErrTimeout} && (s == Ok ==> |bytes| == n) && (s != Ok ==> bytes == [])
      ensures Ran([Tx(frame), Read(n)], old(Now()), Now(), s, bytes)
    {
      ghost var w0 := Now();
      RemainsAll([Tx(frame)] + [Read(n)], w0);
      assert [Tx(frame)] + [Read(n)] == [Tx(frame), Read(n)];
      var ok := SendRaw(frame);
      Advance([Tx(frame)], [Read(n)], w0, Now(), if ok then Ok else ErrTransport, [], [], [Tx(frame), Read(n)], w0);
      if !ok {
        return ErrTransport, [];
      }
      bytes := RecvRaw(n);
      if |bytes| != n {
        return ErrTimeout, [];
      }
      s := Ok;
    }

    /** Sends bytes and expects one ACK. */
    method SendAcked(frame: seq<byte>) returns (s: Status)
      requires Valid()
      modifies transport.Repr
      ensures Valid() && s in {Ok, ErrTransport, ErrNack}
      ensures Ran([Tx(frame), Ack], old(Now()), Now(), s, [])
    {
      ghost var w0 := Now();
      RemainsAll([Tx(frame)] + [Ack], w0);
      assert [Tx(frame)] + [Ack] == [Tx(frame), Ack];
      var ok := SendRaw(frame);
      Advance([Tx(frame)], [Ack], w0, Now(), if ok then Ok else ErrTransport, [], [], [Tx(frame), Ack], w0);
      if !ok {
        return ErrTransport;
      }
      var ack := RecvRaw(1);
      s := if ack == [ACK] then Ok else ErrNack;
    }

    // ---- control/status space ----

    method Ldcs(address: byte) returns (s: Status, value: byte)
      requires Valid()
      modifies transport.Repr
      ensures Valid() && s in {Ok, ErrTransport, ErrTimeout}
      ensures Ran(LdcsScript(address), old(Now()), Now(), s, if s == Ok then [value] else [])
      ensures Grew(old(Now()).log, Now().log, ReadOnly)
      ensures Live(old(Now())) ==>
                s == Ok && Live(Now()) && Chip() == old(Chip()) && value == Chip().cs[address % 16]
    {
      ghost var w0 := Now();
      var bytes;
      s, bytes := Exchange(LdcsFrame(address), 1);
      value := if s == Ok then bytes[0] else 0;
      RanWithin(LdcsScript(address), w0, Now(), s, bytes, ReadOnly);
      if Live(w0) {
        RanFollows(LdcsScript(address), w0, Now(), s, bytes);
        PerformLdcs(address, w0.target);
      }
    }

    method Stcs(address: byte, value: byte) returns (s: Status)
      requires Valid()
      modifies transport.Repr
      ensures Valid() && s in {Ok, ErrTransport}
      ensures Ran(StcsScript(address, value), old(Now()), Now(), s, [])
      ensures Grew(old(Now()).log, Now().log, ReadOnly)
      ensures Live(old(Now())) ==> s == Ok && Live(Now()) && Chip() == StoreCs(old(Chip()), address % 16, value)
    {
      ghost var w0 := Now();
      var ok := SendRaw(StcsFrame(address, value));
      s := if ok then Ok else ErrTransport;
      RanWithin(StcsScript(address, value), w0, Now(), s, [], ReadOnly);
      if Live(w0) {
        RanFollows(StcsScript(address, value), w0, Now(), s, []);
        PerformStcs(address, value, w0.target);
      }
    }

    method EnableAck() returns (s: Status)
      requires Valid()
      modifies `ackEnabled, transport.Repr
      ensures Valid() && s in {Ok, ErrTransport} && ackEnabled == (s == Ok || old(ackEnabled))
      ensures Ran(EnableAckScript(), old(Now()), Now(), s, [])
      ensures Grew(old(Now()).log, Now().log, ReadOnly)
      ensures Live(old(Now())) ==> s == Ok && Live(Now()) && Chip() == WithAckOn(old(Chip()))
    {
      s := Stcs(CS_CTRLA, CTRLA_IBDLY);
      if s == Ok {
        ackEnabled := true;
      }
    }

    method DisableAck() returns (s: Status)
      requires Valid()
      modifies `ackEnabled, transport.Repr
      ensures Valid() && s in {Ok, ErrTransport} && ackEnabled == (s != Ok && old(ackEnabled))
      ensures Ran(DisableAckScript(), old(Now()), Now(), s, [])
    {
      s := Stcs(CS_CTRLA, CTRLA_IBDLY + CTRLA_RSD);
      if s == Ok {
        ackEnabled := false;
      }
    }

    method DoubleBreak()
      requires Valid()
      modifies `ackEnabled, transport.Repr
      ensures Valid() && ackEnabled && Grew(old(Now()).log, Now().log, ReadOnly)
      ensures Now().emulated == old(Now()).emulated && Now().ticks == old(Now()).ticks
      ensures Idling(old(Now())) ==> SameQueue(old(Now()).target, Now().target)
    {
      transport.DoubleBreak();
      ackEnabled := true;
    }

    method Millis() returns (ms: u32)
      requires Valid()
      modifies transport.Repr
      ensures Valid() && Now() == old(Now()).(ticks := old(Now()).ticks + [ms])
    {
      ms := transport.Millis();
    }

    method InitSessionParams() returns (s: Status)
      requires Valid()
      modifies `ackEnabled, transport.Repr
      ensures Valid() && Grew(old(Now()).log, Now().log, ReadOnly)
      ensures Now().emulated == old(Now()).emulated && Now().ticks == old(Now()).ticks
      ensures Live(old(Now())) ==>
                s == Ok && Live(Now()) && ackEnabled
                && Chip() == WithAckOn(StoreCs(old(Chip()), CS_CTRLB, CTRLB_CCDETDIS))
      ensures Idling(old(Now())) ==> SameQueue(old(Now()).target, Now().target)
    {
      s := Stcs(CS_CTRLB, CTRLB_CCDETDIS);
      ghost var w1 := Now();
      if Idling(old(Now())) {
        StcsIdling(CS_CTRLB, CTRLB_CCDETDIS, old(Now()), w1, s);
      }
      if s != Ok {
        return;
      }
      s := EnableAck();
      if Idling(w1) {
        StcsIdling(CS_CTRLA, CTRLA_IBDLY, w1, Now(), s);
      }
    }

    /** The transcript ends with a STATUSA read answered by something other than zero. */
    static predicate ShowsAlive(log: seq<Event>) {
      exists b: byte :: b != 0 && EndsAnswered(log, LdcsFrame(CS_STATUSA), b)
    }

    method CheckDatalink() returns (alive: bool)
      requires Valid()
      modifies transport.Repr
      ensures Valid() && Grew(old(Now()).log, Now().log, ReadOnly)
      ensures Now().emulated == old(Now()).emulated && Now().ticks == old(Now()).ticks
      ensures alive <==> ShowsAlive(Now().log)
      ensures Live(old(Now())) ==> Live(Now()) && Chip() == old(Chip()) && alive == (Chip().cs[CS_STATUSA] != 0)
      ensures Idling(old(Now())) ==>
                TookOldest(old(Now()).target, Now().target)
                && alive == (Push(old(Now()).target.rx, old(Chip()).cs[CS_STATUSA])[0] != 0)
    {
      ghost var w0 := Now();
      var s, statusa := Ldcs(CS_STATUSA);
      if Idling(w0) {
        LdcsIdling(w0, Now(), s, if s == Ok then [statusa] else []);
      }
      AnsweredLast(LdcsFrame(CS_STATUSA), w0, Now(), s, if s == Ok then [statusa] else []);
      alive := s == Ok && statusa != 0;
    }

    /** The chip after a successful activation. */
    static function Activated(c: Chip): Chip { WithAckOn(StoreCs(c, CS_CTRLB, CTRLB_CCDETDIS)) }

    /** One attempt of an activation, after its BREAK. */
    method StartSession() returns (alive: bool)
      requires Valid()
      modifies `ackEnabled, transport.Repr
      ensures Valid() && Grew(old(Now()).log, Now().log, ReadOnly)
      ensures Now().emulated == old(Now()).emulated && Now().ticks == old(Now()).ticks
      ensures alive <==> ShowsAlive(Now().log)
      ensures Live(old(Now())) ==>
                Live(Now()) && ackEnabled && Chip() == Activated(old(Chip())) && alive == (Chip().cs[CS_STATUSA] != 0)
      ensures Idling(old(Now())) ==>
                TookOldest(old(Now()).target, Now().target)
                && alive == (Push(old(Now()).target.rx, old(Chip()).cs[CS_STATUSA])[0] != 0)
    {
      var _ := InitSessionParams();
      alive := CheckDatalink();
    }

    /**
     BREAK, session parameters and a liveness check, retried once after a double BREAK. An idle target
     with stale responses stays out of step: the oldest of them pass for answers, and as many stay queued,
     but for one when the queue was full.
     */
    method Activate() returns (s: Status)
      requires Valid()
      modifies `ackEnabled, transport.Repr
      ensures Valid() && s in {Ok, ErrTimeout} && Grew(old(Now()).log, Now().log, ReadOnly)
      ensures s == Ok <==> ShowsAlive(Now().log)
      ensures Now().emulated == old(Now()).emulated && Now().ticks == old(Now()).ticks
      ensures Live(old(Now())) && old(Chip()).cs[CS_STATUSA] != 0 ==>
                s == Ok && Live(Now()) && ackEnabled && Chip() == Activated(old(Chip()))
      ensures Idling(old(Now())) ==>
                && Idling(Now()) && Now().target.dec.repeatNext == old(Now()).target.dec.repeatNext
                && |Now().target.rx| == Min(|old(Now()).target.rx|, RX_CAP - 2)
                && (s == Ok <==> SeemsAlive(old(Now()).target))
                && (Quiet(Now().target) <==> Quiet(old(Now()).target))
    {
      ghost var w0 := Now();
      var sent := SendRaw([0]);
      RanWithin([Tx([0])], w0, Now(), if sent then Ok else ErrTransport, [], ReadOnly);
      if Idling(w0) {
        BreakIdling(w0, Now(), if sent then Ok else ErrTransport);
      }
      var alive := StartSession();
      ghost var w1 := Now();
      if alive {
        if Idling(w0) {
          ReadsIdling(w0.target, w1.target, w1.target);
        }
        return Ok;
      }
      DoubleBreak();
      alive := StartSession();
      if Idling(w0) {
        ReadsIdling(w0.target, w1.target, Now().target);
      }
      s := if alive then Ok else ErrTimeout;
    }

    /** A concrete case: the ACK of an address frame, never taken, passes for a STATUSA answer. */
    method ActivateOnStaleAck(address: u32) returns (s: Status)
      requires Valid() && Live(Now())
      modifies `ackEnabled, transport.Repr
      ensures Valid() && s == Ok && !Live(Now())
    {
      ghost var w0 := Now();
      var sent := SendRaw(StPtrFrame(addressBytes, address));
      RanFollows([Tx(StPtrFrame(addressBytes, address))], w0, Now(), Ok, []);
      FeedStPtr(addressBytes, address, w0.target);
      TxStep(StPtrFrame(addressBytes, address), [], w0.target);
      assert [Tx(StPtrFrame(addressBytes, address))] + [] == [Tx(StPtrFrame(addressBytes, address))];
      s := Activate();
    }

    // ---- direct single access ----

    method LdByte(address: u32) returns (s: Status, value: byte)
      requires Valid()
      modifies transport.Repr
      ensures Valid() && s in {Ok, ErrTransport, ErrTimeout}
      ensures Ran(LdByteScript(addressBytes, address), old(Now()), Now(), s, if s == Ok then [value] else [])
      ensures Grew(old(Now()).log, Now().log, Reading)
      ensures Live(old(Now())) ==>
                s == Ok && Live(Now()) && Chip() == old(Chip())
                && value == MemRead(Chip(), address % AddressSpace(addressBytes))
    {
      ghost var w0 := Now();
      var frame := BuildFrame(LDS + (if addressBytes == 3 then ADDRESS_24 else ADDRESS_16) + DATA_8, address);
      assert frame == LdsFrame(addressBytes, address);
      var bytes;
      s, bytes := Exchange(frame, 1);
      value := if s == Ok then bytes[0] else 0;
      RanWithin(LdByteScript(addressBytes, address), w0, Now(), s, bytes, Reading);
      if Live(w0) {
        RanFollows(LdByteScript(addressBytes, address), w0, Now(), s, bytes);
        PerformLdByte(addressBytes, address, w0.target);
      }
    }

    /** The address phase is already sent: ACK, data, ACK. */
    method StDataPhase(values: seq<byte>) returns (s: Status)
      requires Valid()
      modifies transport.Repr
      ensures Valid() && s in {Ok, ErrTransport, ErrNack}
      ensures Ran(DataPhase(values), old(Now()), Now(), s, [])
    {
      ghost var w0 := Now();
      var script := DataPhase(values);
      assert script == [Ack] + [Tx(values), Ack];
      RemainsAll(script, w0);
      var ack := RecvRaw(1);
      Advance([Ack], [Tx(values), Ack], w0, Now(), if ack == [ACK] then Ok else ErrNack, [], [], script, w0);
      if ack != [ACK] {
        return ErrNack;
      }
      s := SendAcked(values);
    }

    /** A direct store: the address phase, then the data phase. */
    method StDirect(frame: seq<byte>, values: seq<byte>) returns (s: Status)
      requires Valid()
      modifies transport.Repr
      ensures Valid() && s in {Ok, ErrTransport, ErrNack}
      ensures Ran([Tx(frame)] + DataPhase(values), old(Now()), Now(), s, [])
    {
      ghost var w0 := Now();
      var script := [Tx(frame)] + DataPhase(values);
      RemainsAll(script, w0);
      var ok := SendRaw(frame);
      Advance([Tx(frame)], DataPhase(values), w0, Now(), if ok then Ok else ErrTransport, [], [], script, w0);
      if !ok {
        return ErrTransport;
      }
      s := StDataPhase(values);
    }

    method StByte(address: u32, value: byte) returns (s: Status)
      requires Valid()
      modifies transport.Repr
      ensures Valid() && s in {Ok, ErrTransport, ErrNack}
      ensures Ran(StByteScript(addressBytes, address, value), old(Now()), Now(), s, [])
      ensures Grew(old(Now()).log, Now().log, Commanding(addressBytes, address, {value}))
      ensures Live(old(Now())) ==>
                s == Ok && Live(Now())
                && Chip() == MemWrite(old(Chip()), address % AddressSpace(addressBytes), value)
    {
      ghost var w0 := Now();
      var frame := BuildFrame(STS + (if addressBytes == 3 then ADDRESS_24 else ADDRESS_16) + DATA_8, address);
      assert frame == StsFrame(addressBytes, DATA_8, address);
      s := StDirect(frame, [value]);
      RanWithin(StByteScript(addressBytes, address, value), w0, Now(), s, [],
                Commanding(addressBytes, address, {value}));
      if Live(w0) {
        RanFollows(StByteScript(addressBytes, address, value), w0, Now(), s, []);
        PerformStByte(addressBytes, address, value, w0.target);
      }
    }

    method St16(address: u32, value: nat) returns (s: Status)
      requires Valid() && value < 0x1_0000
      modifies transport.Repr
      ensures Valid() && s in {Ok, ErrTransport, ErrNack}
      ensures Ran(StWordScript(addressBytes, address, value % 256, value / 256), old(Now()), Now(), s, [])
      ensures Live(old(Now())) ==>
                s == Ok && Live(Now())
                && Chip() == StoreSeq(old(Chip()), address % AddressSpace(addressBytes), [value % 256, value / 256])
    {
      ghost var w0 := Now();
      var frame := BuildFrame(STS + (if addressBytes == 3 then ADDRESS_24 else ADDRESS_16) + DATA_16, address);
      assert frame == StsFrame(addressBytes, DATA_16, address);
      s := StDirect(frame, [value % 256, value / 256 % 256]);
      if Live(w0) {
        ghost var data: seq<byte> := [value % 256, value / 256];
        RanFollows(WordsScript(addressBytes, address, data), w0, Now(), s, []);
        PerformWords(addressBytes, address, data, w0.target);
      }
    }

    // ---- pointer-based access ----

    method StPtr(address: u32) returns (s: Status)
      requires Valid()
      modifies transport.Repr
      ensures Valid() && s in {Ok, ErrTransport, ErrNack}
      ensures Ran(StPtrScript(addressBytes, address), old(Now()), Now(), s, [])
    {
      var frame := BuildFrame(ST + PTR_ADDRESS + (if addressBytes == 3 then DATA_24 else DATA_16), address);
      assert frame == StPtrFrame(addressBytes, address);
      s := SendAcked(frame);
    }

    method LdPtrInc(size: nat) returns (s: Status, buf: seq<byte>)
      requires Valid()
      modifies transport.Repr
      ensures Valid() && s in {Ok, ErrTransport, ErrTimeout} && (s == Ok ==> |buf| == size) && (s != Ok ==> buf == [])
      ensures Ran(LdIncScript(size), old(Now()), Now(), s, buf)
    {
      s, buf := Exchange(LdIncFrame(DATA_8), size);
    }

    method LdPtrInc16(words: nat) returns (s: Status, buf: seq<byte>)
      requires Valid()
      modifies transport.Repr
      ensures Valid() && s in {Ok, ErrTransport, ErrTimeout}
      ensures (s == Ok ==> |buf| == 2 * words) && (s != Ok ==> buf == [])
      ensures Ran(LdInc16Script(words), old(Now()), Now(), s, buf)
    {
      s, buf := Exchange(LdIncFrame(DATA_16), 2 * words);
    }

    method StPtrInc(data: seq<byte>) returns (s: Status)
      requires Valid()
      modifies transport.Repr
      ensures Valid() && (data == [] <==> s == ErrParam)
      ensures if data == [] then Now() == old(Now()) else Ran(StIncScript(data), old(Now()), Now(), s, [])
    {
      if |data| == 0 {
        return ErrParam;
      }
      ghost var w0 := Now();
      var script := StIncScript(data);
      var first := [Tx(StIncFrame(DATA_8) + [data[0]]), Ack];
      RemainsAll(script, w0);
      s := SendAcked(StIncFrame(DATA_8) + [data[0]]);
      Advance(first, StreamScript(data[1..]), w0, Now(), s, [], [], script, w0);
      if s != Ok {
        return;
      }
      for i := 1 to |data|
        invariant Valid() && Remains(StreamScript(data[i..]), Now(), [], script, w0)
      {
        ghost var w := Now();
        assert data[i..][0] == data[i] && data[i..][1..] == data[i + 1..];
        s := SendAcked([data[i]]);
        Advance([Tx([data[i]]), Ack], StreamScript(data[i + 1..]), w, Now(), s, [], [], script, w0);
        if s != Ok {
          return;
        }
      }
      s := Ok;
      RemainsNothing(Now(), [], script, w0);
    }

    /** ACKs off, the block streamed without any, ACKs on again. */
    method StPtrInc16Block(data: seq<byte>) returns (s: Status)
      requires Valid()
      modifies `ackEnabled, transport.Repr
      ensures Valid() && s in {Ok, ErrTransport} && (s == Ok ==> ackEnabled)
      ensures Ran(StInc16BlockScript(data), old(Now()), Now(), s, [])
    {
      ghost var w0 := Now();
      var script := StInc16BlockScript(data);
      var tail := [Tx(data)] + EnableAckScript();
      assert script == DisableAckScript() + ([Tx(StIncFrame(DATA_16))] + tail);
      RemainsAll(script, w0);
      s := DisableAck();
      Advance(DisableAckScript(), [Tx(StIncFrame(DATA_16))] + tail, w0, Now(), s, [], [], script, w0);
      if s != Ok {
        return;
      }
      ghost var w1 := Now();
      var ok := SendRaw(StIncFrame(DATA_16));
      Advance([Tx(StIncFrame(DATA_16))], tail, w1, Now(), if ok then Ok else ErrTransport, [], [], script, w0);
      if !ok {
        return ErrTransport;
      }
      ghost var w2 := Now();
      ok := SendRaw(data);
      Advance([Tx(data)], EnableAckScript(), w2, Now(), if ok then Ok else ErrTransport, [], [], script, w0);
      if !ok {
        return ErrTransport;
      }
      s := EnableAck();
    }

    // ---- misc instructions ----

    method Repeat(count: nat) returns (s: Status)
      requires Valid()
      modifies transport.Repr
      ensures Valid() && s in {Ok, ErrTransport, ErrParam} && (s == ErrParam <==> !(1 <= count <= MAX_REPEAT))
      ensures if RepeatOf(count).Refused? then s == ErrParam && Now() == old(Now())
              else Ran(RepeatOf(count).script, old(Now()), Now(), s, [])
    {
      if count < 1 || count > MAX_REPEAT {
        return ErrParam;
      }
      var ok := SendRaw([SYNC, REPEAT, (count - 1) % 256]);
      s := if ok then Ok else ErrTransport;
    }

    static method Reversed(key: seq<byte>) returns (r: seq<byte>)
      requires |key| <= 32
      ensures r == Reverse(key)
    {
      var rev := new byte[32];
      for i := 0 to |key|
        invariant rev[..i] == Reverse(key)[..i]
      {
        rev[i] := key[|key| - 1 - i];
      }
      r := rev[..|key|];
    }

    /** Sends a key of 8, 16 or 32 bytes, reversed. */
    method Key(sizeIdx: byte, key: seq<byte>) returns (s: Status)
      requires Valid() && sizeIdx < 4
      modifies transport.Repr
      ensures Valid() && s in {Ok, ErrTransport, ErrParam}
      ensures s == ErrParam <==> |key| != KeyLength(sizeIdx) || |key| > 32
      ensures if s == ErrParam then Now() == old(Now()) else Ran(KeyScript(sizeIdx, key), old(Now()), Now(), s, [])
      ensures key == NVM_KEY ==> Grew(old(Now()).log, Now().log, ReadOnly)
      ensures key == ERASE_KEY ==> Grew(old(Now()).log, Now().log, Unlocking)
      ensures Live(old(Now())) && sizeIdx == KEY_64 && |key| == 8 ==>
                s == Ok && Live(Now()) && Chip() == ArmKey(old(Chip()), key)
    {
      if |key| != KeyLength(sizeIdx) || |key| > 32 {
        return ErrParam;
      }
      ghost var w0 := Now();
      var script := KeyScript(sizeIdx, key);
      assert script == [Tx(KeyFrame(sizeIdx))] + [Tx(Reverse(key))];
      RemainsAll(script, w0);
      var ok := SendRaw(KeyFrame(sizeIdx));
      s := if ok then Ok else ErrTransport;
      Advance([Tx(KeyFrame(sizeIdx))], [Tx(Reverse(key))], w0, Now(), s, [], [], script, w0);
      if ok {
        var rev := Reversed(key);
        ok := SendRaw(rev);
        s := if ok then Ok else ErrTransport;
      }
      if key == NVM_KEY {
        RanWithin(script, w0, Now(), s, [], ReadOnly);
      }
      if key == ERASE_KEY {
        RanWithin(script, w0, Now(), s, [], Unlocking);
      }
      if Live(w0) && sizeIdx == KEY_64 && |key| == 8 {
        RanFollows(script, w0, Now(), s, []);
        PerformKey(key, w0.target);
      }
    }

    method ReadSib(size: nat) returns (s: Status, buf: seq<byte>)
      requires Valid()
      modifies transport.Repr
      ensures Valid() && s in {Ok, ErrTransport, ErrTimeout} && |buf| <= size
      ensures Ran(SibScript(size), old(Now()), Now(), s, buf)
      ensures Grew(old(Now()).log, Now().log, ReadOnly)
      ensures Live(old(Now())) && size >= 8 ==>
                s == Ok && Live(Now()) && Chip() == old(Chip())
                && var n := SibLength(SibSelector(size)); buf == SibBytes(Chip().cfg.sib, n)[..Min(n, size)]
    {
      ghost var w0 := Now();
      var script := SibScript(size);
      var selector := if size >= 32 then 2 else if size >= 16 then 1 else 0;
      assert script == [Tx(SibFrame(selector))] + [ReadSome(size)];
      RemainsAll(script, w0);
      var ok := SendRaw(SibFrame(selector));
      s := if ok then Ok else ErrTransport;
      buf := [];
      Advance([Tx(SibFrame(selector))], [ReadSome(size)], w0, Now(), s, [], [], script, w0);
      if ok {
        buf := RecvRaw(size);
        s := if |buf| > 0 then Ok else ErrTimeout;
      }
      RanWithin(script, w0, Now(), s, buf, ReadOnly);
      if Live(w0) && size >= 8 {
        RanFollows(script, w0, Now(), s, buf);
        PerformSib(size, w0.target);
      }
    }

    // ---- block read and write ----

    method ReadData(address: u32, size: nat) returns (s: Status, buf: seq<byte>)
      requires Valid()
      modifies transport.Repr
      ensures Valid() && s in {Ok, ErrTransport, ErrNack, ErrTimeout, ErrParam}
      ensures (s == ErrParam <==> size > MAX_REPEAT) && (s == Ok ==> |buf| == size)
      ensures if s == ErrParam then Now() == old(Now())
              else Ran(ReadDataScript(addressBytes, address, size), old(Now()), Now(), s, buf)
      ensures Grew(old(Now()).log, Now().log, ReadOnly)
      ensures Live(old(Now())) && 1 <= size <= MAX_REPEAT ==>
                s == Ok && Live(Now()) && Chip() == old(Chip())
                && buf == ReadSeq(Chip(), address % AddressSpace(addressBytes), size)
    {
      buf := [];
      if size > MAX_REPEAT {
        return ErrParam, [];
      }
      ghost var w0 := Now();
      ghost var ptr := StPtrScript(addressBytes, address);
      ghost var tail := RepeatIfMany(size) + LdIncScript(size);
      ghost var script := ReadDataScript(addressBytes, address, size);
      assert script == ptr + tail;
      RemainsAll(script, w0);
      s := StPtr(address);
      Advance(ptr, tail, w0, Now(), s, [], [], script, w0);
      if s == Ok && size > 1 {
        ghost var w1 := Now();
        s := Repeat(size);
        Advance(RepeatScript(size), LdIncScript(size), w1, Now(), s, [], [], script, w0);
      } else {
        assert size <= 1 ==> tail == LdIncScript(size);
      }
      if s == Ok {
        s, buf := LdPtrInc(size);
      }
      WithinReadData(addressBytes, address, size);
      RanWithin(script, w0, Now(), s, buf, ReadOnly);
      if Live(w0) && size >= 1 {
        RanFollows(script, w0, Now(), s, buf);
        PerformReadData(addressBytes, address, size, w0.target);
      }
    }

    method ReadDataWords(address: u32, words: nat) returns (s: Status, buf: seq<byte>)
      requires Valid()
      modifies transport.Repr
      ensures Valid() && (s == ErrParam <==> words > MAX_REPEAT / 2) && (s == Ok ==> |buf| == 2 * words)
      ensures if s == ErrParam then Now() == old(Now())
              else Ran(ReadWordsScript(addressBytes, address, words), old(Now()), Now(), s, buf)
      ensures Live(old(Now())) && 1 <= words <= MAX_REPEAT / 2 ==>
                s == Ok && Live(Now()) && Chip() == old(Chip())
                && buf == ReadSeq(Chip(), address % AddressSpace(addressBytes), 2 * words)
    {
      buf := [];
      if words > MAX_REPEAT / 2 {
        return ErrParam, [];
      }
      ghost var w0 := Now();
      ghost var ptr := StPtrScript(addressBytes, address);
      ghost var tail := RepeatIfMany(words) + LdInc16Script(words);
      ghost var script := ReadWordsScript(addressBytes, address, words);
      assert script == ptr + tail;
      RemainsAll(script, w0);
      s := StPtr(address);
      Advance(ptr, tail, w0, Now(), s, [], [], script, w0);
      if s == Ok && words > 1 {
        ghost var w1 := Now();
        s := Repeat(words);
        Advance(RepeatScript(words), LdInc16Script(words), w1, Now(), s, [], [], script, w0);
      } else {
        assert words <= 1 ==> tail == LdInc16Script(words);
      }
      if s == Ok {
        s, buf := LdPtrInc16(words);
      }
      if Live(w0) && words >= 1 {
        RanFollows(script, w0, Now(), s, buf);
        PerformReadWords(addressBytes, address, words, w0.target);
      }
    }

    /** More than one word: pointer, REPEAT, then the ACK-less block. */
    method WriteWordBlock(address: u32, data: seq<byte>) returns (s: Status)
      requires Valid() && WordsOk(|data|) && |data| != 2
      modifies `ackEnabled, transport.Repr
      ensures Valid() && s != ErrParam && (s == Ok ==> ackEnabled)
      ensures Ran(WordsScript(addressBytes, address, data), old(Now()), Now(), s, [])
    {
      ghost var w0 := Now();
      ghost var ptr := StPtrScript(addressBytes, address);
      ghost var tail := StInc16BlockScript(data);
      ghost var script := WordsScript(addressBytes, address, data);
      assert script == ptr + (RepeatScript(|data| / 2) + tail);
      RemainsAll(script, w0);
      s := StPtr(address);
      Advance(ptr, RepeatScript(|data| / 2) + tail, w0, Now(), s, [], [], script, w0);
      if s != Ok {
        return;
      }
      ghost var w1 := Now();
      s := Repeat(|data| / 2);
      Advance(RepeatScript(|data| / 2), tail, w1, Now(), s, [], [], script, w0);
      if s != Ok {
        return;
      }
      s := StPtrInc16Block(data);
    }

    method WriteDataWords(address: u32, data: seq<byte>) returns (s: Status)
      requires Valid()
      modifies `ackEnabled, transport.Repr
      ensures Valid() && (s == ErrParam <==> !WordsOk(|data|))
      ensures if s == ErrParam then Now() == old(Now())
              else Ran(WordsScript(addressBytes, address, data), old(Now()), Now(), s, [])
      ensures s == Ok && |data| > 2 ==> ackEnabled
      ensures s == Ok && |data| == 2 ==> ackEnabled == old(ackEnabled)
      ensures Live(old(Now())) && s != ErrParam ==>
                var stored := StoreSeq(old(Chip()), address % AddressSpace(addressBytes), data);
                s == Ok && Live(Now()) && Chip() == if |data| == 2 then stored else WithAckOn(stored)
    {
      if |data| == 0 || |data| % 2 == 1 {
        return ErrParam;
      }
      ghost var w0 := Now();
      if |data| == 2 {
        s := St16(address, Word(data[0], data[1]));
        assert WordsScript(addressBytes, address, data) == StWordScript(addressBytes, address, data[0], data[1]);
      } else {
        if |data| > 2 * MAX_REPEAT {
          return ErrParam;
        }
        s := WriteWordBlock(address, data);
      }
      if Live(w0) {
        RanFollows(WordsScript(addressBytes, address, data), w0, Now(), s, []);
        PerformWords(addressBytes, address, data, w0.target);
      }
    }

    /** One block of at most 256 bytes under REPEAT. */
    method WriteChunk(address: u32, data: seq<byte>) returns (s: Status)
      requires Valid() && 1 <= |data| <= MAX_REPEAT
      modifies transport.Repr
      ensures Valid() && s != ErrParam && Ran(ChunkScript(addressBytes, address, data), old(Now()), Now(), s, [])
    {
      ghost var w0 := Now();
      ghost var ptr := StPtrScript(addressBytes, address);
      ghost var script := ChunkScript(addressBytes, address, data);
      assert script == ptr + (RepeatScript(|data|) + StIncScript(data));
      RemainsAll(script, w0);
      s := StPtr(address);
      Advance(ptr, RepeatScript(|data|) + StIncScript(data), w0, Now(), s, [], [], script, w0);
      if s != Ok {
        return;
      }
      ghost var w1 := Now();
      s := Repeat(|data|);
      Advance(RepeatScript(|data|), StIncScript(data), w1, Now(), s, [], [], script, w0);
      if s != Ok {
        return;
      }
      s := StPtrInc(data);
    }

    method WriteChunks(address: u32, data: seq<byte>) returns (s: Status)
      requires Valid()
      modifies transport.Repr
      ensures Valid() && s != ErrParam
      ensures Ran(ChunksScript(addressBytes, address, data), old(Now()), Now(), s, [])
    {
      ghost var w0 := Now();
      ghost var script := ChunksScript(addressBytes, address, data);
      RemainsAll(script, w0);
      var index: nat, at: u32, numbytes: nat := 0, address, |data|;
      assert data[0..] == data;
      while numbytes > 0
        invariant Valid() && index + numbytes == |data|
        invariant Remains(ChunksScript(addressBytes, at, data[index..]), Now(), [], script, w0)
      {
        var chunk := if numbytes > MAX_REPEAT then MAX_REPEAT else numbytes;
        ghost var w := Now();
        var block := data[index..index + chunk];
        ChunksStep(addressBytes, at, data, index, chunk);
        s := WriteChunk(at, block);
        Advance(ChunkScript(addressBytes, at, block),
                ChunksScript(addressBytes, (at + chunk) % U32, data[index + chunk..]),
                w, Now(), s, [], [], script, w0);
        if s != Ok {
          return;
        }
        index, at, numbytes := index + chunk, (at + chunk) % U32, numbytes - chunk;
      }
      RemainsNothing(Now(), [], script, w0);
      s := Ok;
    }

    method WriteData(address: u32, data: seq<byte>) returns (s: Status)
      requires Valid()
      modifies transport.Repr
      ensures Valid() && (s == ErrParam <==> data == [])
      ensures if s == ErrParam then Now() == old(Now())
              else Ran(WriteDataScript(addressBytes, address, data), old(Now()), Now(), s, [])
      ensures Live(old(Now())) && data != [] && address + |data| <= AddressSpace(addressBytes) ==>
                s == Ok && Live(Now()) && Chip() == StoreSeq(old(Chip()), address, data)
      ensures |data| == 1 ==> Grew(old(Now()).log, Now().log, Commanding(addressBytes, address, {data[0]}))
    {
      ghost var w0 := Now();
      if |data| == 0 {
        return ErrParam;
      }
      ghost var script := WriteDataScript(addressBytes, address, data);
      RemainsAll(script, w0);
      if |data| == 1 {
        s := StByte(address, data[0]);
      } else if |data| == 2 {
        ghost var rest := StByteScript(addressBytes, (address + 1) % U32, data[1]);
        s := StByte(address, data[0]);
        Advance(StByteScript(addressBytes, address, data[0]), rest, w0, Now(), s, [], [], script, w0);
        if s == Ok {
          s := StByte((address + 1) % U32, data[1]);
        }
      } else {
        s := WriteChunks(address, data);
      }
      if Live(w0) && address + |data| <= AddressSpace(addressBytes) {
        RanFollows(script, w0, Now(), s, []);
        PerformWriteData(addressBytes, address, data, w0.target);
      }
    }
  }

  lemma WordsWithin(ab: AddressBytes, register: u32, codes: set<byte>, address: u32, data: seq<byte>)
    requires WordsOk(|data|)
    ensures ScriptWithin(WordsScript(ab, address, data), Storing(ab, register, codes, address, |data|))
  {}
}
