/**
 The pymcuprog classes this code was ported from, as readers of a transcript: each one sends what
 the Python code sends, takes its answers from the transcript, and returns, raises, or finds that
 the transcript shows something else. Its timers read the clock that the C code read.
 */
module Pymcuprog {
  import opened Bytes
  import opened Protocol
  import opened WireLog
  import opened Polling

  // ---- link.py: the 16-bit and the 24-bit data link ----

  function Address16(a: nat): seq<byte> { [a % 256, a / 256 % 256] }

  function Address24(a: nat): seq<byte> { [a % 256, a / 256 % 256, a / 65536 % 256] }

  function Ld(ab: AddressBytes, a: nat): Script {
    [Tx(if ab == 2 then [SYNC, LDS + ADDRESS_16 + DATA_8] + Address16(a)
        else [SYNC, LDS + ADDRESS_24 + DATA_8] + Address24(a)),
     Read(1)]
  }

  function St(ab: AddressBytes, a: nat, value: byte): Script {
    [Tx(if ab == 2 then [SYNC, STS + ADDRESS_16 + DATA_8] + Address16(a)
        else [SYNC, STS + ADDRESS_24 + DATA_8] + Address24(a)),
     Ack, Tx([value]), Ack]
  }

  function St16(ab: AddressBytes, a: nat, value: nat): Script {
    [Tx(if ab == 2 then [SYNC, STS + ADDRESS_16 + DATA_16] + Address16(a)
        else [SYNC, STS + ADDRESS_24 + DATA_16] + Address24(a)),
     Ack, Tx([value % 256, value / 256 % 256]), Ack]
  }

  function StPtr(ab: AddressBytes, a: nat): Script {
    [Tx(if ab == 2 then [SYNC, ST + PTR_ADDRESS + DATA_16] + Address16(a)
        else [SYNC, ST + PTR_ADDRESS + DATA_24] + Address24(a)),
     Ack]
  }

  /** repeat, with the bound it checks; a negative number masked to a byte wraps. */
  function Repeat(repeats: int): Instruction {
    if repeats - 1 > MAX_REPEAT then Refused else Sends([Tx([SYNC, REPEAT, (repeats - 1) % 256])])
  }

  function RepeatOp(repeats: nat): Script
    requires repeats <= MAX_REPEAT
  {
    Repeat(repeats).script
  }

  /** The while loop of st_ptr_inc from its current index on. */
  function StPtrIncLoop(data: seq<byte>, num: nat): Script
    decreases |data| - num
  {
    if num < |data| then [Tx([data[num]]), Ack] + StPtrIncLoop(data, num + 1) else []
  }

  function StPtrInc(data: seq<byte>): Script
    requires data != []
  {
    [Tx([SYNC, ST + PTR_INC + DATA_8, data[0]]), Ack] + StPtrIncLoop(data, 1)
  }

  function StPtrInc16(data: seq<byte>): Script {
    if |data| == 2 then [Tx([SYNC, ST + PTR_INC + DATA_16, data[0], data[1]]), Ack]
    else
      [Tx([SYNC, STCS + CS_CTRLA, 0x88]), Tx([SYNC, ST + PTR_INC + DATA_16]), Tx(data),
       Tx([SYNC, STCS + CS_CTRLA, 0x80])]
  }

  // ---- readwrite.py ----

  function WriteDataLoop(ab: AddressBytes, address: nat, data: seq<byte>, index: nat, numbytes: nat): Script
    requires index + numbytes == |data|
    decreases numbytes
  {
    if numbytes == 0 then []
    else
      var chunk := if numbytes > 256 then 256 else numbytes;
      StPtr(ab, address) + RepeatOp(chunk) + StPtrInc(data[index..index + chunk])
      + WriteDataLoop(ab, address + chunk, data, index + chunk, numbytes - chunk)
  }

  function WriteData(ab: AddressBytes, address: nat, data: seq<byte>): Script {
    if |data| == 1 then St(ab, address, data[0])
    else if |data| == 2 then St(ab, address, data[0]) + St(ab, address + 1, data[1])
    else WriteDataLoop(ab, address, data, 0, |data|)
  }

  /** Its only range check is the one above 512 bytes. */
  function WriteDataWords(ab: AddressBytes, address: nat, data: seq<byte>): Script
    requires |data| <= 512
  {
    if |data| == 2 then St16(ab, address, Word(data[0], data[1]))
    else StPtr(ab, address) + RepeatOp(|data| / 2) + StPtrInc16(data)
  }

  function WriteDataWordsCall(ab: AddressBytes, address: nat, data: seq<byte>): Instruction {
    if |data| > 512 then Refused else Sends(WriteDataWords(ab, address, data))
  }

  // ---- the C scripts are the Python ones ----

  lemma LowByte(k: nat, r: nat)
    ensures (256 * k + r) % 256 == r % 256
  {}

  lemma Quotient256(k: nat, r: nat)
    ensures (256 * k + r) / 256 == k + r / 256
  {}

  /** The low three bytes of an address survive the wrap at 32 bits. */
  lemma LowBytesWrap(a: nat)
    ensures a % U32 % 256 == a % 256
    ensures a % U32 / 256 % 256 == a / 256 % 256
    ensures a % U32 / 65536 % 256 == a / 65536 % 256
  {
    var q, r := a / U32, a % U32;
    LowByte(0x100_0000 * q, r);
    Quotient256(0x100_0000 * q, r);
    LowByte(0x1_0000 * q, r / 256);
    Quotient256(0x1_0000 * q, r / 256);
    LowByte(0x100 * q, r / 256 / 256);
    assert a / 256 / 256 == a / 65536 && r / 256 / 256 == r / 65536;
  }

  lemma SameFrames(ab: AddressBytes, a: nat, value: byte)
    ensures LdByteScript(ab, a % U32) == Ld(ab, a)
    ensures StByteScript(ab, a % U32, value) == St(ab, a, value)
    ensures StPtrScript(ab, a % U32) == StPtr(ab, a)
  {
    LowBytesWrap(a);
    assert AddressField(ab, a % U32) == if ab == 2 then Address16(a) else Address24(a);
    assert StByteScript(ab, a % U32, value)[0] == St(ab, a, value)[0];
  }

  lemma SameWord(ab: AddressBytes, a: nat, value: nat)
    ensures StWordScript(ab, a % U32, value % 256, value / 256 % 256) == St16(ab, a, value)
  {
    LowBytesWrap(a);
    assert AddressField(ab, a % U32) == if ab == 2 then Address16(a) else Address24(a);
    assert StWordScript(ab, a % U32, value % 256, value / 256 % 256)[0] == St16(ab, a, value)[0];
  }

  /** The counts at which they differ: the bytes sent are those for 256 and for 1. */
  lemma RepeatOffByOne()
    ensures RepeatOf(257) == Refused && Repeat(257) == Sends(RepeatScript(1)) == Sends([Tx([SYNC, REPEAT, 0])])
    ensures RepeatOf(0) == Refused && Repeat(0) == Sends(RepeatScript(256)) == Sends([Tx([SYNC, REPEAT, 255])])
  {}

  /**
   For every count, C and Python do the same exactly when it is a legal one or both refuse it. That
   leaves out 0, which Python sends as 256, and 257, which it sends as 1.
   */
  lemma SameRepeat(count: nat)
    ensures RepeatOf(count) == Repeat(count) <==>
      1 <= count <= MAX_REPEAT || (RepeatOf(count).Refused? && Repeat(count).Refused?)
    ensures RepeatOf(count) == Repeat(count) <==> count != 0 && count != 257
  {
    if count == 0 || count == 257 {
      RepeatOffByOne();
    }
  }

  lemma {:induction false} SameStream(data: seq<byte>, num: nat)
    requires num <= |data|
    ensures StreamScript(data[num..]) == StPtrIncLoop(data, num)
    decreases |data| - num
  {
    if num < |data| {
      assert data[num..][1..] == data[num + 1..];
      SameStream(data, num + 1);
    }
  }

  lemma WrapAdd(a: nat, n: nat)
    ensures (a % U32 + n) % U32 == (a + n) % U32
  {
    var q := a / U32;
    assert a + n == U32 * q + (a % U32 + n);
  }

  lemma LoopStep(ab: AddressBytes, address: nat, data: seq<byte>, index: nat, chunk: nat)
    requires index < |data| && chunk == Min(|data| - index, MAX_REPEAT)
    ensures WriteDataLoop(ab, address, data, index, |data| - index)
         == StPtr(ab, address) + RepeatOp(chunk) + StPtrInc(data[index..index + chunk])
            + WriteDataLoop(ab, address + chunk, data, index + chunk, |data| - index - chunk)
  {}

  lemma SameChunk(ab: AddressBytes, address: nat, block: seq<byte>)
    requires 1 <= |block| <= MAX_REPEAT
    ensures ChunkScript(ab, address % U32, block) == StPtr(ab, address) + RepeatOp(|block|) + StPtrInc(block)
  {
    SameFrames(ab, address, 0);
    SameStream(block, 1);
    assert StIncFrame(DATA_8) + [block[0]] == [SYNC, ST + PTR_INC + DATA_8, block[0]];
  }

  /** One round of the two loops. */
  lemma SameRound(ab: AddressBytes, address: nat, data: seq<byte>, index: nat, chunk: nat)
    requires index < |data| && chunk == Min(|data| - index, MAX_REPEAT)
    requires ChunksScript(ab, (address + chunk) % U32, data[index + chunk..])
          == WriteDataLoop(ab, address + chunk, data, index + chunk, |data| - index - chunk)
    ensures ChunksScript(ab, address % U32, data[index..])
         == WriteDataLoop(ab, address, data, index, |data| - index)
  {
    var block := data[index..index + chunk];
    var head := ChunkScript(ab, address % U32, block);
    var rest := ChunksScript(ab, (address + chunk) % U32, data[index + chunk..]);
    WrapAdd(address, chunk);
    SameChunk(ab, address, block);
    LoopStep(ab, address, data, index, chunk);
    assert WriteDataLoop(ab, address, data, index, |data| - index) == head + rest;
    ChunksStep(ab, address % U32, data, index, chunk);
  }

  lemma {:induction false} SameLoop(ab: AddressBytes, address: nat, data: seq<byte>, index: nat)
    requires index <= |data|
    ensures ChunksScript(ab, address % U32, data[index..])
         == WriteDataLoop(ab, address, data, index, |data| - index)
    decreases |data| - index
  {
    if index < |data| {
      var chunk := Min(|data| - index, MAX_REPEAT);
      SameLoop(ab, address + chunk, data, index + chunk);
      SameRound(ab, address, data, index, chunk);
    }
  }

  lemma SameTwo(ab: AddressBytes, address: nat, data: seq<byte>)
    requires |data| == 2
    ensures WriteDataScript(ab, address % U32, data) == WriteData(ab, address, data)
  {
    SameFrames(ab, address, data[0]);
    SameFrames(ab, address + 1, data[1]);
    WrapAdd(address, 1);
  }

  /**
   write_data: C and Python do the same for every address and exactly the non-empty data. Python sends
   nothing for no data and goes on, C refuses it.
   */
  lemma SameWriteData(ab: AddressBytes, address: nat, data: seq<byte>)
    ensures WriteDataOf(ab, address % U32, data) == Sends(WriteData(ab, address, data)) <==> data != []
    ensures address < U32 && data != [] ==> WriteDataScript(ab, address, data) == WriteData(ab, address, data)
  {
    assert address < U32 ==> address % U32 == address;
    if data == [] {
      return;
    }
    if |data| == 1 {
      SameFrames(ab, address, data[0]);
    } else if |data| == 2 {
      SameTwo(ab, address, data);
    } else {
      assert data[0..] == data;
      SameLoop(ab, address, data, 0);
    }
  }

  lemma SameWords(ab: AddressBytes, address: nat, data: seq<byte>)
    requires WordsOk(|data|)
    ensures WordsScript(ab, address % U32, data) == WriteDataWords(ab, address, data)
    ensures address < U32 ==> WordsScript(ab, address, data) == WriteDataWords(ab, address, data)
  {
    assert address < U32 ==> address % U32 == address;
    LowBytesWrap(address);
    SameFrames(ab, address, 0);
    if |data| > 2 {
      assert StInc16BlockScript(data) == StPtrInc16(data);
      assert RepeatScript(|data| / 2) == RepeatOp(|data| / 2);
    } else {
      assert AddressField(ab, address % U32) == if ab == 2 then Address16(address) else Address24(address);
      assert WordsScript(ab, address % U32, data)[0] == WriteDataWords(ab, address, data)[0];
    }
  }

  /**
   write_data_words: for every length, C and Python do the same exactly when it is an even one from 2 to 512,
   or above 512, where both refuse. The others, 0 and the odd ones below, Python sends and C refuses.
   */
  lemma SameWriteDataWords(ab: AddressBytes, address: nat, data: seq<byte>)
    ensures WordsOf(ab, address % U32, data) == WriteDataWordsCall(ab, address, data)
            <==> WordsOk(|data|) || |data| > 512
    ensures address < U32 && WordsOk(|data|) ==> WordsScript(ab, address, data) == WriteDataWords(ab, address, data)
  {
    if WordsOk(|data|) {
      SameWords(ab, address, data);
    }
  }

  // ---- nvmp0.py and nvmp3.py ----

  /** How a Python call ends on a transcript and a clock, and what it leaves of both. */
  datatype Py =
    | Finished(rest: seq<Event>, ticks: seq<u32>)
    | Raised(rest: seq<Event>, ticks: seq<u32>)
    | TimedOut(rest: seq<Event>, ticks: seq<u32>)
    | Differs

  function Run(script: Script, io: seq<Event>, ticks: seq<u32>): Py {
    match Replay(script, io)
    case Stray => Differs
    case Outcome(status, _, rest) => if status == Ok then Finished(rest, ticks) else Raised(rest, ticks)
  }

  /** The time limit of wait_nvm_ready, in milliseconds. */
  const WAIT_MS: u32 := 100

  /** The loop of wait_nvm_ready with the masks of the variant; the clock is read before each status. */
  function WaitReady(ab: AddressBytes, status: nat, errors: byte, busy: byte, start: u32,
                     io: seq<Event>, ticks: seq<u32>): Py
    decreases |ticks|
  {
    if ticks == [] then Differs
    else if (ticks[0] - start) % U32 > WAIT_MS then TimedOut(io, ticks[1..])
    else
      match Replay(Ld(ab, status), io)
      case Stray => Differs
      case Outcome(s, data, rest) =>
        if s != Ok || |data| != 1 || And(data[0], errors) != 0 then Raised(rest, ticks[1..])
        else if And(data[0], busy) == 0 then Finished(rest, ticks[1..])
        else WaitReady(ab, status, errors, busy, start, rest, ticks[1..])
  }

  /**
   A statement of an NVM method: wait until ready, and raise when timed out; the same, but make one call
   before that, timed out or not; or do one call on the read/write layer.
   */
  datatype Act =
    | Wait(status: nat, errors: byte, busy: byte)
    | WaitClearing(status: nat, errors: byte, busy: byte, clear: Script)
    | Do(script: Script)

  /** The first reading of the clock starts the timer, and serves its first test as well. */
  function PlayOne(ab: AddressBytes, act: Act, io: seq<Event>, ticks: seq<u32>): Py {
    if act.Do? then Run(act.script, io, ticks)
    else if ticks == [] then Differs
    else
      var p := WaitReady(ab, act.status, act.errors, act.busy, ticks[0], io, ticks);
      if act.Wait? then if p.TimedOut? then Raised(p.rest, p.ticks) else p
      else if p.Finished? then Run(act.clear, p.rest, p.ticks)
      else if p.TimedOut? then
        var q := Run(act.clear, p.rest, p.ticks);
        if q.Finished? then Raised(q.rest, q.ticks) else q
      else p
  }

  /** A method body; an exception ends it. */
  function Play(ab: AddressBytes, acts: seq<Act>, io: seq<Event>, ticks: seq<u32>): Py
    decreases |acts|
  {
    if acts == [] then Finished(io, ticks)
    else
      var p := PlayOne(ab, acts[0], io, ticks);
      if p.Finished? then Play(ab, acts[1..], p.rest, p.ticks) else p
  }

  // NvmUpdiP0
  function P0Wait(base: nat): Act { Wait(base + 0x02, 4, 3) }

  function P0Command(ab: AddressBytes, base: nat, command: byte): Act { Do(St(ab, base + 0x00, command)) }

  function P0ChipErase(ab: AddressBytes, base: nat): seq<Act> {
    [P0Wait(base), P0Command(ab, base, 0x05), P0Wait(base)]
  }

  function P0EraseFlashPage(ab: AddressBytes, base: nat, address: nat): seq<Act> {
    [P0Wait(base), Do(WriteData(ab, address, [0xFF])), P0Command(ab, base, 0x02), P0Wait(base)]
  }

  function P0WriteFlash(ab: AddressBytes, base: nat, address: nat, data: seq<byte>): seq<Act>
    requires 2 <= |data| <= 512
  {
    [P0Wait(base), P0Command(ab, base, 0x04), P0Wait(base), Do(WriteDataWords(ab, address, data)),
     P0Command(ab, base, 0x01), P0Wait(base)]
  }

  function P0WriteFuse(ab: AddressBytes, base: nat, address: nat, value: byte): seq<Act> {
    [P0Wait(base), Do(St(ab, base + 0x08, address % 256)), Do(St(ab, base + 0x08 + 1, address / 256 % 256)),
     Do(St(ab, base + 0x06, value)), P0Command(ab, base, 0x07), P0Wait(base)]
  }

  // NvmUpdiP3
  function P3Wait(base: nat): Act { Wait(base + 0x06, 0x70, 3) }

  function P3Command(ab: AddressBytes, base: nat, command: byte): Act { Do(St(ab, base + 0x00, command)) }

  /** The wait after an erase, and NOCMD whatever it returned. */
  function P3WaitClearing(ab: AddressBytes, base: nat): Act {
    WaitClearing(base + 0x06, 0x70, 3, St(ab, base + 0x00, 0x00))
  }

  function P3ChipErase(ab: AddressBytes, base: nat): seq<Act> {
    [P3Wait(base), P3Command(ab, base, 0x20), P3WaitClearing(ab, base)]
  }

  function P3EraseFlashPage(ab: AddressBytes, base: nat, address: nat): seq<Act> {
    [P3Wait(base), Do(WriteData(ab, address, [0xFF])), P3Command(ab, base, 0x08), P3WaitClearing(ab, base)]
  }

  /** write_nvm, loading the page buffer by the given call. */
  function P3WriteNvm(ab: AddressBytes, base: nat, load: Script, command: byte, clear: byte): seq<Act> {
    [P3Wait(base), P3Command(ab, base, clear), P3Wait(base), Do(load), P3Command(ab, base, command),
     P3Wait(base), P3Command(ab, base, 0x00)]
  }

  function P3WriteFlash(ab: AddressBytes, base: nat, address: nat, data: seq<byte>): seq<Act>
    requires 2 <= |data| <= 512
  {
    P3WriteNvm(ab, base, WriteDataWords(ab, address, data), 0x04, 0x0F)
  }

  function P3WriteFuse(ab: AddressBytes, base: nat, address: nat, value: byte): seq<Act> {
    P3WriteNvm(ab, base, WriteData(ab, address, [value]), 0x15, 0x1F)
  }

  // ---- running one statement after another ----

  lemma {:induction false} WaitReadyRest(ab: AddressBytes, status: nat, errors: byte, busy: byte, start: u32,
                                         io: seq<Event>, ticks: seq<u32>, more: seq<Event>, later: seq<u32>)
    requires WaitReady(ab, status, errors, busy, start, io, ticks).Finished?
    ensures var p := WaitReady(ab, status, errors, busy, start, io, ticks);
            WaitReady(ab, status, errors, busy, start, io + more, ticks + later)
            == Finished(p.rest + more, p.ticks + later)
    decreases |ticks|
  {
    ReplayRest(Ld(ab, status), io, more);
    var o := Replay(Ld(ab, status), io);
    assert (ticks + later)[1..] == ticks[1..] + later;
    if And(o.data[0], busy) != 0 {
      WaitReadyRest(ab, status, errors, busy, start, o.rest, ticks[1..], more, later);
    }
  }

  lemma PlayOneRest(ab: AddressBytes, act: Act, io: seq<Event>, ticks: seq<u32>, more: seq<Event>, later: seq<u32>)
    requires PlayOne(ab, act, io, ticks).Finished?
    ensures var p := PlayOne(ab, act, io, ticks);
            PlayOne(ab, act, io + more, ticks + later) == Finished(p.rest + more, p.ticks + later)
  {
    if act.Do? {
      ReplayRest(act.script, io, more);
    } else {
      WaitReadyRest(ab, act.status, act.errors, act.busy, ticks[0], io, ticks, more, later);
      if act.WaitClearing? {
        ReplayRest(act.clear, WaitReady(ab, act.status, act.errors, act.busy, ticks[0], io, ticks).rest, more);
      }
    }
  }

  lemma {:induction false} PlayThen(ab: AddressBytes, a: seq<Act>, b: seq<Act>, io: seq<Event>, ticks: seq<u32>,
                                    more: seq<Event>, later: seq<u32>)
    requires Play(ab, a, io, ticks) == Finished([], [])
    ensures Play(ab, a + b, io + more, ticks + later) == Play(ab, b, more, later)
    decreases |a|
  {
    if a == [] {
      assert a + b == b && io + more == more && ticks + later == later;
    } else {
      assert (a + b)[1..] == a[1..] + b;
      PlayOneRest(ab, a[0], io, ticks, more, later);
      var p := PlayOne(ab, a[0], io, ticks);
      PlayThen(ab, a[1..], b, p.rest, p.ticks, more, later);
    }
  }

  // ---- the wait on a transcript of status reads ----

  /** Status reads, each answered without error, and ready exactly at the last. */
  predicate ReadyLast(ab: AddressBytes, status: u32, errors: byte, busy: byte, io: seq<Event>) {
    Exchanges(LdsFrame(ab, status), io)
    && var a := Answers(io);
       a != [] && (forall k :: 0 <= k < |a| ==> a[k].Value? && And(a[k].value, errors) == 0)
       && (forall k :: 0 <= k < |a| ==> (And(a[k].value, busy) == 0 <==> k == |a| - 1))
  }

  lemma FirstStatus(ab: AddressBytes, status: u32, errors: byte, busy: byte, io: seq<Event>)
    returns (value: byte, rest: seq<Event>)
    requires ReadyLast(ab, status, errors, busy, io)
    ensures io == [Sent(LdsFrame(ab, status), true), Received(1, [value])] + rest && And(value, errors) == 0
    ensures Answers(io) == [Value(value)] + Answers(rest)
    ensures if rest == [] then And(value, busy) == 0
            else And(value, busy) != 0 && ReadyLast(ab, status, errors, busy, rest)
  {
    var a := Answers(io);
    assert a[0].Value?;
    assert io[0] == Sent(LdsFrame(ab, status), true) && io[1] == Received(1, [a[0].value]);
    value, rest := a[0].value, io[2..];
    assert a == [Value(value)] + Answers(rest);
    if rest != [] {
      assert Answers(rest) != [];
      assert forall k :: 0 <= k < |Answers(rest)| ==> Answers(rest)[k] == a[k + 1];
    }
  }

  /** One round of the Python loop, in time and without error. */
  lemma WaitStep(ab: AddressBytes, status: u32, errors: byte, busy: byte, start: u32, value: byte, rest: seq<Event>,
                 now: u32, later: seq<u32>)
    requires (now - start) % U32 <= WAIT_MS && And(value, errors) == 0
    ensures WaitReady(ab, status, errors, busy, start,
                      [Sent(LdsFrame(ab, status), true), Received(1, [value])] + rest, [now] + later)
            == if And(value, busy) == 0 then Finished(rest, later)
               else WaitReady(ab, status, errors, busy, start, rest, later)
  {
    SameFrames(ab, status, 0);
    var io := [Sent(LdsFrame(ab, status), true), Received(1, [value])] + rest;
    assert Ld(ab, status)[1..] == [Read(1)] && [Read(1)][1..] == [] && io[1..][1..] == rest;
    assert Replay([], rest) == Outcome(Ok, [], rest) && [value] + [] == [value];
    assert Replay([Read(1)], io[1..]) == Outcome(Ok, [value], rest);
    assert Replay(Ld(ab, status), io) == Outcome(Ok, [value], rest);
    assert ([now] + later)[1..] == later;
  }

  /**
   Busy answers keep the Python loop reading; the first ready one ends it, when no reading of the clock, one
   before each status read, is late.
   */
  lemma {:induction false} WaitRest(ab: AddressBytes, status: u32, errors: byte, busy: byte, start: u32,
                                    io: seq<Event>, ticks: seq<u32>, more: seq<Event>, later: seq<u32>)
    requires ReadyLast(ab, status, errors, busy, io) && |ticks| == |Answers(io)| && Within(WAIT_MS, start, ticks)
    ensures WaitReady(ab, status, errors, busy, start, io + more, ticks + later) == Finished(more, later)
    decreases |ticks|
  {
    var value, rest := FirstStatus(ab, status, errors, busy, io);
    assert io + more == [Sent(LdsFrame(ab, status), true), Received(1, [value])] + (rest + more);
    assert ticks + later == [ticks[0]] + (ticks[1..] + later);
    WaitStep(ab, status, errors, busy, start, value, rest + more, ticks[0], ticks[1..] + later);
    if rest == [] {
      assert rest + more == more && ticks[1..] + later == later;
    } else {
      WaitRest(ab, status, errors, busy, start, rest, ticks[1..], more, later);
    }
  }

  lemma WaitOver(ab: AddressBytes, status: u32, errors: byte, busy: byte, start: u32, io: seq<Event>, now: u32,
                 later: seq<u32>)
    requires (now - start) % U32 > WAIT_MS
    ensures WaitReady(ab, status, errors, busy, start, io, [now] + later) == TimedOut(io, later)
  {
    assert ([now] + later)[1..] == later;
  }

  lemma LateLater(start: u32, ticks: seq<u32>)
    requires ticks != [] && !Within(WAIT_MS, start, ticks) && (ticks[0] - start) % U32 <= WAIT_MS
    ensures |ticks| > 1 && !Within(WAIT_MS, start, ticks[1..])
  {
    assert forall k :: 1 <= k < |ticks| ==> ticks[k] == ticks[1..][k - 1];
  }

  /** When a reading is late, the Python loop times out before one of the status reads. */
  lemma {:induction false} WaitLate(ab: AddressBytes, status: u32, errors: byte, busy: byte, start: u32,
                                    io: seq<Event>, ticks: seq<u32>, more: seq<Event>, later: seq<u32>)
    requires ReadyLast(ab, status, errors, busy, io) && |ticks| == |Answers(io)| && !Within(WAIT_MS, start, ticks)
    ensures var p := WaitReady(ab, status, errors, busy, start, io + more, ticks + later);
            p.TimedOut? && p.rest != [] && p.rest[0] == Sent(LdsFrame(ab, status), true)
    decreases |ticks|
  {
    var value, rest := FirstStatus(ab, status, errors, busy, io);
    assert io + more == [Sent(LdsFrame(ab, status), true), Received(1, [value])] + (rest + more);
    assert ticks + later == [ticks[0]] + (ticks[1..] + later);
    if (ticks[0] - start) % U32 <= WAIT_MS {
      LateLater(start, ticks);
      WaitLate(ab, status, errors, busy, start, rest, ticks[1..], more, later);
      WaitStep(ab, status, errors, busy, start, value, rest + more, ticks[0], ticks[1..] + later);
    } else {
      WaitOver(ab, status, errors, busy, start, io + more, ticks[0], ticks[1..] + later);
    }
  }
}
