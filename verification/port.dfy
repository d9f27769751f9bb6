/**
 Port equivalence: a successful run of a table-driven NVM operation is a run of the hard-coded
 pymcuprog class for that variant, fed the same answers.
 */
module PortEquivalence {
  import opened Bytes
  import opened Protocol
  import opened WireLog
  import opened Polling
  import opened Devices
  import opened Pymcuprog

  function StatusFrame(ab: AddressBytes, base: u24, v: Variant): seq<byte> {
    LdsFrame(ab, base + Desc(v).regStatus)
  }

  function StatusPatience(v: Variant): Patience { WhileBusy(Desc(v).statusWrerrMask, Desc(v).statusBusyMask) }

  predicate IsReady(v: Variant, a: Answer) {
    a.Value? && And(a.value, Desc(v).statusWrerrMask) == 0 && And(a.value, Desc(v).statusBusyMask) == 0
  }

  /**
   The status was polled until an answer showed neither error nor busy. The clock was read at the start and
   between the reads, and never passed the time limit.
   */
  predicate ReadyAfter(ab: AddressBytes, base: u24, v: Variant, limit: u32, w: Wire, w': Wire) {
    Polled(StatusFrame(ab, base, v), StatusPatience(v), w, w') && IsReady(v, LastAnswer(w, w'))
    && Paced(limit, w, w', |Answers(Since(w, w'))|)
  }

  /** No clock reading of a wait is too late for the timer of the Python code. */
  predicate Prompt(w: Wire, w': Wire)
    requires w.ticks < w'.ticks
  {
    Within(WAIT_MS, w'.ticks[|w.ticks|], Readings(w, w'))
  }

  ghost predicate Commanded(ab: AddressBytes, base: u24, v: Variant, command: byte, w: Wire, w': Wire, s: Status) {
    Ran(StByteScript(ab, base + Desc(v).regCtrla, command), w, w', s, [])
  }

  predicate EndsWithAck(log: seq<Event>) { log != [] && log[|log| - 1] == Received(1, [ACK]) }

  /** An acknowledged store is exactly one whose transcript ends with the ACK of its data. */
  lemma StoreEndsWithAck(ab: AddressBytes, a: u32, value: byte, w: Wire, w': Wire, s: Status)
    requires Ran(StByteScript(ab, a, value), w, w', s, [])
    ensures s == Ok <==> EndsWithAck(w'.log)
  {
    var io := Since(w, w');
    var script := StByteScript(ab, a, value);
    RanFollows(script, w, w', s, []);
    assert script == [Tx(StsFrame(ab, DATA_8, a)), Ack, Tx([value]), Ack];
    assert script[1..] == [Ack, Tx([value]), Ack] && script[1..][1..] == [Tx([value]), Ack];
    assert [Tx([value]), Ack][1..] == [Ack] && [Ack][1..] == [];
    assert w'.log == w.log + io && io != [];
    assert w'.log[|w'.log| - 1] == io[|io| - 1];
    if io[0].ok {
      var io1 := io[1..];
      assert Replay([Ack, Tx([value]), Ack], io1).Outcome? && io1 != [];
      if io1[0] == Received(1, [ACK]) {
        var io2 := io1[1..];
        assert Replay([Tx([value]), Ack], io2).Outcome? && io2 != [];
        if io2[0].ok {
          var io3 := io2[1..];
          assert Replay([Ack], io3).Outcome? && io3 != [];
          assert Replay([], io3[1..]) == Outcome(Ok, [], io3[1..]);
          assert io3[1..] == [] && io[|io| - 1] == io3[0];
        } else {
          assert io2[1..] == [] && io[|io| - 1] == io2[0];
        }
      } else {
        assert io1[1..] == [] && io[|io| - 1] == io1[0];
      }
    } else {
      assert io[1..] == [];
    }
  }

  // ---- playing the Python methods along ----

  /** Transcript and clock from w to w' are exactly what these Python statements send, receive and read. Sealed. */
  ghost predicate Plays(ab: AddressBytes, acts: seq<Act>, w: Wire, w': Wire) {
    w.log <= w'.log && w.ticks <= w'.ticks
    && forall k: int {:trigger Unsealed(PlaysSeal, k)} :: Unsealed(PlaysSeal, k) ==>
      Play(ab, acts, Since(w, w'), Readings(w, w')) == Finished([], [])
  }

  /** What is played after statements that have been played. */
  lemma PlaysOn(ab: AddressBytes, a: seq<Act>, b: seq<Act>, w: Wire, w1: Wire, w2: Wire)
    requires Plays(ab, a, w, w1) && w1.log <= w2.log && w1.ticks <= w2.ticks
    ensures Play(ab, a + b, Since(w, w2), Readings(w, w2)) == Play(ab, b, Since(w1, w2), Readings(w1, w2))
  {
    assert Unsealed(PlaysSeal, 0);
    assert Since(w, w2) == Since(w, w1) + Since(w1, w2);
    assert Readings(w, w2) == Readings(w, w1) + Readings(w1, w2);
    PlayThen(ab, a, b, Since(w, w1), Readings(w, w1), Since(w1, w2), Readings(w1, w2));
  }

  lemma PlaysThen(ab: AddressBytes, a: seq<Act>, b: seq<Act>, w: Wire, w1: Wire, w2: Wire)
    requires Plays(ab, a, w, w1) && Plays(ab, b, w1, w2)
    ensures Plays(ab, a + b, w, w2)
  {
    assert Unsealed(PlaysSeal, 0);
    PlaysOn(ab, a, b, w, w1, w2);
  }

  lemma PlaysThree(ab: AddressBytes, a: seq<Act>, b: seq<Act>, c: seq<Act>, w: Wire, w1: Wire, w2: Wire, w3: Wire)
    requires Plays(ab, a, w, w1) && Plays(ab, b, w1, w2) && Plays(ab, c, w2, w3)
    ensures Plays(ab, a + b + c, w, w3)
  {
    PlaysThen(ab, a, b, w, w1, w2);
    PlaysThen(ab, a + b, c, w, w2, w3);
  }

  function PyWait(v: Variant, base: nat): Act { if v == P0 then P0Wait(base) else P3Wait(base) }

  function PyCommand(v: Variant, ab: AddressBytes, base: nat, command: byte): Act {
    if v == P0 then P0Command(ab, base, command) else P3Command(ab, base, command)
  }

  /** The transcript of a wait that ended ready, as the Python loop sees it. */
  lemma ReadyIsLast(ab: AddressBytes, base: u24, v: Variant, limit: u32, w: Wire, w': Wire)
    requires ReadyAfter(ab, base, v, limit, w, w')
    ensures ReadyLast(ab, base + Desc(v).regStatus, Desc(v).statusWrerrMask, Desc(v).statusBusyMask, Since(w, w'))
    ensures |Readings(w, w')| == |Answers(Since(w, w'))| && Readings(w, w')[0] == w'.ticks[|w.ticks|]
  {
    var a := Answers(Since(w, w'));
    assert forall k :: 0 <= k < |a| - 1 ==> Keeps(StatusPatience(v), a[k]);
    assert IsReady(v, a[|a| - 1]);
  }

  /** The loop of the Python wait, begun now. */
  function PyWaitReady(ab: AddressBytes, base: u24, v: Variant, io: seq<Event>, ticks: seq<u32>): Py
    requires ticks != []
  {
    WaitReady(ab, base + Desc(v).regStatus, Desc(v).statusWrerrMask, Desc(v).statusBusyMask, ticks[0], io, ticks)
  }

  /** On what follows, too, it ends where the C code ended its own wait, when no clock reading was late. */
  lemma WaitEnds(ab: AddressBytes, base: u24, v: Variant, limit: u32, w: Wire, mid: Wire, w': Wire)
    requires ReadyAfter(ab, base, v, limit, w, mid) && Prompt(w, mid) && mid.log <= w'.log && mid.ticks <= w'.ticks
    ensures Readings(w, w') != []
    ensures PyWaitReady(ab, base, v, Since(w, w'), Readings(w, w')) == Finished(Since(mid, w'), Readings(mid, w'))
  {
    ReadyIsLast(ab, base, v, limit, w, mid);
    assert Since(w, w') == Since(w, mid) + Since(mid, w');
    assert Readings(w, w') == Readings(w, mid) + Readings(mid, w');
    WaitRest(ab, base + Desc(v).regStatus, Desc(v).statusWrerrMask, Desc(v).statusBusyMask, mid.ticks[|w.ticks|],
             Since(w, mid), Readings(w, mid), Since(mid, w'), Readings(mid, w'));
  }

  predicate StoppedShort(ab: AddressBytes, base: u24, v: Variant, p: Py) {
    p.TimedOut? && p.rest != [] && p.rest[0] == Sent(StatusFrame(ab, base, v), true)
  }

  lemma LateOn(ab: AddressBytes, base: u24, v: Variant, io: seq<Event>, ticks: seq<u32>, more: seq<Event>,
               later: seq<u32>)
    requires ReadyLast(ab, base + Desc(v).regStatus, Desc(v).statusWrerrMask, Desc(v).statusBusyMask, io)
    requires |ticks| == |Answers(io)| && ticks != [] && !Within(WAIT_MS, ticks[0], ticks)
    ensures StoppedShort(ab, base, v, PyWaitReady(ab, base, v, io + more, ticks + later))
  {
    WaitLate(ab, base + Desc(v).regStatus, Desc(v).statusWrerrMask, Desc(v).statusBusyMask, ticks[0],
             io, ticks, more, later);
  }

  /** Otherwise it times out where the C code read the status once more. */
  lemma WaitEndsLate(ab: AddressBytes, base: u24, v: Variant, limit: u32, w: Wire, mid: Wire, w': Wire)
    requires ReadyAfter(ab, base, v, limit, w, mid) && !Prompt(w, mid) && mid.log <= w'.log && mid.ticks <= w'.ticks
    ensures Readings(w, w') != []
    ensures StoppedShort(ab, base, v, PyWaitReady(ab, base, v, Since(w, w'), Readings(w, w')))
  {
    ReadyIsLast(ab, base, v, limit, w, mid);
    assert Since(w, w') == Since(w, mid) + Since(mid, w');
    assert Readings(w, w') == Readings(w, mid) + Readings(mid, w');
    LateOn(ab, base, v, Since(w, mid), Readings(w, mid), Since(mid, w'), Readings(mid, w'));
  }

  lemma PlaysWait(ab: AddressBytes, base: u24, v: Variant, limit: u32, w: Wire, w': Wire)
    requires ReadyAfter(ab, base, v, limit, w, w') && Prompt(w, w')
    ensures Plays(ab, [PyWait(v, base)], w, w')
  {
    WaitEnds(ab, base, v, limit, w, w', w');
    assert Since(w', w') == [] && Readings(w', w') == [];
    assert [PyWait(v, base)][1..] == [];
  }

  lemma PlaysDo(ab: AddressBytes, script: Script, w: Wire, w': Wire, data: seq<byte>)
    requires Ran(script, w, w', Ok, data)
    ensures Plays(ab, [Do(script)], w, w')
  {
    RanFollows(script, w, w', Ok, data);
    assert [Do(script)][1..] == [];
  }

  lemma PlaysCommand(ab: AddressBytes, base: u24, v: Variant, command: byte, w: Wire, w': Wire)
    requires Commanded(ab, base, v, command, w, w', Ok)
    ensures Plays(ab, [PyCommand(v, ab, base, command)], w, w')
  {
    SameFrames(ab, base, command);
    PlaysDo(ab, St(ab, base, command), w, w', []);
  }

  /**
   What the Python run of a successful C run comes to. The C code ignores the result of the closing
   NOCMD store of P:3, so there the Python code finishes exactly when that store was acknowledged,
   and otherwise raises at the very end, having sent the same frames. Sealed.
   */
  ghost predicate Matches(v: Variant, ab: AddressBytes, acts: seq<Act>, w: Wire, w': Wire) {
    w.log <= w'.log && w.ticks <= w'.ticks
    && forall k: int {:trigger Unsealed(MatchesSeal, k)} :: Unsealed(MatchesSeal, k) ==>
         Play(ab, acts, Since(w, w'), Readings(w, w'))
         == if v == P0 || EndsWithAck(w'.log) then Finished([], []) else Raised([], [])
  }

  lemma MatchesMeans(v: Variant, ab: AddressBytes, acts: seq<Act>, w: Wire, w': Wire)
    requires w.log <= w'.log && w.ticks <= w'.ticks
    ensures Matches(v, ab, acts, w, w') <==>
      Play(ab, acts, Since(w, w'), Readings(w, w'))
      == (if v == P0 || EndsWithAck(w'.log) then Finished([], []) else Raised([], []))
  {
    assert Unsealed(MatchesSeal, 0);
  }

  /** On P:0 there is nothing to close. */
  lemma PlaysMatches(ab: AddressBytes, acts: seq<Act>, w: Wire, w': Wire)
    requires Plays(ab, acts, w, w')
    ensures Matches(P0, ab, acts, w, w')
  {
    assert Unsealed(PlaysSeal, 0);
    MatchesMeans(P0, ab, acts, w, w');
  }

  lemma NocmdPlayed(ab: AddressBytes, base: u24, w: Wire, w': Wire, s: Status)
    requires Commanded(ab, base, P3, 0, w, w', s)
    ensures Run(St(ab, base, 0), Since(w, w'), Readings(w, w'))
            == if EndsWithAck(w'.log) then Finished([], []) else Raised([], [])
  {
    SameFrames(ab, base, 0);
    StoreEndsWithAck(ab, base + Desc(P3).regCtrla, 0, w, w', s);
    RanFollows(St(ab, base, 0), w, w', s, []);
  }

  /** The closing NOCMD store after statements that have been played. */
  lemma MatchesNocmd(ab: AddressBytes, base: u24, acts: seq<Act>, w: Wire, w1: Wire, w2: Wire, s: Status)
    requires Plays(ab, acts, w, w1) && Commanded(ab, base, P3, 0, w1, w2, s)
    ensures Matches(P3, ab, acts + [P3Command(ab, base, 0)], w, w2)
  {
    PlaysOn(ab, acts, [P3Command(ab, base, 0)], w, w1, w2);
    NocmdPlayed(ab, base, w1, w2, s);
    assert [P3Command(ab, base, 0)][1..] == [];
    MatchesMeans(P3, ab, acts + [P3Command(ab, base, 0)], w, w2);
  }

  // ---- the wait that ends an erase ----

  /** After an erase: P:0 waits, P:3 waits and sends NOCMD. */
  function PyLastWait(v: Variant, ab: AddressBytes, base: nat): Act {
    if v == P0 then P0Wait(base) else P3WaitClearing(ab, base)
  }

  /** The closing of a command: nothing on P:0, the NOCMD store on P:3. */
  ghost predicate Closed(v: Variant, ab: AddressBytes, base: u24, w: Wire, w': Wire, cleared: Status) {
    if v == P0 then w' == w else Commanded(ab, base, P3, 0, w, w', cleared)
  }

  /** NOCMD follows a wait that ended in time. */
  lemma ClearAfterWait(ab: AddressBytes, base: u24, io: seq<Event>, ticks: seq<u32>, rest: seq<Event>,
                       later: seq<u32>)
    requires ticks != [] && PyWaitReady(ab, base, P3, io, ticks) == Finished(rest, later)
    ensures Run(St(ab, base, 0), rest, later) in {Finished([], []), Raised([], [])} ==>
      Play(ab, [P3WaitClearing(ab, base)], io, ticks) == Run(St(ab, base, 0), rest, later)
  {
    assert PlayOne(ab, P3WaitClearing(ab, base), io, ticks) == Run(St(ab, base, 0), rest, later);
    assert [P3WaitClearing(ab, base)][1..] == [];
  }

  lemma ClearingPlayed(ab: AddressBytes, base: u24, limit: u32, w: Wire, mid: Wire, w': Wire, s: Status)
    requires ReadyAfter(ab, base, P3, limit, w, mid) && Prompt(w, mid) && Commanded(ab, base, P3, 0, mid, w', s)
    ensures Play(ab, [P3WaitClearing(ab, base)], Since(w, w'), Readings(w, w'))
            == if EndsWithAck(w'.log) then Finished([], []) else Raised([], [])
  {
    WaitEnds(ab, base, P3, limit, w, mid, w');
    NocmdPlayed(ab, base, mid, w', s);
    ClearAfterWait(ab, base, Since(w, w'), Readings(w, w'), Since(mid, w'), Readings(mid, w'));
  }

  lemma LastWaitMatches(v: Variant, ab: AddressBytes, base: u24, limit: u32, acts: seq<Act>,
                        w: Wire, w1: Wire, mid: Wire, w': Wire, cleared: Status)
    requires Plays(ab, acts, w, w1) && ReadyAfter(ab, base, v, limit, w1, mid) && Prompt(w1, mid)
    requires Closed(v, ab, base, mid, w', cleared)
    ensures Matches(v, ab, acts + [PyLastWait(v, ab, base)], w, w')
  {
    if v == P0 {
      PlaysWait(ab, base, v, limit, w1, mid);
      PlaysThen(ab, acts, [PyWait(v, base)], w, w1, mid);
      PlaysMatches(ab, acts + [PyLastWait(v, ab, base)], w, w');
    } else {
      PlaysOn(ab, acts, [P3WaitClearing(ab, base)], w, w1, w');
      ClearingPlayed(ab, base, limit, w1, mid, w', cleared);
      MatchesMeans(P3, ab, acts + [P3WaitClearing(ab, base)], w, w');
    }
  }

  /** The Python code raised before the transcript ended, or went on differently. */
  predicate GaveUp(p: Py) { p.Differs? || (p.Raised? && p.rest != []) }

  /** A store is not a status read. */
  lemma ClearDiffers(ab: AddressBytes, base: u24, status: u32, io: seq<Event>, ticks: seq<u32>)
    requires io != [] && io[0] == Sent(LdsFrame(ab, status), true)
    ensures Run(St(ab, base, 0), io, ticks) == Differs
  {
    assert LdsFrame(ab, status)[1] < STS && St(ab, base, 0)[0].frame[1] >= STS;
    assert io[0].frame != St(ab, base, 0)[0].frame;
  }

  /** A Python wait that timed out ends the method, on P:3 after NOCMD, which the C code did not send then. */
  lemma LateGivesUp(v: Variant, ab: AddressBytes, base: u24, io: seq<Event>, ticks: seq<u32>)
    requires ticks != [] && StoppedShort(ab, base, v, PyWaitReady(ab, base, v, io, ticks))
    ensures GaveUp(Play(ab, [PyLastWait(v, ab, base)], io, ticks))
  {
    var p := PyWaitReady(ab, base, v, io, ticks);
    ClearDiffers(ab, base, base + Desc(v).regStatus, p.rest, p.ticks);
    assert PlayOne(ab, PyLastWait(v, ab, base), io, ticks)
        == if v == P0 then Raised(p.rest, p.ticks) else Differs;
  }

  lemma LastWaitLate(v: Variant, ab: AddressBytes, base: u24, limit: u32, acts: seq<Act>,
                     w: Wire, w1: Wire, mid: Wire, w': Wire)
    requires Plays(ab, acts, w, w1) && ReadyAfter(ab, base, v, limit, w1, mid) && !Prompt(w1, mid)
    requires mid.log <= w'.log && mid.ticks <= w'.ticks
    ensures GaveUp(Play(ab, acts + [PyLastWait(v, ab, base)], Since(w, w'), Readings(w, w')))
  {
    PlaysOn(ab, acts, [PyLastWait(v, ab, base)], w, w1, w');
    WaitEndsLate(ab, base, v, limit, w1, mid, w');
    LateGivesUp(v, ab, base, Since(w1, w'), Readings(w1, w'));
  }

  // ---- the Python methods of either variant ----

  function PyChipErase(v: Variant, ab: AddressBytes, base: nat): seq<Act> {
    if v == P0 then P0ChipErase(ab, base) else P3ChipErase(ab, base)
  }

  function PyEraseFlashPage(v: Variant, ab: AddressBytes, base: nat, address: nat): seq<Act> {
    if v == P0 then P0EraseFlashPage(ab, base, address) else P3EraseFlashPage(ab, base, address)
  }

  function PyWriteFlash(v: Variant, ab: AddressBytes, base: nat, address: nat, data: seq<byte>): seq<Act>
    requires 2 <= |data| <= 512
  {
    if v == P0 then P0WriteFlash(ab, base, address, data) else P3WriteFlash(ab, base, address, data)
  }

  function PyWriteFuse(v: Variant, ab: AddressBytes, base: nat, address: nat, value: byte): seq<Act> {
    if v == P0 then P0WriteFuse(ab, base, address, value) else P3WriteFuse(ab, base, address, value)
  }

  /** The statements before the closing NOCMD are in `acts`; P:0 has no such closing. */
  lemma ClosingMatches(v: Variant, ab: AddressBytes, base: u24, acts: seq<Act>, all: seq<Act>,
                       w: Wire, w1: Wire, w2: Wire, s: Status)
    requires Plays(ab, acts, w, w1) && Closed(v, ab, base, w1, w2, s)
    requires all == acts + if v == P0 then [] else [P3Command(ab, base, 0)]
    ensures Matches(v, ab, all, w, w2)
  {
    if v == P3 {
      MatchesNocmd(ab, base, acts, w, w1, w2, s);
    } else {
      assert all == acts;
      PlaysMatches(ab, all, w, w2);
    }
  }

  /** A command from w to w1, its wait to mid, then on P:3 the NOCMD store. */
  ghost predicate Committed(v: Variant, ab: AddressBytes, base: u24, command: byte, limit: u32,
                            w: Wire, w1: Wire, mid: Wire, w': Wire, cleared: Status) {
    Commanded(ab, base, v, command, w, w1, Ok) && ReadyAfter(ab, base, v, limit, w1, mid)
    && Closed(v, ab, base, mid, w', cleared)
  }

  /** A command and its wait. */
  lemma CommandPlays(ab: AddressBytes, base: u24, v: Variant, command: byte, w: Wire, w1: Wire, w2: Wire)
    requires Commanded(ab, base, v, command, w, w1, Ok) && ReadyAfter(ab, base, v, WAIT_MS, w1, w2)
    ensures Plays(ab, [PyCommand(v, ab, base, command), PyWait(v, base)], w, w2)
  {
    PlaysCommand(ab, base, v, command, w, w1);
    PlaysWait(ab, base, v, WAIT_MS, w1, w2);
    PlaysThen(ab, [PyCommand(v, ab, base, command)], [PyWait(v, base)], w, w1, w2);
    assert [PyCommand(v, ab, base, command)] + [PyWait(v, base)]
        == [PyCommand(v, ab, base, command), PyWait(v, base)];
  }

  /** A successful chip erase: two waits, of which the second may last up to 500 ms. */
  ghost predicate ChipErased(v: Variant, ab: AddressBytes, base: u24,
                             w0: Wire, w1: Wire, w2: Wire, mid: Wire, w': Wire, cleared: Status) {
    ReadyAfter(ab, base, v, WAIT_MS, w0, w1)
    && Committed(v, ab, base, Desc(v).cmdChipErase, 500, w1, w2, mid, w', cleared)
  }

  /**
   A successful chip erase is a run of the Python method exactly when no clock reading of the second wait was
   later than the 100 ms that Python waits. Otherwise Python gives up at that reading, before the end of the
   transcript.
   */
  lemma ChipErasePort(v: Variant, ab: AddressBytes, base: u24,
                      w0: Wire, w1: Wire, w2: Wire, mid: Wire, w': Wire, cleared: Status)
    requires ChipErased(v, ab, base, w0, w1, w2, mid, w', cleared)
    ensures Matches(v, ab, PyChipErase(v, ab, base), w0, w') <==> Prompt(w2, mid)
    ensures !Prompt(w2, mid) ==> GaveUp(Play(ab, PyChipErase(v, ab, base), Since(w0, w'), Readings(w0, w')))
  {
    var r, c := [PyWait(v, base)], [PyCommand(v, ab, base, Desc(v).cmdChipErase)];
    PlaysWait(ab, base, v, WAIT_MS, w0, w1);
    PlaysCommand(ab, base, v, Desc(v).cmdChipErase, w1, w2);
    PlaysThen(ab, r, c, w0, w1, w2);
    assert PyChipErase(v, ab, base) == r + c + [PyLastWait(v, ab, base)];
    if Prompt(w2, mid) {
      LastWaitMatches(v, ab, base, 500, r + c, w0, w2, mid, w', cleared);
    } else {
      LastWaitLate(v, ab, base, 500, r + c, w0, w2, mid, w');
      MatchesMeans(v, ab, PyChipErase(v, ab, base), w0, w');
    }
  }

  /** What a successful chip erase from w to w' is in terms of the Python method. */
  ghost predicate ErasedAs(v: Variant, ab: AddressBytes, base: u24, w: Wire, w': Wire) {
    w.log <= w'.log && w.ticks <= w'.ticks
    && exists w1: Wire, w2: Wire, mid: Wire, cleared: Status ::
         ChipErased(v, ab, base, w, w1, w2, mid, w', cleared)
         && (Matches(v, ab, PyChipErase(v, ab, base), w, w') <==> Prompt(w2, mid))
         && (!Prompt(w2, mid) ==> GaveUp(Play(ab, PyChipErase(v, ab, base), Since(w, w'), Readings(w, w'))))
  }

  lemma ChipEraseRan(v: Variant, ab: AddressBytes, base: u24,
                     w0: Wire, w1: Wire, w2: Wire, mid: Wire, w': Wire, cleared: Status)
    requires ChipErased(v, ab, base, w0, w1, w2, mid, w', cleared)
    ensures ErasedAs(v, ab, base, w0, w')
  {
    ChipErasePort(v, ab, base, w0, w1, w2, mid, w', cleared);
  }

  lemma PyEraseFlashPageActs(v: Variant, ab: AddressBytes, base: u24, address: u32)
    ensures PyEraseFlashPage(v, ab, base, address)
         == [PyWait(v, base)] + [Do(WriteData(ab, address, [0xFF]))]
            + [PyCommand(v, ab, base, Desc(v).cmdErasePage)] + [PyLastWait(v, ab, base)]
  {}

  lemma EraseFlashPagePort(v: Variant, ab: AddressBytes, base: u24, address: u32, select: Script,
                           w0: Wire, w1: Wire, w2: Wire, w3: Wire, mid: Wire, w': Wire, cleared: Status)
    requires ReadyAfter(ab, base, v, WAIT_MS, w0, w1)
    requires select == WriteData(ab, address, [0xFF]) && Ran(select, w1, w2, Ok, [])
    requires Committed(v, ab, base, Desc(v).cmdErasePage, WAIT_MS, w2, w3, mid, w', cleared)
    ensures Matches(v, ab, PyEraseFlashPage(v, ab, base, address), w0, w')
  {
    var r, c := [PyWait(v, base)], [PyCommand(v, ab, base, Desc(v).cmdErasePage)];
    PlaysWait(ab, base, v, WAIT_MS, w0, w1);
    PlaysDo(ab, select, w1, w2, []);
    PlaysCommand(ab, base, v, Desc(v).cmdErasePage, w2, w3);
    PlaysThree(ab, r, [Do(select)], c, w0, w1, w2, w3);
    PyEraseFlashPageActs(v, ab, base, address);
    LastWaitMatches(v, ab, base, WAIT_MS, r + [Do(select)] + c, w0, w3, mid, w', cleared);
  }

  /** The opening of a page write: wait, clear the buffer, wait, load it. */
  lemma LoadedPlays(v: Variant, ab: AddressBytes, base: u24, clear: byte, load: Script,
                    w0: Wire, w1: Wire, w2: Wire, w3: Wire)
    requires ReadyAfter(ab, base, v, WAIT_MS, w0, w1)
    requires Plays(ab, [PyCommand(v, ab, base, clear), PyWait(v, base)], w1, w2)
    requires Ran(load, w2, w3, Ok, [])
    ensures Plays(ab, [PyWait(v, base), PyCommand(v, ab, base, clear), PyWait(v, base), Do(load)], w0, w3)
  {
    var r, c, l := [PyWait(v, base)], [PyCommand(v, ab, base, clear), PyWait(v, base)], [Do(load)];
    PlaysWait(ab, base, v, WAIT_MS, w0, w1);
    PlaysDo(ab, load, w2, w3, []);
    PlaysThree(ab, r, c, l, w0, w1, w2, w3);
    assert r + c + l == [PyWait(v, base), PyCommand(v, ab, base, clear), PyWait(v, base), Do(load)];
  }

  lemma PageWritePort(v: Variant, ab: AddressBytes, base: u24, clear: byte, command: byte, load: Script,
                      all: seq<Act>, w0: Wire, w1: Wire, w2: Wire, w3: Wire, w4: Wire, mid: Wire, w': Wire,
                      cleared: Status)
    requires ReadyAfter(ab, base, v, WAIT_MS, w0, w1)
    requires Plays(ab, [PyCommand(v, ab, base, clear), PyWait(v, base)], w1, w2)
    requires Ran(load, w2, w3, Ok, []) && Committed(v, ab, base, command, WAIT_MS, w3, w4, mid, w', cleared)
    requires all == [PyWait(v, base), PyCommand(v, ab, base, clear), PyWait(v, base), Do(load),
                     PyCommand(v, ab, base, command), PyWait(v, base)]
                    + if v == P0 then [] else [P3Command(ab, base, 0)]
    ensures Matches(v, ab, all, w0, w')
  {
    var opening := [PyWait(v, base), PyCommand(v, ab, base, clear), PyWait(v, base), Do(load)];
    var tail := [PyCommand(v, ab, base, command), PyWait(v, base)];
    LoadedPlays(v, ab, base, clear, load, w0, w1, w2, w3);
    CommandPlays(ab, base, v, command, w3, w4, mid);
    PlaysThen(ab, opening, tail, w0, w3, mid);
    ClosingMatches(v, ab, base, opening + tail, all, w0, mid, w', cleared);
  }

  lemma PyWriteFlashActs(v: Variant, ab: AddressBytes, base: u24, address: u32, data: seq<byte>)
    requires 2 <= |data| <= 512
    ensures PyWriteFlash(v, ab, base, address, data)
         == [PyWait(v, base), PyCommand(v, ab, base, Desc(v).cmdPageBufferClear), PyWait(v, base),
             Do(WriteDataWords(ab, address, data)), PyCommand(v, ab, base, Desc(v).cmdWritePage), PyWait(v, base)]
            + if v == P0 then [] else [P3Command(ab, base, 0)]
  {}

  lemma WriteFlashPort(v: Variant, ab: AddressBytes, base: u24, address: u32, data: seq<byte>, load: Script,
                       w0: Wire, w1: Wire, w2: Wire, w3: Wire, w4: Wire, mid: Wire, w': Wire, cleared: Status)
    requires 2 <= |data| <= 512
    requires ReadyAfter(ab, base, v, WAIT_MS, w0, w1)
    requires Plays(ab, [PyCommand(v, ab, base, Desc(v).cmdPageBufferClear), PyWait(v, base)], w1, w2)
    requires load == WriteDataWords(ab, address, data) && Ran(load, w2, w3, Ok, [])
    requires Committed(v, ab, base, Desc(v).cmdWritePage, WAIT_MS, w3, w4, mid, w', cleared)
    ensures Matches(v, ab, PyWriteFlash(v, ab, base, address, data), w0, w')
  {
    PyWriteFlashActs(v, ab, base, address, data);
    PageWritePort(v, ab, base, Desc(v).cmdPageBufferClear, Desc(v).cmdWritePage, load,
                  PyWriteFlash(v, ab, base, address, data), w0, w1, w2, w3, w4, mid, w', cleared);
  }

  lemma WriteFuseP3Port(ab: AddressBytes, base: u24, address: u32, value: byte, load: Script,
                        w0: Wire, w1: Wire, w2: Wire, w3: Wire, w4: Wire, mid: Wire, w': Wire, cleared: Status)
    requires ReadyAfter(ab, base, P3, WAIT_MS, w0, w1)
    requires Plays(ab, [PyCommand(P3, ab, base, Desc(P3).cmdEepromBufferClear), PyWait(P3, base)], w1, w2)
    requires load == WriteData(ab, address, [value]) && Ran(load, w2, w3, Ok, [])
    requires Committed(P3, ab, base, Desc(P3).cmdEepromEraseWrite, WAIT_MS, w3, w4, mid, w', cleared)
    ensures Matches(P3, ab, PyWriteFuse(P3, ab, base, address, value), w0, w')
  {
    PageWritePort(P3, ab, base, Desc(P3).cmdEepromBufferClear, Desc(P3).cmdEepromEraseWrite, load,
                  PyWriteFuse(P3, ab, base, address, value), w0, w1, w2, w3, w4, mid, w', cleared);
  }

  function FuseLoads(ab: AddressBytes, base: nat, address: nat, value: byte): seq<Act> {
    [Do(St(ab, base + 0x08, address % 256)), Do(St(ab, base + 0x08 + 1, address / 256 % 256)),
     Do(St(ab, base + 0x06, value))]
  }

  /** ADDR low, ADDR high and DATA loaded, one register after the other. */
  lemma FuseRegistersPlay(ab: AddressBytes, base: u24, address: u32, value: byte,
                          w1: Wire, w2: Wire, w3: Wire, w4: Wire)
    requires Ran(StByteScript(ab, base + 0x08, address % 256), w1, w2, Ok, [])
    requires Ran(StByteScript(ab, base + 0x08 + 1, address / 256 % 256), w2, w3, Ok, [])
    requires Ran(StByteScript(ab, base + 0x06, value), w3, w4, Ok, [])
    ensures Plays(ab, FuseLoads(ab, base, address, value), w1, w4)
  {
    SameFrames(ab, base + 0x08, address % 256);
    SameFrames(ab, base + 0x08 + 1, address / 256 % 256);
    SameFrames(ab, base + 0x06, value);
    var lo, hi := [Do(St(ab, base + 0x08, address % 256))], [Do(St(ab, base + 0x08 + 1, address / 256 % 256))];
    var v := [Do(St(ab, base + 0x06, value))];
    PlaysDo(ab, St(ab, base + 0x08, address % 256), w1, w2, []);
    PlaysDo(ab, St(ab, base + 0x08 + 1, address / 256 % 256), w2, w3, []);
    PlaysDo(ab, St(ab, base + 0x06, value), w3, w4, []);
    PlaysThree(ab, lo, hi, v, w1, w2, w3, w4);
    assert lo + hi + v == [lo[0], hi[0], v[0]];
  }

  lemma WriteFuseP0Port(ab: AddressBytes, base: u24, address: u32, value: byte,
                        w0: Wire, w1: Wire, w4: Wire, w5: Wire, w': Wire)
    requires ReadyAfter(ab, base, P0, WAIT_MS, w0, w1)
    requires Plays(ab, FuseLoads(ab, base, address, value), w1, w4)
    requires Committed(P0, ab, base, Desc(P0).cmdWriteFuse, WAIT_MS, w4, w5, w', w', Ok)
    ensures Matches(P0, ab, PyWriteFuse(P0, ab, base, address, value), w0, w')
  {
    var tail := [PyCommand(P0, ab, base, Desc(P0).cmdWriteFuse), PyWait(P0, base)];
    PlaysWait(ab, base, P0, WAIT_MS, w0, w1);
    CommandPlays(ab, base, P0, Desc(P0).cmdWriteFuse, w4, w5, w');
    PlaysThree(ab, [PyWait(P0, base)], FuseLoads(ab, base, address, value), tail, w0, w1, w4, w');
    assert P0WriteFuse(ab, base, address, value)
        == [PyWait(P0, base)] + FuseLoads(ab, base, address, value) + tail;
    PlaysMatches(ab, P0WriteFuse(ab, base, address, value), w0, w');
  }
}
