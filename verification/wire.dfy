/**
 Transcripts of the wire. A link operation is specified once, by its script: against any target
 the transcript it leaves is a run of that script, and against the emulated target the target
 and the result are those of performing the script.
 */
module WireLog {
  import opened Bytes
  import opened Protocol
  import opened Target
  import opened Lockstep

  /** The steps of the worker whose results the transcript also records. */
  datatype Call = Connect | ParseFile | ChipErase | WriteFlash | VerifyFlash

  datatype Event =
    | Sent(frame: seq<byte>, ok: bool)
    | Received(want: nat, bytes: seq<byte>)
    | Broke
    | Returned(call: Call, status: Status)

  datatype Outcome = Outcome(status: Status, data: seq<byte>, rest: seq<Event>) | Stray

  function Cons(data: seq<byte>, o: Outcome): Outcome {
    if o.Outcome? then o.(data := data + o.data) else o
  }

  /**
   Replays a script against a transcript: the answers are taken from the transcript, and every
   frame the script sends must be the one the transcript shows. The result is Stray when it is not.
   */
  function Replay(script: Script, io: seq<Event>): Outcome
    decreases |script|
  {
    if script == [] then Outcome(Ok, [], io)
    else if io == [] then Stray
    else
      match script[0]
      case Tx(frame) =>
        if io[0] == Sent(frame, true) then Replay(script[1..], io[1..])
        else if io[0] == Sent(frame, false) then Outcome(ErrTransport, [], io[1..])
        else Stray
      case Ack =>
        if io[0] == Received(1, [ACK]) then Replay(script[1..], io[1..])
        else if io[0].Received? && io[0].want == 1 then Outcome(ErrNack, [], io[1..])
        else Stray
      case Read(n) =>
        if io[0].Received? && io[0].want == n then
          if |io[0].bytes| == n then Cons(io[0].bytes, Replay(script[1..], io[1..]))
          else Outcome(ErrTimeout, [], io[1..])
        else Stray
      case ReadSome(n) =>
        if io[0].Received? && io[0].want == n then
          if io[0].bytes != [] then Cons(io[0].bytes, Replay(script[1..], io[1..]))
          else Outcome(ErrTimeout, [], io[1..])
        else Stray
  }

  /** A complete run leaves what follows it in the transcript untouched. */
  lemma {:induction false} ReplayRest(script: Script, io: seq<Event>, more: seq<Event>)
    requires Replay(script, io).Outcome?
    ensures var o := Replay(script, io);
            Replay(script, io + more) == o.(rest := o.rest + more)
    decreases |script|
  {
    if script != [] {
      assert (io + more)[1..] == io[1..] + more;
      if Replay(script[1..], io[1..]).Outcome? {
        ReplayRest(script[1..], io[1..], more);
      }
    }
  }

  lemma {:induction false} ReplayThen(s1: Script, s2: Script, io: seq<Event>)
    requires Replay(s1, io).Outcome?
    ensures var o := Replay(s1, io);
            Replay(s1 + s2, io) == if o.status == Ok then Cons(o.data, Replay(s2, o.rest)) else o
    decreases |s1|
  {
    if s1 == [] {
      assert s1 + s2 == s2;
    } else {
      assert (s1 + s2)[1..] == s1[1..] + s2;
      if Replay(s1[1..], io[1..]).Outcome? {
        ReplayThen(s1[1..], s2, io[1..]);
      }
    }
  }

  // ---- the wire ----

  /** What a transport has seen: the target if it is the emulated one, the transcript, the clock readings. */
  datatype Wire = Wire(emulated: bool, target: Target, log: seq<Event>, ticks: seq<u32>)

  function Since(w: Wire, w': Wire): seq<Event>
    requires w.log <= w'.log
  {
    w'.log[|w.log|..]
  }

  /** The transcript between w and w' replays the script; an emulated target performed it. */
  predicate Follows(script: Script, w: Wire, w': Wire, status: Status, data: seq<byte>)
    requires w.log <= w'.log
  {
    Replay(script, Since(w, w')) == Outcome(status, data, [])
    && (w.emulated ==> Perform(script, w.target) == Performance(w'.target, status, data))
  }

  /**
   From w to w' exactly this script was run, with this result. The definition is sealed behind a
   quantifier, so that transcripts are replayed only where a proof calls RanFollows.
   */
  ghost predicate Ran(script: Script, w: Wire, w': Wire, status: Status, data: seq<byte>) {
    w'.emulated == w.emulated && w'.ticks == w.ticks && w.log <= w'.log
    && forall k: int {:trigger Unsealed(RanSeal, k)} :: Unsealed(RanSeal, k) ==> Follows(script, w, w', status, data)
  }

  lemma RanFollows(script: Script, w: Wire, w': Wire, status: Status, data: seq<byte>)
    requires Ran(script, w, w', status, data)
    ensures Follows(script, w, w', status, data)
  {
    assert Unsealed(RanSeal, 0);
  }

  lemma RanNothing(w: Wire)
    ensures Ran([], w, w, Ok, [])
  {
    assert Since(w, w) == [];
  }

  lemma RanThen(s1: Script, s2: Script, w: Wire, w1: Wire, w2: Wire, status: Status, d1: seq<byte>, d2: seq<byte>)
    requires Ran(s1, w, w1, Ok, d1) && Ran(s2, w1, w2, status, d2)
    ensures Ran(s1 + s2, w, w2, status, d1 + d2)
  {
    RanFollows(s1, w, w1, Ok, d1);
    RanFollows(s2, w1, w2, status, d2);
    assert Since(w, w2) == Since(w, w1) + Since(w1, w2);
    ReplayRest(s1, Since(w, w1), Since(w1, w2));
    assert [] + Since(w1, w2) == Since(w1, w2);
    ReplayThen(s1, s2, Since(w, w2));
    if w.emulated {
      PerformThen(s1, s2, w.target);
    }
  }

  lemma RanStop(s1: Script, s2: Script, w: Wire, w1: Wire, status: Status, data: seq<byte>)
    requires Ran(s1, w, w1, status, data) && status != Ok
    ensures Ran(s1 + s2, w, w1, status, data)
  {
    RanFollows(s1, w, w1, status, data);
    ReplayThen(s1, s2, Since(w, w1));
    if w.emulated {
      PerformThen(s1, s2, w.target);
    }
  }

  lemma RanSent(frame: seq<byte>, ok: bool, w: Wire, w': Wire)
    requires w'.emulated == w.emulated && w'.ticks == w.ticks && w'.log == w.log + [Sent(frame, ok)]
    requires w.emulated ==> ok && w'.target == FeedAll(w.target, frame)
    ensures Ran([Tx(frame)], w, w', if ok then Ok else ErrTransport, [])
  {
    var io := Since(w, w');
    assert io == [Sent(frame, ok)] && io[1..] == [] && [Tx(frame)][1..] == [];
    assert Replay([], []) == Outcome(Ok, [], []);
    if w.emulated {
      assert Perform([], w'.target) == Performance(w'.target, Ok, []);
    }
  }

  lemma RanReceived(n: nat, bytes: seq<byte>, w: Wire, w': Wire)
    requires |bytes| <= n && w'.emulated == w.emulated && w'.ticks == w.ticks
    requires w'.log == w.log + [Received(n, bytes)]
    requires w.emulated ==> bytes == Taken(w.target, n) && w'.target == AfterTaking(w.target, n)
    ensures n == 1 ==> Ran([Ack], w, w', if bytes == [ACK] then Ok else ErrNack, [])
    ensures Ran([Read(n)], w, w', if |bytes| == n then Ok else ErrTimeout, if |bytes| == n then bytes else [])
    ensures Ran([ReadSome(n)], w, w', if bytes != [] then Ok else ErrTimeout, bytes)
  {
    var io := Since(w, w');
    assert io == [Received(n, bytes)] && io[1..] == [] && bytes + [] == bytes;
    assert [Ack][1..] == [] && [Read(n)][1..] == [] && [ReadSome(n)][1..] == [];
    assert Replay([], []) == Outcome(Ok, [], []);
    if w.emulated {
      assert Perform([], w'.target) == Performance(w'.target, Ok, []);
    }
  }

  lemma SentLast(frame: seq<byte>, w: Wire, w': Wire, s: Status)
    requires Ran([Tx(frame)], w, w', s, [])
    ensures w'.log == w.log + [Sent(frame, s == Ok)]
  {
    var io := Since(w, w');
    RanFollows([Tx(frame)], w, w', s, []);
    assert [Tx(frame)][1..] == [] && io != [] && w'.log == w.log + io;
    assert Replay([], io[1..]) == Outcome(Ok, [], io[1..]);
    assert io == [io[0]];
  }

  /** The transcript ends with this frame sent and one byte received for it. */
  predicate EndsAnswered(log: seq<Event>, frame: seq<byte>, value: byte) {
    |log| >= 2 && log[|log| - 2] == Sent(frame, true) && log[|log| - 1] == Received(1, [value])
  }

  /** A one-byte read succeeds exactly when the transcript then ends with its answer. */
  lemma AnsweredLast(frame: seq<byte>, w: Wire, w': Wire, s: Status, data: seq<byte>)
    requires Ran([Tx(frame), Read(1)], w, w', s, data)
    ensures |w'.log| > |w.log|
    ensures s == Ok ==> |data| == 1 && EndsAnswered(w'.log, frame, data[0])
    ensures s != Ok ==> forall b :: !EndsAnswered(w'.log, frame, b)
  {
    var io := Since(w, w');
    RanFollows([Tx(frame), Read(1)], w, w', s, data);
    assert [Tx(frame), Read(1)][1..] == [Read(1)] && [Read(1)][1..] == [];
    assert io != [] && w'.log == w.log + io;
    if io[0] == Sent(frame, false) {
      assert io == [io[0]] && w'.log[|w'.log| - 1] == io[0];
    } else {
      var io1 := io[1..];
      assert Replay([Read(1)], io1) == Outcome(s, data, []);
      assert io1 != [] && Replay([], io1[1..]) == Outcome(Ok, [], io1[1..]);
      assert io1 == [io1[0]] && io == [io[0], io1[0]];
      assert w'.log[|w'.log| - 2] == io[0] && w'.log[|w'.log| - 1] == io1[0];
    }
  }

  /**
   What is left to do: whoever runs `rest` from w, reading d, has run the whole script from w0,
   reading done + d.
   */
  ghost predicate Remains(rest: Script, w: Wire, done: seq<byte>, script: Script, w0: Wire) {
    forall w1: Wire, s: Status, d: seq<byte> :: Ran(rest, w, w1, s, d) ==> Ran(script, w0, w1, s, done + d)
  }

  lemma RemainsAll(script: Script, w0: Wire)
    ensures Remains(script, w0, [], script, w0)
  {
    assert forall d: seq<byte> :: [] + d == d;
  }

  /** Running the next part s1: an error ends the script there, otherwise s2 remains. */
  lemma Advance(s1: Script, s2: Script, w: Wire, w1: Wire, s: Status, d1: seq<byte>,
                done: seq<byte>, script: Script, w0: Wire)
    requires Remains(s1 + s2, w, done, script, w0) && Ran(s1, w, w1, s, d1)
    ensures s != Ok ==> Ran(script, w0, w1, s, done + d1)
    ensures s == Ok ==> Remains(s2, w1, done + d1, script, w0)
  {
    if s != Ok {
      RanStop(s1, s2, w, w1, s, d1);
    } else {
      forall w2: Wire, s': Status, d2: seq<byte> | Ran(s2, w1, w2, s', d2)
        ensures Ran(script, w0, w2, s', done + d1 + d2)
      {
        RanThen(s1, s2, w, w1, w2, s', d1, d2);
        assert done + (d1 + d2) == done + d1 + d2;
      }
    }
  }

  lemma RemainsNothing(w: Wire, done: seq<byte>, script: Script, w0: Wire)
    requires Remains([], w, done, script, w0)
    ensures Ran(script, w0, w, Ok, done)
  {
    RanNothing(w);
    assert done + [] == done;
  }

  /** The emulated target is at the other end, and in step with the host. */
  predicate Live(w: Wire) { w.emulated && Quiet(w.target) }

  // ---- what may be sent ----

  /** BREAK, the NVMProg key, or an instruction that stores neither in memory nor at a pointer. */
  predicate ReadOnlyFrame(f: seq<byte>) {
    f == [0] || f == Reverse(NVM_KEY)
    || (|f| >= 2 && f[0] == SYNC
        && var group, mode := f[1] / 32, f[1] / 4 % 4;
           || (group == 0 && 4 <= |f| <= 5)              // LDS
           || (group == 1 && |f| == 2)                   // LD *ptr++
           || (group == 3 && mode == 2 && 4 <= |f| <= 5) // ST ptr
           || (group == 4 && |f| == 2)                   // LDCS
           || (group == 5 && |f| == 3)                   // REPEAT
           || (group == 6 && |f| == 3)                   // STCS
           || (group == 7 && |f| == 2))                  // KEY header or SIB
  }

  /** STS, or ST at the pointer. */
  predicate StoreFrame(f: seq<byte>) {
    |f| >= 2 && f[0] == SYNC && (f[1] / 32 == 2 || (f[1] / 32 == 3 && f[1] / 4 % 4 != 2))
  }

  /** A frame that sets the address register of the target. */
  predicate PointerFrame(f: seq<byte>) { |f| >= 2 && f[0] == SYNC && f[1] / 32 == 3 && f[1] / 4 % 4 == 2 }

  datatype Scope =
    | Reading                                        // what is read-only and leaves the address register alone
    | ReadOnly
    | Unlocking                                      // also the chip-erase key
    // reading, and stores of these bytes, and of zero, to one register
    | Commanding(width: AddressBytes, register: u32, codes: set<byte>)
    // reading, and single-byte stores to several registers
    | Fusing(width: AddressBytes, registers: set<u32>)
    // commands, and one block of words
    | Storing(width: AddressBytes, register: u32, codes: set<byte>, address: u32, length: nat)
    // commands, and whole pages
    | Flashing(width: AddressBytes, register: u32, codes: set<byte>, base: u32, page: nat, size: nat)

  predicate Commands(ab: AddressBytes, register: u32, codes: set<byte>, f: seq<byte>) {
    (ReadOnlyFrame(f) && !PointerFrame(f)) || f == StsFrame(ab, DATA_8, register) || (|f| == 1 && f[0] in codes)
  }

  /** The address register set to the start of a page that lies within the first `size` bytes from the base. */
  predicate SetsPage(f: seq<byte>, ab: AddressBytes, base: u32, page: nat, size: nat, off: nat)
    requires page > 0
  {
    off % page == 0 && off + page <= size && f == StPtrFrame(ab, AddressAt(base, off))
  }

  predicate Permits(scope: Scope, f: seq<byte>) {
    match scope
    case Reading => ReadOnlyFrame(f) && !PointerFrame(f)
    case ReadOnly => ReadOnlyFrame(f)
    case Unlocking => ReadOnlyFrame(f) || f == Reverse(ERASE_KEY)
    case Commanding(ab, register, codes) => Commands(ab, register, codes, f)
    case Fusing(ab, registers) =>
      (ReadOnlyFrame(f) && !PointerFrame(f)) || |f| == 1
      || exists r :: r in registers && f == StsFrame(ab, DATA_8, r)
    case Storing(ab, register, codes, address, length) =>
      Commands(ab, register, codes, f) || f == StIncFrame(DATA_16) || |f| == length
      || f == StPtrFrame(ab, address) || (length == 2 && f == StsFrame(ab, DATA_16, address))
    case Flashing(ab, register, codes, base, page, size) =>
      Commands(ab, register, codes, f) || f == StIncFrame(DATA_16) || |f| == page
      || (page > 0 && exists off :: 0 <= off <= size && SetsPage(f, ab, base, page, size, off))
  }

  predicate EventWithin(e: Event, scope: Scope) {
    (e.Sent? ==> Permits(scope, e.frame)) && !e.Returned?
  }

  /** The transcript has only grown, and every frame sent since is within the scope. */
  predicate Grew(before: seq<Event>, after: seq<Event>, scope: Scope) {
    before <= after && forall i :: |before| <= i < |after| ==> EventWithin(after[i], scope)
  }

  predicate ScriptWithin(script: Script, scope: Scope) {
    forall i :: 0 <= i < |script| && script[i].Tx? ==> Permits(scope, script[i].frame)
  }

  lemma {:induction false} ReplayWithin(script: Script, io: seq<Event>, scope: Scope)
    requires ScriptWithin(script, scope)
    requires var o := Replay(script, io); o.Outcome? && o.rest == []
    ensures forall i :: 0 <= i < |io| ==> EventWithin(io[i], scope)
    decreases |script|
  {
    if script != [] {
      assert forall i :: 0 <= i < |script| - 1 ==> script[1..][i] == script[i + 1];
      var o := Replay(script[1..], io[1..]);
      if o.Outcome? && o.rest == [] {
        ReplayWithin(script[1..], io[1..], scope);
        assert forall i :: 1 <= i < |io| ==> io[i] == io[1..][i - 1];
      } else {
        assert io[1..] == [];
      }
    }
  }

  /** Running a script sends only frames of the script. */
  lemma RanWithin(script: Script, w: Wire, w': Wire, status: Status, data: seq<byte>, scope: Scope)
    requires Ran(script, w, w', status, data) && ScriptWithin(script, scope)
    ensures Grew(w.log, w'.log, scope)
  {
    RanFollows(script, w, w', status, data);
    ReplayWithin(script, Since(w, w'), scope);
    assert forall i :: |w.log| <= i < |w'.log| ==> w'.log[i] == Since(w, w')[i - |w.log|];
  }

  lemma GrewThen(a: seq<Event>, b: seq<Event>, c: seq<Event>, scope: Scope)
    requires Grew(a, b, scope) && Grew(b, c, scope)
    ensures Grew(a, c, scope)
  {
    assert forall i :: |a| <= i < |b| ==> c[i] == b[i];
  }

  /** Outside unlocking no frame is the chip-erase key, unless page data of its length spell it. */
  lemma NotTheEraseKey(f: seq<byte>, scope: Scope)
    requires Permits(scope, f) && !scope.Unlocking?
    requires scope.Storing? ==> scope.length != 8
    requires scope.Flashing? ==> scope.page != 8
    ensures f != Reverse(ERASE_KEY)
  {
    assert Reverse(ERASE_KEY)[0] == 0x65 && Reverse(NVM_KEY)[0] == 0x20;
  }

  /** Commands are part of any store. */
  lemma GrewWiden(a: seq<Event>, b: seq<Event>, ab: AddressBytes, register: u32, code: byte, codes: set<byte>,
                  address: u32, length: nat)
    requires Grew(a, b, Commanding(ab, register, {code})) && code in codes
    ensures Grew(a, b, Storing(ab, register, codes, address, length))
  {}

  /** After stores to several registers, reads or stores to one of them. */
  lemma GrewAmong(a: seq<Event>, b: seq<Event>, c: seq<Event>, ab: AddressBytes, register: u32, codes: set<byte>,
                  registers: set<u32>)
    requires Grew(a, b, Fusing(ab, registers)) && register in registers
    requires Grew(b, c, Reading) || Grew(b, c, Commanding(ab, register, codes))
    ensures Grew(a, c, Fusing(ab, registers))
  {
    assert Grew(b, c, Fusing(ab, registers));
    GrewThen(a, b, c, Fusing(ab, registers));
  }

  /** A page stored is part of flashing. */
  lemma GrewPage(a: seq<Event>, b: seq<Event>, ab: AddressBytes, register: u32, codes: set<byte>, base: u32, page: nat,
                 size: nat, off: nat)
    requires page > 2 && off % page == 0 && off + page <= size
    requires Grew(a, b, Storing(ab, register, codes, AddressAt(base, off), page))
    ensures Grew(a, b, Flashing(ab, register, codes, base, page, size))
  {
    forall i | |a| <= i < |b| && b[i].Sent?
      ensures Permits(Flashing(ab, register, codes, base, page, size), b[i].frame)
    {
      var f := b[i].frame;
      if f == StPtrFrame(ab, AddressAt(base, off)) {
        assert SetsPage(f, ab, base, page, size, off);
      }
    }
  }
}
