/** Status polling: what the transcript of a poll loop says about its result. */
module Polling {
  import opened Bytes
  import opened Protocol
  import opened WireLog

  const MAX_POLLS: nat := 200000

  /** What one status read brought. */
  datatype Answer = Silent | Value(value: byte)

  /** The answers to one-byte reads, in the order they were asked. */
  function Answers(io: seq<Event>): seq<Answer>
    decreases |io|
  {
    if io == [] then []
    else if io[0].Sent? && io[0].ok && |io| >= 2 && io[1].Received? then
      [if |io[1].bytes| == 1 then Value(io[1].bytes[0]) else Silent] + Answers(io[2..])
    else [Silent] + Answers(io[1..])
  }

  /** The transcript holds nothing but reads with this frame, each answered or failed. */
  predicate Exchanges(frame: seq<byte>, io: seq<Event>)
    decreases |io|
  {
    || io == []
    || (io[0] == Sent(frame, false) && Exchanges(frame, io[1..]))
    || (|io| >= 2 && io[0] == Sent(frame, true) && io[1].Received? && io[1].want == 1
        && Exchanges(frame, io[2..]))
  }

  /** A failed send, or a read with its answer. */
  predicate IsExchange(frame: seq<byte>, io: seq<Event>) {
    io == [Sent(frame, false)]
    || (|io| == 2 && io[0] == Sent(frame, true) && io[1].Received? && io[1].want == 1)
  }

  function AnswerOf(io: seq<Event>): Answer {
    if |io| == 2 && io[1].Received? && |io[1].bytes| == 1 then Value(io[1].bytes[0]) else Silent
  }

  lemma FirstExchange(frame: seq<byte>, first: seq<Event>, rest: seq<Event>, all: seq<Event>)
    requires IsExchange(frame, first) && all == first + rest
    ensures Exchanges(frame, all) <==> Exchanges(frame, rest)
    ensures Answers(all) == [AnswerOf(first)] + Answers(rest)
  {
    assert all[|first|..] == rest;
  }

  lemma SplitFirst(frame: seq<byte>, io: seq<Event>) returns (first: seq<Event>, rest: seq<Event>)
    requires Exchanges(frame, io) && io != []
    ensures io == first + rest && IsExchange(frame, first) && Exchanges(frame, rest) && |rest| < |io|
  {
    var n := if io[0] == Sent(frame, false) then 1 else 2;
    first, rest := io[..n], io[n..];
  }

  lemma Reassociate(a: seq<Answer>, b: seq<Answer>, c: seq<Answer>)
    ensures a + (b + c) == a + b + c
  {}

  lemma {:induction false} ExchangesThen(frame: seq<byte>, a: seq<Event>, b: seq<Event>)
    requires Exchanges(frame, a) && Exchanges(frame, b)
    ensures Exchanges(frame, a + b) && Answers(a + b) == Answers(a) + Answers(b)
    decreases |a|
  {
    if a == [] {
      assert a + b == b;
    } else {
      var first, rest := SplitFirst(frame, a);
      ExchangesThen(frame, rest, b);
      FirstExchange(frame, first, rest, a);
      FirstExchange(frame, first, rest + b, a + b);
      Reassociate([AnswerOf(first)], Answers(rest), Answers(b));
    }
  }

  /** One run of a read script is one exchange, with the value it returned. */
  lemma OneExchange(frame: seq<byte>, w: Wire, w': Wire, s: Status, data: seq<byte>)
    requires Ran([Tx(frame), Read(1)], w, w', s, data)
    ensures s in {Ok, ErrTimeout, ErrTransport} && (s == Ok ==> |data| == 1)
    ensures Exchanges(frame, Since(w, w'))
    ensures Answers(Since(w, w')) == [if s == Ok then Value(data[0]) else Silent]
    ensures s == Ok ==> w'.log[|w'.log| - 1] == Received(1, data)
  {
    var io := Since(w, w');
    RanFollows([Tx(frame), Read(1)], w, w', s, data);
    assert [Tx(frame), Read(1)][1..] == [Read(1)] && [Read(1)][1..] == [];
    assert Replay([Tx(frame), Read(1)], io).Outcome? && io != [];
    if io[0] == Sent(frame, false) {
      assert io[1..] == [] && io == [io[0]];
    } else {
      var io1 := io[1..];
      assert Replay([Read(1)], io1) == Outcome(s, data, []);
      assert io1 != [] && io1[0].Received? && io1[0].want == 1;
      assert Replay([], io1[1..]) == Outcome(Ok, [], io1[1..]);
      assert io1[1..] == [] && io1 == [io1[0]] && io == [io[0], io1[0]];
      assert io[2..] == [];
      if s == Ok {
        assert data == io[1].bytes + [];
      }
    }
  }

  /** The milliseconds between the first and the last clock reading, on a wrapping 32-bit counter. */
  function Elapsed(ticks: seq<u32>): u32
    requires ticks != []
  {
    (ticks[|ticks| - 1] - ticks[0]) % U32
  }

  /** The clock readings of a stretch. */
  function Readings(w: Wire, w': Wire): seq<u32>
    requires w.ticks <= w'.ticks
  {
    w'.ticks[|w.ticks|..]
  }

  /** No reading is further than the limit from a start. */
  predicate Within(limit: u32, start: u32, ticks: seq<u32>) {
    forall k :: 0 <= k < |ticks| ==> (ticks[k] - start) % U32 <= limit
  }

  /** The clock was read this often, and never further than the limit from the first reading. */
  predicate Paced(limit: u32, w: Wire, w': Wire, n: nat) {
    w.ticks < w'.ticks && |Readings(w, w')| == n && Within(limit, w'.ticks[|w.ticks|], Readings(w, w'))
  }

  /** When a poll loop keeps waiting: while locked (or silent), or while busy and without error. */
  datatype Patience = WhileLocked | WhileBusy(errors: byte, busy: byte)

  predicate Keeps(p: Patience, a: Answer) {
    match p
    case WhileLocked => a.Value? ==> Bit(a.value, SYS_STATUS_LOCK)
    case WhileBusy(errors, busy) => a.Value? && And(a.value, errors) == 0 && And(a.value, busy) != 0
  }

  /** n status reads so far, and nothing else; each answer said to keep waiting. */
  predicate Waiting(frame: seq<byte>, p: Patience, w: Wire, w': Wire, start: u32, n: nat) {
    w'.emulated == w.emulated && w.log <= w'.log && w.ticks < w'.ticks && w'.ticks[|w.ticks|] == start
    && var a := Answers(Since(w, w'));
       Exchanges(frame, Since(w, w')) && |a| == n && forall k :: 0 <= k < n ==> Keeps(p, a[k])
  }

  /**
   From w to w' only this status read was repeated, at most MAX_POLLS times; every answer but the
   last said to keep waiting.
   */
  predicate Polled(frame: seq<byte>, p: Patience, w: Wire, w': Wire) {
    w'.emulated == w.emulated && w.log <= w'.log && w.ticks < w'.ticks
    && var a := Answers(Since(w, w'));
       Exchanges(frame, Since(w, w')) && 1 <= |a| <= MAX_POLLS
       && forall k :: 0 <= k < |a| - 1 ==> Keeps(p, a[k])
  }

  /** The iteration cap was hit, or the wrapped clock says that the limit was reached. */
  predicate Expired(timeoutMs: u32, w: Wire, w': Wire)
    requires w.log <= w'.log && w.ticks < w'.ticks
  {
    |Answers(Since(w, w'))| == MAX_POLLS || Elapsed(w'.ticks[|w.ticks|..]) >= timeoutMs
  }

  function LastAnswer(w: Wire, w': Wire): Answer
    requires w.log <= w'.log
  {
    var a := Answers(Since(w, w'));
    if a == [] then Silent else a[|a| - 1]
  }

  lemma PollOnce(frame: seq<byte>, p: Patience, w0: Wire, w: Wire, w': Wire, s: Status, data: seq<byte>,
                 start: u32, n: nat)
    requires Waiting(frame, p, w0, w, start, n) && n < MAX_POLLS
    requires Ran([Tx(frame), Read(1)], w, w', s, data)
    ensures s in {Ok, ErrTimeout, ErrTransport} && (s == Ok ==> |data| == 1)
    ensures Polled(frame, p, w0, w') && |Answers(Since(w0, w'))| == n + 1
    ensures LastAnswer(w0, w') == if s == Ok then Value(data[0]) else Silent
    ensures Keeps(p, LastAnswer(w0, w')) ==> Waiting(frame, p, w0, w', start, n + 1)
  {
    OneExchange(frame, w, w', s, data);
    assert Since(w0, w') == Since(w0, w) + Since(w, w');
    ExchangesThen(frame, Since(w0, w), Since(w, w'));
  }

  /** The limit has not been reached; a limit of zero is reached at once. */
  predicate InTime(limit: u32, w: Wire, w': Wire, n: nat) {
    Paced(limit, w, w', n) && n > 0 && (limit > 0 ==> Elapsed(Readings(w, w')) < limit)
  }

  /** A clock reading between two status reads. */
  lemma PollTick(frame: seq<byte>, p: Patience, w0: Wire, w: Wire, start: u32, now: u32, n: nat)
    requires Waiting(frame, p, w0, w, start, n)
    ensures var w' := w.(ticks := w.ticks + [now]);
            Waiting(frame, p, w0, w', start, n) && Elapsed(w'.ticks[|w0.ticks|..]) == (now - start) % U32
            && Answers(Since(w0, w')) == Answers(Since(w0, w))
  {}

  lemma InTimeTick(frame: seq<byte>, p: Patience, limit: u32, w0: Wire, w: Wire, start: u32, now: u32, n: nat)
    requires Waiting(frame, p, w0, w, start, n) && InTime(limit, w0, w, n)
    ensures var w' := w.(ticks := w.ticks + [now]);
            Waiting(frame, p, w0, w', start, n) && Elapsed(Readings(w0, w')) == (now - start) % U32
            && Answers(Since(w0, w')) == Answers(Since(w0, w))
            && ((now - start) % U32 < limit ==> InTime(limit, w0, w', n + 1))
  {
    var w' := w.(ticks := w.ticks + [now]);
    PollTick(frame, p, w0, w, start, now, n);
    assert Readings(w0, w') == Readings(w0, w) + [now];
  }
}
