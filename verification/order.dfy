/** In what order an operation of the worker did things, read off its transcript. */
module TranscriptOrder {
  import opened Bytes
  import opened Protocol
  import opened WireLog

  /** The event was recorded between two positions of the transcript. */
  predicate Said(log: seq<Event>, from: nat, to: nat, e: Event) {
    exists j :: from <= j < to && j < |log| && log[j] == e
  }

  /** Writing flash had returned, whatever it returned. */
  predicate Written(log: seq<Event>, from: nat, to: nat) {
    exists j :: from <= j < to && j < |log| && log[j].Returned? && log[j].call == WriteFlash
  }

  /** A chip erase had succeeded, and writing flash had not returned yet. */
  predicate InFlashing(log: seq<Event>, from: nat, to: nat) {
    Said(log, from, to, Returned(ChipErase, Ok)) && !Written(log, from, to)
  }

  /** Neither an erase nor a write had returned. */
  predicate Untouched(log: seq<Event>, from: nat) {
    forall j :: from <= j < |log| && log[j].Returned? ==> log[j].call != ChipErase && log[j].call != WriteFlash
  }

  /**
   What an operation may do when: the event that gates stores, the frame that opens a store to the command
   register, the one command (but NOCMD) stored there before flashing, and what flashing may send.
   */
  datatype Rules = Rules(gate: Event, commandFrame: seq<byte>, erase: byte, flashing: Scope)

  /**
   The frame sent at i had its reasons: the chip-erase key, that connecting found the device locked; a
   store, the operation's gate; a store elsewhere than to the NVM command register, that flashing was
   going on; a single byte, such as a command's code, that it is zero or, gated, the erase command, or that
   flashing was going on. And while flashing goes on, only its frames are sent.
   */
  predicate Justified(log: seq<Event>, from: nat, i: nat, rules: Rules)
    requires i < |log| && log[i].Sent?
  {
    var f := log[i].frame;
    && (f == Reverse(ERASE_KEY) ==> Said(log, from, i, Returned(Connect, ErrLocked)))
    && (StoreFrame(f) ==> Said(log, from, i, rules.gate))
    && (StoreFrame(f) && f != rules.commandFrame ==> InFlashing(log, from, i))
    && (|f| == 1 ==>
          f == [0] || (f == [rules.erase] && Said(log, from, i, rules.gate)) || InFlashing(log, from, i))
    && (InFlashing(log, from, i) ==> Permits(rules.flashing, f))
  }

  ghost predicate InOrder(log: seq<Event>, from: nat, rules: Rules) {
    rules.gate.Returned? && forall i :: from <= i < |log| && log[i].Sent? ==> Justified(log, from, i, rules)
  }

  /** Nothing but frames of the scope was sent. */
  predicate SentWithin(log: seq<Event>, from: nat, scope: Scope) {
    forall i :: from <= i < |log| && log[i].Sent? ==> Permits(scope, log[i].frame)
  }

  lemma SentWithinGrew(log: seq<Event>, log': seq<Event>, from: nat, scope: Scope)
    requires SentWithin(log, from, scope) && Grew(log, log', scope)
    ensures SentWithin(log', from, scope)
  {}

  // ---- what was said does not change ----

  lemma SameSaid(log: seq<Event>, log': seq<Event>, from: nat, to: nat, e: Event)
    requires log <= log' && to <= |log|
    ensures Said(log', from, to, e) <==> Said(log, from, to, e)
    ensures Written(log', from, to) <==> Written(log, from, to)
  {
    assert forall j :: 0 <= j < to ==> log'[j] == log[j];
  }

  /** Frames sent and answers received say nothing. */
  lemma GrewSaid(log: seq<Event>, log': seq<Event>, scope: Scope, from: nat, to: nat, e: Event)
    requires Grew(log, log', scope) && |log| <= to <= |log'| && e.Returned?
    ensures Said(log', from, to, e) <==> Said(log, from, |log|, e)
    ensures Written(log', from, to) <==> Written(log, from, |log|)
  {
    assert forall j :: 0 <= j < |log| ==> log'[j] == log[j];
    assert forall j :: |log| <= j < to ==> !log'[j].Returned?;
  }

  lemma NotedSaid(log: seq<Event>, from: nat, call: Call, status: Status, e: Event)
    requires from <= |log|
    ensures var log' := log + [Returned(call, status)];
      && (Said(log', from, |log'|, e) <==> Said(log, from, |log|, e) || e == Returned(call, status))
      && (Written(log', from, |log'|) <==> Written(log, from, |log|) || call == WriteFlash)
  {
    var log' := log + [Returned(call, status)];
    assert log'[|log|] == Returned(call, status) && forall j :: 0 <= j < |log| ==> log'[j] == log[j];
  }

  lemma SameJustified(log: seq<Event>, log': seq<Event>, from: nat, i: nat, rules: Rules)
    requires log <= log' && i < |log| && log[i].Sent?
    ensures Justified(log', from, i, rules) <==> Justified(log, from, i, rules)
  {
    SameSaid(log, log', from, i, Returned(Connect, ErrLocked));
    SameSaid(log, log', from, i, Returned(ChipErase, Ok));
    SameSaid(log, log', from, i, rules.gate);
  }

  // ---- keeping order ----

  lemma NoStores(f: seq<byte>)
    requires ReadOnlyFrame(f) || f == Reverse(ERASE_KEY) || |f| == 1
    ensures !StoreFrame(f)
  {
    assert Reverse(ERASE_KEY)[0] == 0x65 && Reverse(NVM_KEY)[0] == 0x20;
  }

  /** What must have been said before frames of a scope may be sent. */
  predicate Grants(log: seq<Event>, from: nat, scope: Scope, rules: Rules) {
    match scope
    case ReadOnly => InFlashing(log, from, |log|) ==> rules.flashing == ReadOnly
    case Unlocking => Said(log, from, |log|, Returned(Connect, ErrLocked)) && !InFlashing(log, from, |log|)
    case Commanding(ab, register, codes) =>
      Said(log, from, |log|, rules.gate) && rules.commandFrame == StsFrame(ab, DATA_8, register)
      && codes == {rules.erase} && !InFlashing(log, from, |log|)
    case Flashing(ab, register, codes, base, page, size) =>
      Said(log, from, |log|, rules.gate) && InFlashing(log, from, |log|) && rules.flashing == scope && page != 8
    case _ => false
  }

  lemma GrantedFrame(log: seq<Event>, log': seq<Event>, from: nat, i: nat, scope: Scope, rules: Rules)
    requires Grew(log, log', scope) && |log| <= i < |log'| && log'[i].Sent? && rules.gate.Returned?
    requires Grants(log, from, scope, rules)
    ensures Justified(log', from, i, rules)
  {
    var f := log'[i].frame;
    assert EventWithin(log'[i], scope);
    GrewSaid(log, log', scope, from, i, Returned(Connect, ErrLocked));
    GrewSaid(log, log', scope, from, i, Returned(ChipErase, Ok));
    GrewSaid(log, log', scope, from, i, rules.gate);
    if !scope.Unlocking? {
      NotTheEraseKey(f, scope);
    }
    if ReadOnlyFrame(f) || f == Reverse(ERASE_KEY) || |f| == 1 {
      NoStores(f);
    }
  }

  lemma InOrderGrew(log: seq<Event>, log': seq<Event>, from: nat, scope: Scope, rules: Rules)
    requires InOrder(log, from, rules) && Grew(log, log', scope) && Grants(log, from, scope, rules)
    ensures InOrder(log', from, rules)
    ensures forall e: Event :: e.Returned? ==> (Said(log', from, |log'|, e) <==> Said(log, from, |log|, e))
    ensures Written(log', from, |log'|) <==> Written(log, from, |log|)
  {
    forall i | from <= i < |log'| && log'[i].Sent?
      ensures Justified(log', from, i, rules)
    {
      if i < |log| {
        SameJustified(log, log', from, i, rules);
      } else {
        GrantedFrame(log, log', from, i, scope, rules);
      }
    }
    forall e: Event | e.Returned?
      ensures Said(log', from, |log'|, e) <==> Said(log, from, |log|, e)
      ensures Written(log', from, |log'|) <==> Written(log, from, |log|)
    {
      GrewSaid(log, log', scope, from, |log'|, e);
    }
    GrewSaid(log, log', scope, from, |log'|, rules.gate);
  }

  lemma InOrderNoted(log: seq<Event>, from: nat, call: Call, status: Status, rules: Rules)
    requires InOrder(log, from, rules) && from <= |log|
    ensures var log' := log + [Returned(call, status)];
      && InOrder(log', from, rules)
      && (forall e: Event :: Said(log', from, |log'|, e) <==> Said(log, from, |log|, e) || e == Returned(call, status))
      && (Written(log', from, |log'|) <==> Written(log, from, |log|) || call == WriteFlash)
  {
    var log' := log + [Returned(call, status)];
    forall i | from <= i < |log'| && log'[i].Sent?
      ensures Justified(log', from, i, rules)
    {
      SameJustified(log, log', from, i, rules);
    }
    forall e: Event
      ensures Said(log', from, |log'|, e) <==> Said(log, from, |log|, e) || e == Returned(call, status)
    {
      NotedSaid(log, from, call, status, e);
    }
    NotedSaid(log, from, call, status, rules.gate);
  }

  /**
   So instructions store nowhere but to the command register and to pages of the flash: no STS is sent but
   the command's, and from the erase to the end of writing the address register is only ever set to the
   start of a page within the flash. And of commands, only the erase, those of flashing while it goes on, and
   NOCMD can be stored. (Frames longer than an instruction are page data.)
   */
  lemma StoresStayInFlash(log: seq<Event>, from: nat, i: nat, rules: Rules)
    requires InOrder(log, from, rules) && from <= i < |log| && log[i].Sent? && |log[i].frame| <= 8
    requires rules.flashing.Flashing? && rules.flashing.page > 8
    requires rules.commandFrame == StsFrame(rules.flashing.width, DATA_8, rules.flashing.register)
    ensures StoreFrame(log[i].frame) ==> log[i].frame == rules.commandFrame || log[i].frame == StIncFrame(DATA_16)
    ensures PointerFrame(log[i].frame) && InFlashing(log, from, i) ==>
      var s := rules.flashing;
      exists off :: 0 <= off <= s.size && SetsPage(log[i].frame, s.width, s.base, s.page, s.size, off)
    ensures |log[i].frame| == 1 ==>
      var code := log[i].frame[0];
      code == 0 || if InFlashing(log, from, i) then code in rules.flashing.codes else code == rules.erase
  {
    var f := log[i].frame;
    if ReadOnlyFrame(f) || |f| == 1 {
      NoStores(f);
    }
  }

  // ---- connecting ----

  /**
   Only reads so far, the chip-erase key only once connecting had found the device locked, and nothing
   noted but what connecting returned.
   */
  predicate Connecting(log: seq<Event>, from: nat) {
    && (forall i :: from <= i < |log| && log[i].Sent? ==>
          ReadOnlyFrame(log[i].frame)
          || (log[i].frame == Reverse(ERASE_KEY) && Said(log, from, i, Returned(Connect, ErrLocked))))
    && (forall i :: from <= i < |log| && log[i].Returned? ==> log[i].call == Connect)
  }

  lemma ConnectingInOrder(log: seq<Event>, from: nat, rules: Rules)
    requires Connecting(log, from) && rules.gate.Returned?
    ensures InOrder(log, from, rules) && Untouched(log, from)
  {
    forall i | from <= i < |log| && log[i].Sent?
      ensures Justified(log, from, i, rules)
    {
      NoStores(log[i].frame);
      if ReadOnlyFrame(log[i].frame) {
        NotTheEraseKey(log[i].frame, ReadOnly);
      }
    }
  }

  /** A read-only stretch followed by the note of what it returned. */
  lemma ConnectingGrew(log: seq<Event>, log': seq<Event>, from: nat, st: Status)
    requires Connecting(log, from) && from <= |log|
    requires |log'| > 0 && log'[|log'| - 1] == Returned(Connect, st) && Grew(log, log'[..|log'| - 1], ReadOnly)
    ensures Connecting(log', from) && log <= log' && Said(log', from, |log'|, Returned(Connect, st))
    ensures SentWithin(log, from, ReadOnly) ==> SentWithin(log', from, ReadOnly)
  {
    assert forall i :: |log| <= i < |log'| - 1 ==> log'[i] == log'[..|log'| - 1][i];
    forall i | from <= i < |log'| && log'[i].Sent? && !ReadOnlyFrame(log'[i].frame)
      ensures log'[i].frame == Reverse(ERASE_KEY) && Said(log', from, i, Returned(Connect, ErrLocked))
    {
      if i < |log| {
        SameSaid(log, log', from, i, Returned(Connect, ErrLocked));
      }
    }
  }

  lemma UnlockingGrew(log: seq<Event>, log': seq<Event>, from: nat)
    requires Connecting(log, from) && Grew(log, log', Unlocking)
    requires Said(log, from, |log|, Returned(Connect, ErrLocked))
    ensures Connecting(log', from)
  {
    forall i | from <= i < |log'| && log'[i].Sent? && !ReadOnlyFrame(log'[i].frame)
      ensures log'[i].frame == Reverse(ERASE_KEY) && Said(log', from, i, Returned(Connect, ErrLocked))
    {
      if i < |log| {
        SameSaid(log, log', from, i, Returned(Connect, ErrLocked));
      } else {
        GrewSaid(log, log', Unlocking, from, i, Returned(Connect, ErrLocked));
      }
    }
  }
}
