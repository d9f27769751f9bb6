/**
 The transport seam (updi_transport.h). With an emulator attached, sends feed it and receives
 drain it. Without one, the target is arbitrary: sends may fail, answers and the clock are
 unconstrained.
 */
module UpdiTransport {
  import opened Bytes
  import opened Protocol
  import opened Target
  import opened WireLog
  import opened UpdiEmulator

  class Transport {
    const emu: Emulator?
    ghost var wire: Wire
    ghost const Repr: set<object>

    /** The wire's target is what the attached emulator represents. Sealed in Valid. */
    ghost predicate InSync()
      reads this, Repr
    {
      emu != null ==>
        emu in Repr && emu.ring in Repr && emu.Repr <= Repr && this !in emu.Repr
        && emu.Valid() && wire.target == emu.Abs()
    }

    ghost predicate Valid()
      reads this, Repr
    {
      this in Repr && (wire.emulated <==> emu != null) && (wire.emulated ==> |wire.target.rx| < RX_CAP)
      && forall k: int {:trigger Unsealed(InSyncSeal, k)} :: Unsealed(InSyncSeal, k) ==> InSync()
    }

    constructor Emulated(emu: Emulator)
      requires emu.Valid()
      ensures Valid() && fresh(Repr - emu.Repr) && wire == Wire(true, emu.Abs(), [], [])
    {
      this.emu := emu;
      wire := Wire(true, emu.Abs(), [], []);
      Repr := {this} + emu.Repr;
    }

    constructor Arbitrary(ghost nobody: Target)
      ensures Valid() && fresh(Repr) && wire == Wire(false, nobody, [], [])
    {
      emu := null;
      wire := Wire(false, nobody, [], []);
      Repr := {this};
    }

    method Send(data: seq<byte>) returns (ok: bool)
      requires Valid()
      modifies Repr
      ensures Valid() && (wire.emulated ==> ok)
      ensures wire == old(wire).(log := old(wire).log + [Sent(data, ok)],
                                 target := if wire.emulated then FeedAll(old(wire).target, data) else old(wire).target)
    {
      assert Unsealed(InSyncSeal, 0);
      if emu != null {
        emu.SendBytes(data);
        ok := true;
        wire := wire.(target := emu.Abs());
      } else {
        ok := *;
      }
      wire := wire.(log := wire.log + [Sent(data, ok)]);
    }

    method Recv(n: nat) returns (bytes: seq<byte>)
      requires Valid()
      modifies Repr
      ensures Valid() && |bytes| <= n
      ensures wire.emulated ==> bytes == Taken(old(wire).target, n)
      ensures wire == old(wire).(log := old(wire).log + [Received(n, bytes)],
                                 target := if wire.emulated then AfterTaking(old(wire).target, n) else old(wire).target)
    {
      assert Unsealed(InSyncSeal, 0);
      if emu != null {
        bytes := emu.RecvBytes(n);
        wire := wire.(target := emu.Abs());
      } else {
        bytes := *;
        bytes := bytes[..Min(n, |bytes|)];
      }
      wire := wire.(log := wire.log + [Received(n, bytes)]);
    }

    method DoubleBreak()
      requires Valid()
      modifies Repr
      ensures Valid()
      ensures wire == old(wire).(log := old(wire).log + [Broke],
                                 target := if wire.emulated
                                           then old(wire).target.(dec := old(wire).target.dec.(state := Idle))
                                           else old(wire).target)
    {
      assert Unsealed(InSyncSeal, 0);
      if emu != null {
        emu.DoubleBreak();
        wire := wire.(target := emu.Abs());
      }
      wire := wire.(log := wire.log + [Broke]);
    }

    method Millis() returns (ms: u32)
      requires Valid()
      modifies Repr
      ensures Valid() && wire == old(wire).(ticks := old(wire).ticks + [ms])
    {
      assert Unsealed(InSyncSeal, 0);
      if emu != null {
        ms := emu.Millis();
      } else {
        ms := *;
      }
      wire := wire.(ticks := wire.ticks + [ms]);
    }

    /** Records in the transcript, for the proofs only, what a step of the worker returned. */
    ghost method Note(call: Call, status: Status)
      requires Valid()
      modifies this`wire
      ensures Valid() && wire == old(wire).(log := old(wire).log + [Returned(call, status)])
    {
      assert Unsealed(InSyncSeal, 0);
      wire := wire.(log := wire.log + [Returned(call, status)]);
    }
  }
}
