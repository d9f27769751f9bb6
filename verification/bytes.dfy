/** Bytes, 32-bit words and the few bit operations the sources use. */
module Bytes {
  type byte = b: int | 0 <= b < 256

  const U32: int := 0x1_0000_0000

  type u32 = n: int | 0 <= n < 0x1_0000_0000

  /** `x & y` on naturals. */
  function And(x: nat, y: nat): nat {
    if x == 0 || y == 0 then 0
    else (if x % 2 == 1 && y % 2 == 1 then 1 else 0) + 2 * And(x / 2, y / 2)
  }

  /** `x & weight`, for a weight that is a power of two. */
  predicate Bit(x: nat, weight: nat)
    requires weight > 0
  {
    (x / weight) % 2 == 1
  }

  /** `x | weight`, for the bit weights of a byte. */
  function SetBit(x: byte, weight: nat): byte
    requires weight in {1, 2, 4, 8, 16, 32, 64, 128}
  {
    if Bit(x, weight) then x else x + weight
  }

  /** `x & ~weight`, for the bit weights of a byte. */
  function ClearBit(x: byte, weight: nat): byte
    requires weight in {1, 2, 4, 8, 16, 32, 64, 128}
  {
    if Bit(x, weight) then x - weight else x
  }

  function Reverse<T>(s: seq<T>): (r: seq<T>)
    ensures |r| == |s|
    ensures forall i :: 0 <= i < |s| ==> r[i] == s[|s| - 1 - i]
  {
    seq(|s|, i requires 0 <= i < |s| => s[|s| - 1 - i])
  }

  /** A 16-bit value from its low and high bytes. */
  function Word(lo: int, hi: int): int { lo + 256 * hi }

  function Min(a: int, b: int): int { if a < b then a else b }

  /** The buffer with the bytes at an offset replaced. */
  function Overlay(buf: seq<byte>, off: nat, bytes: seq<byte>): (r: seq<byte>)
    requires off + |bytes| <= |buf|
    ensures |r| == |buf|
    ensures forall i :: 0 <= i < |buf| ==> r[i] == if off <= i < off + |bytes| then bytes[i - off] else buf[i]
  {
    buf[..off] + bytes + buf[off + |bytes|..]
  }

  /** Bytes copied into a buffer at an offset. */
  method CopyInto(buf: array<byte>, off: nat, bytes: seq<byte>)
    requires off + |bytes| <= buf.Length
    modifies buf
    ensures buf[..] == Overlay(old(buf[..]), off, bytes)
  {
    for k := 0 to |bytes|
      invariant forall i :: 0 <= i < buf.Length ==>
                  buf[i] == if off <= i < off + k then bytes[i - off] else old(buf[i])
    {
      buf[off + k] := bytes[k];
    }
    assert buf[..] == Overlay(old(buf[..]), off, bytes);
  }

  /** One seal for each definition that is sealed. */
  datatype Seal =
    | WholePagesSeal | SoundSeal | EmulatesSeal | PagesRemainSeal | HasReadSeal | HasReadFusesSeal |
    RestoresSeal | PlacesSeal | BasedSeal | SpellsSeal | InStepSeal | FailedSeal | RemainingSeal |
    UnwrittenSeal | FuseGrownSeal | FuseRanAsSeal | StillWritesSeal | PlaysSeal | MatchesSeal |
    DumpedSeal | BeginsWithSeal | InSyncSeal | RanSeal | FormattedSeal

  /**
   Always true. A definition put under a quantifier with this trigger stays sealed, which keeps it out
   of proofs that need only its name, until a proof mentions Unsealed for its seal.
   */
  predicate Unsealed(seal: Seal, k: int) { true }
}
