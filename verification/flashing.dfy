/** What flashing and reading fuses leave in the transcript, on any target. */
module FlashTranscripts {
  import opened Bytes
  import opened Protocol
  import opened WireLog
  import opened Devices
  import opened FlashPages
  import opened PortEquivalence

  // ---- flashing page by page ----

  /** One page: skipped if it is blank, otherwise written as the Python class of the device writes it. */
  ghost predicate PageRan(d: Device, ab: AddressBytes, off: nat, p: seq<byte>, w: Wire, w': Wire)
    requires 2 <= |p| <= 512
  {
    if AllFF(p) then w' == w
    else Matches(d.variant, ab, PyWriteFlash(d.variant, ab, d.nvmctrlBase, AddressAt(d.flashAddress, off), p), w, w')
  }

  /** The pages of the image from an offset on, in order and each of them once. */
  ghost predicate PagesRan(d: Device, ab: AddressBytes, data: seq<byte>, off: nat, w: Wire, w': Wire)
    requires 2 <= d.flashPageSize <= 512
    decreases |data| - off
  {
    if off >= |data| then w' == w
    else
      exists w1: Wire ::
        PageRan(d, ab, off, Padded(data, off, d.flashPageSize), w, w1)
        && PagesRan(d, ab, data, off + d.flashPageSize, w1, w')
  }

  /** Whoever runs the pages from an offset on, from w, has run all of them from w0. Sealed. */
  ghost predicate PagesRemain(d: Device, ab: AddressBytes, data: seq<byte>, off: nat, w: Wire, w0: Wire)
    requires 2 <= d.flashPageSize <= 512
  {
    forall k: int {:trigger Unsealed(PagesRemainSeal, k)} :: Unsealed(PagesRemainSeal, k) ==>
      forall w': Wire :: PagesRan(d, ab, data, off, w, w') ==> PagesRan(d, ab, data, 0, w0, w')
  }

  lemma PagesBegin(d: Device, ab: AddressBytes, data: seq<byte>, w0: Wire)
    requires 2 <= d.flashPageSize <= 512
    ensures PagesRemain(d, ab, data, 0, w0, w0)
  {}

  lemma PageDone(d: Device, ab: AddressBytes, data: seq<byte>, off: nat, w: Wire, w1: Wire, w0: Wire)
    requires 2 <= d.flashPageSize <= 512 && off < |data| && PagesRemain(d, ab, data, off, w, w0)
    requires PageRan(d, ab, off, Padded(data, off, d.flashPageSize), w, w1)
    ensures PagesRemain(d, ab, data, off + d.flashPageSize, w1, w0)
  {
    assert Unsealed(PagesRemainSeal, 0);
    forall w': Wire | PagesRan(d, ab, data, off + d.flashPageSize, w1, w')
      ensures PagesRan(d, ab, data, 0, w0, w')
    {
      assert PagesRan(d, ab, data, off, w, w');
    }
  }

  lemma PagesDone(d: Device, ab: AddressBytes, data: seq<byte>, off: nat, w: Wire, w0: Wire)
    requires 2 <= d.flashPageSize <= 512 && off >= |data| && PagesRemain(d, ab, data, off, w, w0)
    ensures PagesRan(d, ab, data, 0, w0, w)
  {
    assert Unsealed(PagesRemainSeal, 0);
    assert PagesRan(d, ab, data, off, w, w);
  }

  // ---- reads ----

  /** Exactly n bytes from address a were read, and these they are. Sealed. */
  ghost predicate HasRead(ab: AddressBytes, a: u32, n: nat, w: Wire, w': Wire, bytes: seq<byte>) {
    forall k: int {:trigger Unsealed(HasReadSeal, k)} :: Unsealed(HasReadSeal, k) ==>
      Ran(ReadScript(ab, a, n), w, w', Ok, bytes)
  }

  lemma HasReadMeans(ab: AddressBytes, a: u32, n: nat, w: Wire, w': Wire, bytes: seq<byte>)
    ensures HasRead(ab, a, n, w, w', bytes) <==> Ran(ReadScript(ab, a, n), w, w', Ok, bytes)
  {
    assert Unsealed(HasReadSeal, 0);
  }

  lemma ReadIs(ab: AddressBytes, a: u32, n: nat, w: Wire, w': Wire, s: Status, bytes: seq<byte>)
    requires Ran(ReadScript(ab, a, n), w, w', s, bytes)
    ensures s == Ok ==> HasRead(ab, a, n, w, w', bytes)
  {}

  lemma HasReadNothing(ab: AddressBytes, a: u32, w: Wire)
    ensures HasRead(ab, a, 0, w, w, [])
  {
    RanNothing(w);
  }

  lemma Reassociate(a: Script, b: Script, c: Script)
    ensures a + (b + c) == a + b + c
  {}

  lemma ReadScriptStep(ab: AddressBytes, a: u32, size: nat, rest: Script)
    requires size >= MAX_REPEAT && rest == ReadScript(ab, AddressAt(a, MAX_REPEAT), size - MAX_REPEAT)
    ensures ReadScript(ab, a, size) == ReadDataScript(ab, a, MAX_REPEAT) + rest
  {
    assert Min(size, MAX_REPEAT) == MAX_REPEAT;
  }

  lemma SplitStep(ab: AddressBytes, a: u32, m: nat, n: nat, s1: Script, s2: Script)
    requires s1 == ReadScript(ab, AddressAt(a, MAX_REPEAT), m)
    requires s1 + s2 == ReadScript(ab, AddressAt(a, MAX_REPEAT), m + n)
    ensures ReadScript(ab, a, m + MAX_REPEAT + n) == ReadScript(ab, a, m + MAX_REPEAT) + s2
  {
    ReadScriptStep(ab, a, m + MAX_REPEAT + n, s1 + s2);
    ReadScriptStep(ab, a, m + MAX_REPEAT, s1);
    Reassociate(ReadDataScript(ab, a, MAX_REPEAT), s1, s2);
  }

  lemma OneMoreChunk(ab: AddressBytes, a: u32, m: nat, n: nat, whole: Script, first: Script, rest: Script)
    requires var next := AddressAt(a, MAX_REPEAT);
      ReadScript(ab, next, m + n) == ReadScript(ab, next, m) + ReadScript(ab, AddressAt(next, m), n)
    requires whole == ReadScript(ab, a, m + MAX_REPEAT + n) && first == ReadScript(ab, a, m + MAX_REPEAT)
    requires rest == ReadScript(ab, AddressAt(a, m + MAX_REPEAT), n)
    ensures whole == first + rest
  {
    var next := AddressAt(a, MAX_REPEAT);
    AddressAtThen(a, MAX_REPEAT, m);
    SplitStep(ab, a, m, n, ReadScript(ab, next, m), ReadScript(ab, AddressAt(next, m), n));
  }

  lemma NoChunks(ab: AddressBytes, a: u32, n: nat)
    ensures ReadScript(ab, a, n) == ReadScript(ab, a, 0) + ReadScript(ab, AddressAt(a, 0), n)
  {
    assert ReadScript(ab, a, 0) == [] && AddressAt(a, 0) == a;
  }

  lemma {:induction false} ReadChunks(ab: AddressBytes, a: u32, chunks: nat, m: nat, n: nat)
    requires m == chunks * MAX_REPEAT
    ensures ReadScript(ab, a, m + n) == ReadScript(ab, a, m) + ReadScript(ab, AddressAt(a, m), n)
    decreases chunks
  {
    if chunks == 0 {
      NoChunks(ab, a, n);
    } else {
      var whole, first, rest := ReadScript(ab, a, m + n), ReadScript(ab, a, m), ReadScript(ab, AddressAt(a, m), n);
      ReadChunks(ab, AddressAt(a, MAX_REPEAT), chunks - 1, m - MAX_REPEAT, n);
      assert m - MAX_REPEAT + MAX_REPEAT + n == m + n;
      OneMoreChunk(ab, a, m - MAX_REPEAT, n, whole, first, rest);
    }
  }

  /** Reading in 256-byte steps follows the same script as one long read, also across the end of the address space. */
  lemma ReadScriptSplit(ab: AddressBytes, a: u32, m: nat, n: nat)
    requires m % MAX_REPEAT == 0
    ensures ReadScript(ab, a, m + n) == ReadScript(ab, a, m) + ReadScript(ab, AddressAt(a, m), n)
  {
    assert m == m / MAX_REPEAT * MAX_REPEAT;
    ReadChunks(ab, a, m / MAX_REPEAT, m, n);
  }

  /** One more chunk: the transcript of the whole read so far. */
  lemma HasReadMore(ab: AddressBytes, a: u32, off: nat, chunk: nat, w0: Wire, w1: Wire, w2: Wire,
                    d1: seq<byte>, d2: seq<byte>)
    requires off % MAX_REPEAT == 0
    requires HasRead(ab, a, off, w0, w1, d1) && HasRead(ab, AddressAt(a, off), chunk, w1, w2, d2)
    ensures HasRead(ab, a, off + chunk, w0, w2, d1 + d2)
  {
    HasReadMeans(ab, a, off, w0, w1, d1);
    HasReadMeans(ab, AddressAt(a, off), chunk, w1, w2, d2);
    HasReadMeans(ab, a, off + chunk, w0, w2, d1 + d2);
    ReadScriptSplit(ab, a, off, chunk);
    RanThen(ReadScript(ab, a, off), ReadScript(ab, AddressAt(a, off), chunk), w0, w1, w2, Ok, d1, d2);
  }

  // ---- fuses ----

  /** The first n fuses read one by one. */
  function FusesScript(ab: AddressBytes, base: u24, n: nat): Script
    requires n <= 256
  {
    if n == 0 then [] else FusesScript(ab, base, n - 1) + LdByteScript(ab, base + n - 1)
  }

  /** Exactly these fuses were read, with these values. Sealed. */
  ghost predicate HasReadFuses(ab: AddressBytes, base: u24, w: Wire, w': Wire, fuses: seq<byte>)
    requires |fuses| <= 256
  {
    forall k: int {:trigger Unsealed(HasReadFusesSeal, k)} :: Unsealed(HasReadFusesSeal, k) ==>
      Ran(FusesScript(ab, base, |fuses|), w, w', Ok, fuses)
  }

  lemma HasReadFusesMeans(ab: AddressBytes, base: u24, w: Wire, w': Wire, fuses: seq<byte>)
    requires |fuses| <= 256
    ensures HasReadFuses(ab, base, w, w', fuses) <==> Ran(FusesScript(ab, base, |fuses|), w, w', Ok, fuses)
  {
    assert Unsealed(HasReadFusesSeal, 0);
  }

  lemma HasReadNoFuses(ab: AddressBytes, base: u24, w: Wire)
    ensures HasReadFuses(ab, base, w, w, [])
  {
    RanNothing(w);
  }

  lemma HasReadOneMore(ab: AddressBytes, base: u24, w0: Wire, w1: Wire, w2: Wire, fuses: seq<byte>, value: byte)
    requires |fuses| < 256 && HasReadFuses(ab, base, w0, w1, fuses)
    requires Ran(LdByteScript(ab, base + |fuses|), w1, w2, Ok, [value])
    ensures HasReadFuses(ab, base, w0, w2, fuses + [value])
  {
    HasReadFusesMeans(ab, base, w0, w1, fuses);
    RanThen(FusesScript(ab, base, |fuses|), LdByteScript(ab, base + |fuses|), w0, w1, w2, Ok, fuses, [value]);
    HasReadFusesMeans(ab, base, w0, w2, fuses + [value]);
  }
}
