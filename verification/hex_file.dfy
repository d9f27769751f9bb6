/** Whole HEX files: the records the writer produces, and what parsing a sequence of lines gives. */
module HexFile {
  import opened Bytes
  import opened HexFormat
  import opened HexLemmas

  // ---- parsing lines up to the first error ----

  datatype Parsed = Parsed(status: HexStatus, image: Image)

  /** The lines in order, up to the first one that is rejected. */
  function ParseAll(img: Image, lines: seq<seq<byte>>): Parsed
    decreases |lines|
  {
    if lines == [] then Parsed(HexOk, img)
    else
      var before, last := ParseAll(img, lines[..|lines| - 1]), lines[|lines| - 1];
      if before.status != HexOk then before
      else Parsed(LineStatus(before.image, last), ParseLine(before.image, last))
  }

  lemma RejectedKeeps(img: Image, line: seq<byte>)
    ensures LineStatus(img, line) != HexOk ==> ParseLine(img, line) == img
  {}

  /** Stopping at an error leaves the image that the lines before it made. */
  lemma {:induction false} ParseAllIsPrefix(img: Image, lines: seq<seq<byte>>) returns (k: nat)
    ensures k <= |lines| && ParseAll(img, lines).image == ParseLines(img, lines[..k])
    ensures ParseAll(img, lines).status == HexOk ==> k == |lines|
    ensures ParseAll(img, lines).status != HexOk ==>
      k < |lines| && LineStatus(ParseLines(img, lines[..k]), lines[k]) == ParseAll(img, lines).status
    decreases |lines|
  {
    if lines == [] {
      k := 0;
    } else {
      var init, last := lines[..|lines| - 1], lines[|lines| - 1];
      k := ParseAllIsPrefix(img, init);
      if ParseAll(img, init).status != HexOk {
        assert init[..k] == lines[..k];
      } else {
        assert init[..k] == init && lines[..|lines|] == lines;
        RejectedKeeps(ParseAll(img, init).image, last);
        if ParseAll(img, lines).status == HexOk {
          k := |lines|;
        }
      }
    }
  }

  lemma {:induction false} ParseAllThen(img: Image, a: seq<seq<byte>>, b: seq<seq<byte>>)
    ensures ParseAll(img, a + b) ==
      if ParseAll(img, a).status == HexOk then ParseAll(ParseAll(img, a).image, b) else ParseAll(img, a)
    decreases |b|
  {
    if b == [] {
      assert a + b == a;
    } else {
      assert (a + b)[..|a + b| - 1] == a + b[..|b| - 1];
      ParseAllThen(img, a, b[..|b| - 1]);
    }
  }

  // ---- written files ----

  /** The writer's initial upper half: no type 04 record precedes data in that very segment. */
  const NO_UPPER: u16 := 0xFFFF

  function ExtendedLinear(upper: u16): Record { Record(0, TYPE_EXT_LINEAR, [upper / 256, upper % 256]) }

  function EndOfFile(): Record { Record(0, TYPE_EOF, []) }

  function Width(bytesPerLine: nat): (w: nat)
    ensures 0 < w <= 255
  {
    if bytesPerLine == 0 || bytesPerLine > 255 then 16 else bytesPerLine
  }

  /** Addresses are truncated to 32 bits, then halved. */
  function UpperOf(address: nat): u16 { address % U32 / 0x1_0000 }

  function LowerOf(address: nat): u16 { address % U32 % 0x1_0000 }

  /** How much of the data goes into the record at an address: a line's worth, within its 64K segment. */
  function ChunkAt(data: seq<byte>, address: nat, width: nat): (n: nat)
    requires data != [] && 0 < width <= 255
    ensures 0 < n <= width && n <= |data|
  {
    Min(Min(|data|, width), 0x1_0000 - LowerOf(address))
  }

  function DataRecord(data: seq<byte>, address: nat, width: nat): Record
    requires data != [] && 0 < width <= 255
  {
    Record(LowerOf(address), TYPE_DATA, data[..ChunkAt(data, address, width)])
  }

  function SegmentBase(upper: int): int { upper * 0x1_0000 }

  function Segment(upper: u16, next: u16): seq<Record> {
    if next == upper then [] else [ExtendedLinear(next)]
  }

  /** The records for data at an address, when the last type 04 record named `upper`. */
  function Written(data: seq<byte>, address: nat, width: nat, upper: u16): seq<Record>
    requires 0 < width <= 255
    decreases |data|
  {
    if data == [] then [EndOfFile()]
    else
      var n := ChunkAt(data, address, width);
      Segment(upper, UpperOf(address))
      + [DataRecord(data, address, width)]
      + Written(data[n..], address + n, width, UpperOf(address))
  }

  function WrittenFile(data: seq<byte>, start: u32, bytesPerLine: nat): seq<Record> {
    Written(data, start, Width(bytesPerLine), NO_UPPER)
  }

  function RecordLine(r: Record): seq<byte> { RecordText(r) + [CR, LF] }

  function FileText(records: seq<Record>): seq<byte> {
    if records == [] then [] else RecordLine(records[0]) + FileText(records[1..])
  }

  lemma FileTextThen(a: seq<Record>, b: seq<Record>)
    ensures FileText(a + b) == FileText(a) + FileText(b)
    decreases |a|
  {
    if a == [] {
      assert a + b == b;
    } else {
      assert (a + b)[1..] == a[1..] + b;
      FileTextThen(a[1..], b);
    }
  }

  /** The records as lines, each followed by what the line reader leaves of the line end. */
  function RecordLines(records: seq<Record>, tail: seq<byte>): (lines: seq<seq<byte>>)
    ensures |lines| == |records|
  {
    if records == [] then [] else [RecordText(records[0]) + tail] + RecordLines(records[1..], tail)
  }

  // ---- applying records ----

  function ApplyAll(img: Image, records: seq<Record>): Parsed
    decreases |records|
  {
    if records == [] then Parsed(HexOk, img)
    else if Verdict(img, records[0]) != HexOk then Parsed(Verdict(img, records[0]), img)
    else ApplyAll(Apply(img, records[0]), records[1..])
  }

  lemma ParseOne(img: Image, line: seq<byte>)
    ensures ParseAll(img, [line]) == Parsed(LineStatus(img, line), ParseLine(img, line))
  {
    assert [line][..0] == [];
  }

  lemma {:induction false} ParseRecordLines(img: Image, records: seq<Record>, tail: seq<byte>)
    ensures ParseAll(img, RecordLines(records, tail)) == ApplyAll(img, records)
    decreases |records|
  {
    if records != [] {
      var line, rest := RecordText(records[0]) + tail, RecordLines(records[1..], tail);
      DecodeRecordText(records[0], tail);
      ParseAllThen(img, [line], rest);
      ParseOne(img, line);
      if Verdict(img, records[0]) == HexOk {
        ParseRecordLines(Apply(img, records[0]), records[1..], tail);
      }
    }
  }

  // ---- round trip ----

  /** The image after the bytes were stored at their place and the file ended. */
  predicate Restored(after: Image, before: Image, bytes: seq<byte>, at: nat)
    requires at + |bytes| <= |before.data|
  {
    && after.data == Overlay(before.data, at, bytes)
    && after.eofSeen
    && (bytes == [] ==> after.any == before.any && after.minOffset == before.minOffset
                        && after.maxOffset == before.maxOffset)
    && (bytes != [] ==>
          && after.any
          && after.minOffset == (if before.any then Min(before.minOffset, at) else at)
          && after.maxOffset == (if before.any && at + |bytes| < before.maxOffset then before.maxOffset
                                 else at + |bytes|))
  }

  /** The records are accepted and store the bytes at their place. Sealed. */
  ghost predicate Restores(img: Image, records: seq<Record>, bytes: seq<byte>, at: nat)
    requires at + |bytes| <= |img.data|
  {
    forall k: int {:trigger Unsealed(RestoresSeal, k)} :: Unsealed(RestoresSeal, k) ==>
      ApplyAll(img, records).status == HexOk && Restored(ApplyAll(img, records).image, img, bytes, at)
  }

  lemma RestoresMeans(img: Image, records: seq<Record>, bytes: seq<byte>, at: nat)
    requires at + |bytes| <= |img.data|
    ensures Restores(img, records, bytes, at) <==>
      ApplyAll(img, records).status == HexOk && Restored(ApplyAll(img, records).image, img, bytes, at)
  {
    assert Unsealed(RestoresSeal, 0);
  }

  /** The records written for the data restore it, from this state of writer and image on. Sealed. */
  ghost predicate Places(img: Image, data: seq<byte>, address: nat, width: nat, upper: u16)
    requires 0 < width <= 255
    requires img.baseOffset <= address && address - img.baseOffset + |data| <= |img.data|
  {
    forall k: int {:trigger Unsealed(PlacesSeal, k)} :: Unsealed(PlacesSeal, k) ==>
      Restores(img, Written(data, address, width, upper), data, address - img.baseOffset)
  }

  /** The image's base is right for an address that needs no type 04 record. Sealed. */
  ghost predicate Based(img: Image, address: nat, upper: u16) {
    forall k: int {:trigger Unsealed(BasedSeal, k)} :: Unsealed(BasedSeal, k) ==>
      UpperOf(address) == upper ==> img.extBase == SegmentBase(upper)
  }

  lemma PlacesMeans(img: Image, data: seq<byte>, address: nat, width: nat, upper: u16)
    requires 0 < width <= 255 && img.baseOffset <= address && address - img.baseOffset + |data| <= |img.data|
    ensures Places(img, data, address, width, upper)
            <==> Restores(img, Written(data, address, width, upper), data, address - img.baseOffset)
  {
    assert Unsealed(PlacesSeal, 0);
  }

  lemma BasedMeans(img: Image, address: nat, upper: u16)
    ensures Based(img, address, upper) <==> (UpperOf(address) == upper ==> img.extBase == SegmentBase(upper))
  {
    assert Unsealed(BasedSeal, 0);
  }

  lemma ApplyCons(img: Image, r: Record, rest: seq<Record>)
    ensures ApplyAll(img, [r] + rest) ==
      if Verdict(img, r) == HexOk then ApplyAll(Apply(img, r), rest) else Parsed(Verdict(img, r), img)
  {
    assert ([r] + rest)[1..] == rest;
  }

  lemma EndRestores(img: Image, at: nat)
    requires at <= |img.data|
    ensures Restores(img, [EndOfFile()], [], at)
  {
    assert Overlay(img.data, at, []) == img.data;
    ApplyCons(img, EndOfFile(), []);
    RestoresMeans(img, [EndOfFile()], [], at);
    assert [EndOfFile()] + [] == [EndOfFile()];
  }

  lemma NothingPlaced(img: Image, address: nat, width: nat, upper: u16)
    requires 0 < width <= 255 && img.baseOffset <= address && address - img.baseOffset <= |img.data|
    ensures Places(img, [], address, width, upper)
  {
    EndRestores(img, address - img.baseOffset);
  }

  lemma WrittenUnfolds(data: seq<byte>, address: nat, width: nat, upper: u16, rest: seq<Record>)
    requires data != [] && 0 < width <= 255
    requires rest == Written(data[ChunkAt(data, address, width)..], address + ChunkAt(data, address, width), width,
                             UpperOf(address))
    ensures Written(data, address, width, upper)
            == Segment(upper, UpperOf(address)) + [DataRecord(data, address, width)] + rest
  {}

  /** Bytes stored in an image, with the bounds following. */
  predicate StoredOver(after: Image, before: Image, bytes: seq<byte>, at: nat)
    requires at + |bytes| <= |before.data|
  {
    && after.any && after.data == Overlay(before.data, at, bytes)
    && after.minOffset == (if before.any && before.minOffset <= at then before.minOffset else at)
    && after.maxOffset == (if before.any && at + |bytes| <= before.maxOffset then before.maxOffset else at + |bytes|)
  }

  /** One round of the writer's loop as seen by the parser: the segment if it is a new one, then the data. */
  lemma SegmentThen(img: Image, upper: u16, next: u16, record: Record, rest: seq<Record>)
    requires next == upper ==> img.extBase == SegmentBase(next)
    requires Verdict(img.(extBase := SegmentBase(next)), record) == HexOk
    ensures ApplyAll(img, Segment(upper, next) + [record] + rest)
            == ApplyAll(Apply(img.(extBase := SegmentBase(next)), record), rest)
  {
    var based := img.(extBase := SegmentBase(next));
    if next == upper {
      assert Segment(upper, next) + [record] + rest == [record] + rest;
    } else {
      assert Segment(upper, next) + [record] + rest == [ExtendedLinear(next)] + ([record] + rest);
      ApplyCons(img, ExtendedLinear(next), [record] + rest);
      assert Apply(img, ExtendedLinear(next)) == based;
    }
    ApplyCons(based, record, rest);
  }

  lemma RestoredThen(after: Image, middle: Image, before: Image, a: seq<byte>, b: seq<byte>, at: nat)
    requires at + |a| + |b| <= |before.data| == |middle.data| && a != []
    requires StoredOver(middle, before, a, at)
    requires Restored(after, middle, b, at + |a|)
    ensures Restored(after, before, a + b, at)
  {
    assert after.data == Overlay(before.data, at, a + b);
  }

  lemma RestoresStep(img: Image, upper: u16, next: u16, record: Record, rest: seq<Record>, middle: Image,
                     a: seq<byte>, b: seq<byte>, at: nat)
    requires next == upper ==> img.extBase == SegmentBase(next)
    requires Verdict(img.(extBase := SegmentBase(next)), record) == HexOk
    requires middle == Apply(img.(extBase := SegmentBase(next)), record)
    requires a != [] && at + |a| + |b| <= |img.data| && StoredOver(middle, img, a, at)
    requires Restores(middle, rest, b, at + |a|)
    ensures Restores(img, Segment(upper, next) + [record] + rest, a + b, at)
  {
    SegmentThen(img, upper, next, record, rest);
    RestoresMeans(middle, rest, b, at + |a|);
    RestoresMeans(img, Segment(upper, next) + [record] + rest, a + b, at);
    RestoredThen(ApplyAll(middle, rest).image, middle, img, a, b, at);
  }

  /** A data record after the segment it belongs to was named lands at its absolute address. */
  lemma DataRecordLands(img: Image, data: seq<byte>, address: nat, width: nat)
    requires data != [] && 0 < width <= 255 && address + |data| <= U32
    requires img.extBase == SegmentBase(UpperOf(address))
    requires img.baseOffset <= address && address - img.baseOffset + |data| <= |img.data|
    ensures Absolute(img, DataRecord(data, address, width)) == address
    ensures InRange(img, DataRecord(data, address, width))
  {}

  /** What one data record of a written file does, once its segment is named. */
  lemma DataStored(img: Image, data: seq<byte>, address: nat, width: nat) returns (after: Image)
    requires data != [] && 0 < width <= 255 && address + |data| <= U32
    requires img.baseOffset <= address && address - img.baseOffset + |data| <= |img.data|
    ensures Verdict(img.(extBase := SegmentBase(UpperOf(address))), DataRecord(data, address, width)) == HexOk
    ensures after == Apply(img.(extBase := SegmentBase(UpperOf(address))), DataRecord(data, address, width))
    ensures StoredOver(after, img, data[..ChunkAt(data, address, width)], address - img.baseOffset)
    ensures after.extBase == SegmentBase(UpperOf(address)) && after.baseOffset == img.baseOffset
  {
    var based, record := img.(extBase := SegmentBase(UpperOf(address))), DataRecord(data, address, width);
    DataRecordLands(based, data, address, width);
    after := Store(based, record);
  }

  lemma StepBoth(img: Image, data: seq<byte>, address: nat, width: nat, upper: u16, rest: seq<Record>,
                 all: seq<Record>)
    returns (middle: Image)
    requires data != [] && 0 < width <= 255 && address + |data| <= U32
    requires all == Segment(upper, UpperOf(address)) + [DataRecord(data, address, width)] + rest
    requires img.baseOffset <= address && address - img.baseOffset + |data| <= |img.data|
    requires UpperOf(address) == upper ==> img.extBase == SegmentBase(upper)
    ensures |middle.data| == |img.data| && middle.baseOffset == img.baseOffset
    ensures middle.extBase == SegmentBase(UpperOf(address))
    ensures var n, at := ChunkAt(data, address, width), address - img.baseOffset;
      Restores(middle, rest, data[n..], at + n) ==> Restores(img, all, data, at)
  {
    middle := DataStored(img, data, address, width);
    var n, at := ChunkAt(data, address, width), address - img.baseOffset;
    assert data == data[..n] + data[n..];
    if Restores(middle, rest, data[n..], at + n) {
      RestoresStep(img, upper, UpperOf(address), DataRecord(data, address, width), rest, middle,
                   data[..n], data[n..], at);
    }
  }

  /** One round: if the rest of the records restores the rest of the data, they all restore all of it. */
  lemma StepPlaces(img: Image, data: seq<byte>, address: nat, width: nat, upper: u16)
    returns (middle: Image, n: nat, next: u16)
    requires data != [] && 0 < width <= 255 && address + |data| <= U32
    requires img.baseOffset <= address && address - img.baseOffset + |data| <= |img.data|
    requires Based(img, address, upper)
    ensures |middle.data| == |img.data| && middle.baseOffset == img.baseOffset
    ensures 0 < n <= |data| && Based(middle, address + n, next)
    ensures Places(middle, data[n..], address + n, width, next) ==> Places(img, data, address, width, upper)
  {
    n, next := ChunkAt(data, address, width), UpperOf(address);
    var all, rest := Written(data, address, width, upper), Written(data[n..], address + n, width, next);
    BasedMeans(img, address, upper);
    WrittenUnfolds(data, address, width, upper, rest);
    middle := StepBoth(img, data, address, width, upper, rest, all);
    BasedMeans(middle, address + n, next);
    if Places(middle, data[n..], address + n, width, next) {
      PlacesMeans(middle, data[n..], address + n, width, next);
      PlacesMeans(img, data, address, width, upper);
    }
  }

  lemma {:induction false} WrittenPlaces(img: Image, data: seq<byte>, address: nat, width: nat, upper: u16)
    requires 0 < width <= 255 && address + |data| <= U32
    requires img.baseOffset <= address && address - img.baseOffset + |data| <= |img.data|
    requires Based(img, address, upper)
    ensures Places(img, data, address, width, upper)
    decreases |data|
  {
    if data == [] {
      NothingPlaced(img, address, width, upper);
    } else {
      var middle, n, next := StepPlaces(img, data, address, width, upper);
      WrittenPlaces(middle, data[n..], address + n, width, next);
    }
  }

  lemma WrittenRestores(img: Image, data: seq<byte>, address: nat, width: nat, upper: u16)
    requires 0 < width <= 255 && address + |data| <= U32
    requires img.baseOffset <= address && address - img.baseOffset + |data| <= |img.data|
    requires data != [] && UpperOf(address) == upper ==> img.extBase == SegmentBase(upper)
    ensures Restores(img, Written(data, address, width, upper), data, address - img.baseOffset)
  {
    if data == [] {
      NothingPlaced(img, address, width, upper);
    } else {
      WrittenPlaces(img, data, address, width, upper);
    }
    PlacesMeans(img, data, address, width, upper);
  }

  /** What is promised of written records: all of them accepted, the data in place, exact bounds. */
  ghost predicate ReadsBack(img: Image, data: seq<byte>, start: u32, bytesPerLine: nat)
    requires img.baseOffset <= start && start - img.baseOffset + |data| <= |img.data|
  {
    Restores(img, WrittenFile(data, start, bytesPerLine), data, start - img.baseOffset)
  }

  lemma BottomAddress(a: nat)
    requires a < 0x1_0000
    ensures UpperOf(a) == 0 && LowerOf(a) == a && (0 + a) % U32 == a
  {}

  lemma BottomRecord(img: Image, data: seq<byte>, a: nat, width: nat, rest: seq<Record>)
    requires 0 < width <= 255 && data != [] && a + |data| <= 0x1_0000 && img.extBase == 0
    requires rest == Written(data[ChunkAt(data, a, width)..], a + ChunkAt(data, a, width), width, 0)
    ensures Absolute(img, DataRecord(data, a, width)) == a
    ensures Written(data, a, width, 0) == [DataRecord(data, a, width)] + rest
  {
    var record := DataRecord(data, a, width);
    BottomAddress(a);
    WrittenUnfolds(data, a, width, 0, rest);
    assert Segment(0, 0) + [record] + rest == [record] + rest;
  }

  /** Data in the bottom segment that does not fit the buffer is rejected at one of its records. */
  lemma {:induction false} WrittenOverflows(img: Image, data: seq<byte>, a: nat, width: nat)
    requires 0 < width <= 255 && data != [] && a + |data| <= 0x1_0000 && img.extBase == 0
    requires a < img.baseOffset || a - img.baseOffset + |data| > |img.data|
    ensures ApplyAll(img, Written(data, a, width, 0)).status == ErrOverflow
    decreases |data|
  {
    var n, record := ChunkAt(data, a, width), DataRecord(data, a, width);
    var rest := Written(data[n..], a + n, width, 0);
    BottomRecord(img, data, a, width, rest);
    ApplyCons(img, record, rest);
    if InRange(img, record) {
      WrittenOverflows(Store(img, record), data[n..], a + n, width);
    }
  }

  lemma BottomLands(img: Image, data: seq<byte>, a: nat, width: nat)
    requires 0 < width <= 255 && data != [] && a + |data| <= 0x1_0000 && img.extBase == 0
    ensures var at := a - img.baseOffset;
      if 0 <= at && at + |data| <= |img.data| then Restores(img, Written(data, a, width, 0), data, at)
      else ApplyAll(img, Written(data, a, width, 0)).status == ErrOverflow
  {
    if img.baseOffset <= a && a - img.baseOffset + |data| <= |img.data| {
      WrittenRestores(img, data, a, width, 0);
    } else {
      WrittenOverflows(img, data, a, width);
    }
  }

  lemma TopRecord(data: seq<byte>, top: nat, a: nat, width: nat)
    requires data != [] && 0 < width <= 255 && LowerOf(top) == LowerOf(a)
    ensures ChunkAt(data, top, width) == ChunkAt(data, a, width)
    ensures DataRecord(data, top, width) == DataRecord(data, a, width)
  {}

  lemma TopSegment(start: u32)
    requires start >= 0xFFFF_0000
    ensures UpperOf(start) == NO_UPPER && LowerOf(start) == start - 0xFFFF_0000
    ensures UpperOf(start - 0xFFFF_0000) == 0 && LowerOf(start - 0xFFFF_0000) == start - 0xFFFF_0000
  {}

  /** Without a type 04 record, the top segment's records are those of the bottom one. */
  lemma {:induction false} TopIsBottom(data: seq<byte>, a: nat, width: nat)
    requires 0 < width <= 255 && a + |data| <= 0x1_0000
    ensures Written(data, 0xFFFF_0000 + a, width, NO_UPPER) == Written(data, a, width, 0)
    decreases |data|
  {
    if data != [] {
      TopSegment(0xFFFF_0000 + a);
      TopRecord(data, 0xFFFF_0000 + a, a, width);
      var n := ChunkAt(data, a, width);
      TopIsBottom(data[n..], a + n, width);
      assert Segment(NO_UPPER, NO_UPPER) == Segment(0, 0) == [];
    }
  }

  /**
   Data in the topmost segment lands, all of it, at the bottom of the address space, when the buffer
   has room for it there; otherwise the file is rejected.
   */
  lemma TopSegmentLost(img: Image, data: seq<byte>, start: u32, bytesPerLine: nat)
    requires data != [] && start >= 0xFFFF_0000 && start + |data| <= U32 && img.extBase == 0
    ensures var at := start - 0xFFFF_0000 - img.baseOffset;
      if 0 <= at && at + |data| <= |img.data| then Restores(img, WrittenFile(data, start, bytesPerLine), data, at)
      else ApplyAll(img, WrittenFile(data, start, bytesPerLine)).status == ErrOverflow
  {
    var a := start - 0xFFFF_0000;
    TopIsBottom(data, a, Width(bytesPerLine));
    BottomLands(img, data, a, Width(bytesPerLine));
  }

  /**
   The round trip of records, on a fresh image large enough: it holds exactly when there is no data or the
   data starts below the topmost segment, whose number the writer uses for "no segment yet".
   */
  lemma RecordsRoundTrip(capacity: nat, base: u32, fill: byte, data: seq<byte>, start: u32, bytesPerLine: nat)
    requires start + |data| <= U32 && base <= start && start - base + |data| <= capacity
    ensures ReadsBack(NewImage(capacity, base, fill), data, start, bytesPerLine)
            <==> data == [] || start < 0xFFFF_0000
  {
    var img := NewImage(capacity, base, fill);
    if data == [] || start < 0xFFFF_0000 {
      WrittenRestores(img, data, start, Width(bytesPerLine), NO_UPPER);
    } else {
      RestoresMeans(img, WrittenFile(data, start, bytesPerLine), data, start - base);
      TopSegmentLost(img, data, start, bytesPerLine);
      var at := start - 0xFFFF_0000 - base;
      if 0 <= at && at + |data| <= capacity {
        RestoresMeans(img, WrittenFile(data, start, bytesPerLine), data, at);
      }
    }
  }

  /** The round trip of the file: its checksummed lines, with whatever follows a record in them, parsed one by one. */
  lemma RoundTrip(capacity: nat, base: u32, fill: byte, data: seq<byte>, start: u32, bytesPerLine: nat,
                  tail: seq<byte>)
    requires start + |data| <= U32 && base <= start && start - base + |data| <= capacity
    ensures var img := NewImage(capacity, base, fill);
            var parsed := ParseAll(img, RecordLines(WrittenFile(data, start, bytesPerLine), tail));
            parsed.status == HexOk && Restored(parsed.image, img, data, start - base)
            <==> data == [] || start < 0xFFFF_0000
  {
    var img, records := NewImage(capacity, base, fill), WrittenFile(data, start, bytesPerLine);
    RecordsRoundTrip(capacity, base, fill, data, start, bytesPerLine);
    RestoresMeans(img, records, data, start - base);
    ParseRecordLines(img, records, tail);
  }
}
