/** The Intel HEX image with its line parser, and the writer, as they work in place. */
module IntelHex {
  import opened Bytes
  import opened HexFormat
  import opened HexLemmas
  import opened HexFile

  /** The header is there exactly when its four bytes are. */
  lemma HeaderAt(line: seq<byte>, p: nat)
    ensures BytesAt(line, p, 4).SomeBytes? <==>
      ByteAt(line, p) >= 0 && ByteAt(line, p + 2) >= 0 && ByteAt(line, p + 4) >= 0 && ByteAt(line, p + 6) >= 0
    ensures BytesAt(line, p, 4).SomeBytes? ==>
      BytesAt(line, p, 4).bytes == [ByteAt(line, p), ByteAt(line, p + 2), ByteAt(line, p + 4), ByteAt(line, p + 6)]
  {
    assert BytesAt(line, p + 8, 0) == SomeBytes([]);
  }

  method SkipWhitespace(line: seq<byte>) returns (p: nat)
    ensures p == SkipBlanks(line, 0)
  {
    p := 0;
    while IsBlankChar(At(line, p))
      invariant p <= |line| && SkipBlanks(line, p) == SkipBlanks(line, 0)
      decreases |line| - p
    {
      p := p + 1;
    }
  }

  lemma SumSnoc(header: seq<byte>, body: seq<byte>, b: byte)
    ensures Sum8(header + (body + [b])) == Add8(Sum8(header + body), b)
  {
    assert header + (body + [b]) == (header + body) + [b];
    SumThen(header + body, [b]);
    SumCons(b, []);
  }

  /** The last byte of a record, against the sum of the others. */
  method CheckBody(line: seq<byte>, dp: nat, header: seq<byte>, body: seq<byte>, sum: byte)
    returns (status: HexStatus)
    requires |header| == 4 && |body| == Word(header[0], 0)
    requires BytesAt(line, dp, |body|) == SomeBytes(body) && sum == Sum8(header + body)
    ensures match DecodeBody(line, dp, header)
            case Good(r) => status == HexOk && body == r.data
            case Bad(error) => status == error && error != HexOk
            case Blank => false
  {
    var checksum := ByteAt(line, dp + 2 * |body|);
    BytesAtSnoc(line, dp, |body|);
    if checksum < 0 {
      return ErrFormat;
    }
    SumSnoc(header, body, checksum);
    assert (body + [checksum])[..|body|] == body;
    if Add8(sum, checksum) != 0 {
      return ErrChecksum;
    }
    return HexOk;
  }

  function HeaderSum8(header: seq<byte>): byte
    requires |header| == 4
  {
    (Word(header[0], 0) + header[1] + header[2] + header[3]) % 256
  }

  lemma HeaderSum(header: seq<byte>)
    requires |header| == 4
    ensures Sum8(header + []) == HeaderSum8(header)
  {
    assert header + [] == [header[0]] + ([header[1]] + ([header[2]] + ([header[3]] + [])));
    SumCons(header[3], []);
    SumCons(header[2], [header[3]] + []);
    SumCons(header[1], [header[2]] + ([header[3]] + []));
    SumCons(header[0], [header[1]] + ([header[2]] + ([header[3]] + [])));
  }

  /** The data bytes and the checksum: the loop over the body of a record. */
  method ReadBody(line: seq<byte>, dp: nat, header: seq<byte>) returns (status: HexStatus, data: array<byte>)
    requires |header| == 4
    ensures fresh(data) && data.Length == 256
    ensures match DecodeBody(line, dp, header)
            case Good(r) => status == HexOk && data[..Word(header[0], 0)] == r.data
            case Bad(error) => status == error && error != HexOk
            case Blank => false
  {
    data := new byte[256];
    var byteCount: nat := header[0];
    var sum: byte := HeaderSum8(header);
    HeaderSum(header);
    var i: nat := 0;
    while i < byteCount
      invariant i <= byteCount
      invariant BytesAt(line, dp, i) == SomeBytes(data[..i])
      invariant sum == Sum8(header + data[..i])
    {
      var b := ByteAt(line, dp + 2 * i);
      BytesAtSnoc(line, dp, i);
      if b < 0 {
        BytesAtStops(line, dp, i + 1, byteCount + 1);
        return ErrFormat, data;
      }
      SumSnoc(header, data[..i], b);
      data[i] := b;
      sum := Add8(sum, b);
      i := i + 1;
      assert data[..i] == data[..i - 1] + [b];
    }
    status := CheckBody(line, dp, header, data[..byteCount], sum);
  }

  class IntelHexImage {
    const data: array<byte>
    var baseOffset: u32
    var extBase: u32
    var minOffset: nat
    var maxOffset: nat
    var any: bool
    var eofSeen: bool

    function Contents(): Image
      reads this, data
    {
      Image(data[..], baseOffset, extBase, minOffset, maxOffset, any, eofSeen)
    }

    constructor (buf: array<byte>, base: u32, fill: byte)
      modifies buf
      ensures data == buf && Contents() == NewImage(buf.Length, base, fill)
    {
      data := buf;
      baseOffset := base;
      extBase := 0;
      minOffset := 0;
      maxOffset := 0;
      any := false;
      eofSeen := false;
      new;
      forall i | 0 <= i < buf.Length {
        buf[i] := fill;
      }
    }

    /** The bounds grow to cover what was stored. */
    method Widen(offset: nat, end: nat)
      modifies `any, `minOffset, `maxOffset
      ensures any
      ensures minOffset == if old(any) && old(minOffset) <= offset then old(minOffset) else offset
      ensures maxOffset == if old(any) && end <= old(maxOffset) then old(maxOffset) else end
    {
      if !any {
        minOffset := offset;
        maxOffset := end;
        any := true;
      } else {
        if offset < minOffset {
          minOffset := offset;
        }
        if end > maxOffset {
          maxOffset := end;
        }
      }
    }

    method AcceptData(byteCount: byte, address: u16, body: array<byte>) returns (status: HexStatus)
      requires body.Length == 256 && body != data
      modifies this, data
      ensures status == Verdict(old(Contents()), Record(address, TYPE_DATA, old(body[..byteCount])))
      ensures Contents() == Apply(old(Contents()), Record(address, TYPE_DATA, old(body[..byteCount])))
    {
      ghost var img, r := Contents(), Record(address, TYPE_DATA, body[..byteCount]);
      var absolute := (extBase + address) % U32;
      assert absolute == Absolute(img, r);
      if absolute < baseOffset {
        return ErrOverflow;
      }
      var offset := absolute - baseOffset;
      if offset + byteCount > data.Length {
        return ErrOverflow;
      }
      CopyInto(data, offset, body[..byteCount]);
      assert Contents() == img.(data := Overlay(img.data, offset, r.data));
      Widen(offset, offset + byteCount);
      return HexOk;
    }

    /** The record types. */
    method Accept(byteCount: byte, address: u16, kind: byte, body: array<byte>) returns (status: HexStatus)
      requires body.Length == 256 && body != data
      modifies this, data
      ensures status == Verdict(old(Contents()), Record(address, kind, old(body[..byteCount])))
      ensures Contents() == Apply(old(Contents()), Record(address, kind, old(body[..byteCount])))
    {
      if kind == TYPE_DATA {
        status := AcceptData(byteCount, address, body);
      } else if kind == TYPE_EOF {
        eofSeen := true;
        status := HexOk;
      } else if kind == TYPE_EXT_LINEAR {
        if byteCount != 2 {
          return ErrFormat;
        }
        extBase := Word(body[1], body[0]) * 0x1_0000;
        status := HexOk;
      } else if kind == TYPE_EXT_SEGMENT {
        if byteCount != 2 {
          return ErrFormat;
        }
        extBase := Word(body[1], body[0]) * 16;
        status := HexOk;
      } else if kind == 3 || kind == 5 {
        status := HexOk;
      } else {
        status := ErrUnsupported;
      }
    }

    /** One line: accepted or not, and the image changed only by an accepted record. */
    method ParseLine(line: seq<byte>) returns (status: HexStatus)
      modifies this, data
      ensures status == LineStatus(old(Contents()), line)
      ensures Contents() == HexFormat.ParseLine(old(Contents()), line)
    {
      var p := SkipWhitespace(line);
      if At(line, p) == 0 {
        return HexOk;
      }
      if At(line, p) != COLON {
        return ErrFormat;
      }
      HeaderAt(line, p + 1);
      var byteCount, addrHi := ByteAt(line, p + 1), ByteAt(line, p + 3);
      var addrLo, kind := ByteAt(line, p + 5), ByteAt(line, p + 7);
      if byteCount < 0 || addrHi < 0 || addrLo < 0 || kind < 0 {
        return ErrFormat;
      }
      var body;
      status, body := ReadBody(line, p + 9, [byteCount, addrHi, addrLo, kind]);
      if status != HexOk {
        return;
      }
      status := Accept(byteCount, Word(addrLo, addrHi), kind, body);
    }
  }

  // ---- writer ----

  /** A file opened for writing: an append may store only a part, and then nothing more is stored. */
  class HexSink {
    var text: seq<byte>
    var ok: bool

    constructor ()
      ensures text == [] && ok
    {
      text := [];
      ok := true;
    }

    method Append(str: seq<byte>) returns (done: bool)
      modifies this
      ensures done == ok && (ok ==> old(ok))
      ensures ok ==> text == old(text) + str
      ensures old(text) <= text <= old(text) + str
    {
      if !ok {
        return false;
      }
      var written: nat :| written <= |str|;
      text := text + str[..written];
      if written != |str| {
        ok := false;
      }
      done := ok;
    }
  }

  method PutByte(buf: array<byte>, p: nat, v: byte, sum: byte) returns (p': nat, sum': byte)
    requires p + 2 <= buf.Length
    modifies buf
    ensures p' == p + 2 && buf[..p'] == old(buf[..p]) + Digits(v)
    ensures sum' == Add8(sum, v)
  {
    buf[p] := Digit(v / 16);
    buf[p + 1] := Digit(v % 16);
    p' := p + 2;
    sum' := Add8(sum, v);
  }

  /** Two's complement of a byte. */
  function Complement(sum: byte): byte { (0x100 - sum) % 0x100 }

  /** The text is a colon and the digits of these bytes, of which this is the sum. Sealed. */
  ghost predicate Formatted(text: seq<byte>, bytes: seq<byte>, sum: byte) {
    forall k: int {:trigger Unsealed(FormattedSeal, k)} :: Unsealed(FormattedSeal, k) ==>
      text == [COLON] + HexText(bytes) && sum == Sum8(bytes)
  }

  lemma FormattedStart()
    ensures Formatted([COLON], [], 0)
  {}

  lemma FormattedMore(text: seq<byte>, bytes: seq<byte>, k: nat, sum: byte)
    requires k < |bytes| && Formatted(text, bytes[..k], sum)
    ensures Formatted(text + Digits(bytes[k]), bytes[..k + 1], Add8(sum, bytes[k]))
  {
    assert Unsealed(FormattedSeal, 0);
    TextSnoc(bytes, k);
    assert text + Digits(bytes[k]) == [COLON] + (HexText(bytes[..k]) + Digits(bytes[k]));
  }

  lemma FormattedRecord(text: seq<byte>, r: Record, sum: byte)
    requires Formatted(text, RecordBytes(r), sum)
    ensures text + Digits(Complement(sum)) == RecordText(r)
  {
    var bytes := RecordBytes(r);
    assert Unsealed(FormattedSeal, 0);
    HexTextThen(bytes, [CheckByte(bytes)]);
    assert [CheckByte(bytes)][1..] == [];
    assert [COLON] + HexText(bytes) + Digits(CheckByte(bytes)) == [COLON] + (HexText(bytes) + Digits(CheckByte(bytes)));
  }

  /** One more byte of a record. */
  method PutNext(buf: array<byte>, p: nat, sum: byte, ghost bytes: seq<byte>, ghost k: nat, v: byte)
    returns (p': nat, sum': byte)
    requires p + 2 <= buf.Length && k < |bytes| && v == bytes[k] && Formatted(buf[..p], bytes[..k], sum)
    modifies buf
    ensures p' == p + 2 && Formatted(buf[..p'], bytes[..k + 1], sum')
  {
    FormattedMore(buf[..p], bytes, k, sum);
    p', sum' := PutByte(buf, p, v, sum);
  }

  method PutHeader(buf: array<byte>, r: Record) returns (p: nat, sum: byte)
    requires buf.Length == 524
    modifies buf
    ensures p == 9 && Formatted(buf[..p], RecordBytes(r)[..4], sum)
  {
    ghost var bytes := RecordBytes(r);
    p, sum := 1, 0;
    buf[0] := COLON;
    FormattedStart();
    assert buf[..1] == [COLON] && bytes[..0] == [];
    p, sum := PutNext(buf, p, sum, bytes, 0, |r.data|);
    p, sum := PutNext(buf, p, sum, bytes, 1, r.address / 256);
    p, sum := PutNext(buf, p, sum, bytes, 2, r.address % 256);
    p, sum := PutNext(buf, p, sum, bytes, 3, r.kind);
  }

  /** The digits of a record and its checksum, from the start of the buffer. */
  method FormatRecord(buf: array<byte>, r: Record) returns (p: nat)
    requires buf.Length == 524
    modifies buf
    ensures p == 11 + 2 * |r.data| && buf[..p] == RecordText(r)
  {
    ghost var bytes := RecordBytes(r);
    var sum;
    p, sum := PutHeader(buf, r);
    var i: nat := 0;
    while i < |r.data|
      invariant i <= |r.data| && p == 9 + 2 * i && Formatted(buf[..p], bytes[..4 + i], sum)
    {
      p, sum := PutNext(buf, p, sum, bytes, 4 + i, r.data[i]);
      i := i + 1;
    }
    assert bytes[..4 + i] == bytes;
    FormattedRecord(buf[..p], r, sum);
    p, sum := PutByte(buf, p, Complement(sum), sum);
  }

  method EmitRecord(sink: HexSink, r: Record) returns (done: bool)
    modifies sink
    ensures done == sink.ok && (sink.ok ==> old(sink.ok))
    ensures done ==> sink.text == old(sink.text) + RecordLine(r)
    ensures old(sink.text) <= sink.text <= old(sink.text) + RecordLine(r)
  {
    var buf := new byte[524];
    var p := FormatRecord(buf, r);
    buf[p] := CR;
    buf[p + 1] := LF;
    assert buf[..p + 2] == RecordLine(r);
    done := sink.Append(buf[..p + 2]);
  }

  /** The writer's text so far and the text of the records to come make up the whole. Sealed. */
  ghost predicate Remaining(text: seq<byte>, records: seq<Record>, whole: seq<byte>) {
    forall k: int {:trigger Unsealed(RemainingSeal, k)} :: Unsealed(RemainingSeal, k) ==>
      text + FileText(records) == whole
  }

  lemma EmitStart(text: seq<byte>, records: seq<Record>)
    ensures Remaining(text, records, text + FileText(records))
  {}

  lemma EmitStep(text: seq<byte>, r: Record, rest: seq<Record>, whole: seq<byte>)
    requires Remaining(text, [r] + rest, whole)
    ensures Remaining(text + RecordLine(r), rest, whole) && text + RecordLine(r) <= whole
  {
    assert Unsealed(RemainingSeal, 0);
    assert ([r] + rest)[1..] == rest;
    assert text + (RecordLine(r) + FileText(rest)) == text + RecordLine(r) + FileText(rest);
  }

  /** The same, the records to come being those of the data from an offset on. Sealed. */
  ghost predicate Unwritten(text: seq<byte>, data: seq<byte>, off: nat, start: u32, width: nat, upper: u16,
                            whole: seq<byte>)
    requires off <= |data| && 0 < width <= 255
  {
    forall k: int {:trigger Unsealed(UnwrittenSeal, k)} :: Unsealed(UnwrittenSeal, k) ==>
      Remaining(text, Written(data[off..], start + off, width, upper), whole)
  }

  lemma UnwrittenStart(text: seq<byte>, data: seq<byte>, start: u32, bytesPerLine: nat)
    ensures Unwritten(text, data, 0, start, Width(bytesPerLine), NO_UPPER,
                      text + FileText(WrittenFile(data, start, bytesPerLine)))
  {
    assert data[0..] == data;
    EmitStart(text, WrittenFile(data, start, bytesPerLine));
  }

  lemma UnwrittenEnd(text: seq<byte>, data: seq<byte>, start: u32, width: nat, upper: u16, whole: seq<byte>)
    requires 0 < width <= 255 && Unwritten(text, data, |data|, start, width, upper, whole)
    ensures text + RecordLine(EndOfFile()) == whole
  {
    assert Unsealed(UnwrittenSeal, 0) && Unsealed(RemainingSeal, 0);
    assert [EndOfFile()] + [] == [EndOfFile()];
    EmitStep(text, EndOfFile(), [], whole);
  }

  /** A line's worth of data that does not cross a 64K boundary. */
  method ChunkSize(left: nat, width: nat, lo: u16) returns (chunk: nat)
    ensures chunk == Min(Min(left, width), 0x1_0000 - lo)
  {
    chunk := left;
    if chunk > width {
      chunk := width;
    }
    if lo + chunk > 0x1_0000 {
      chunk := 0x1_0000 - lo;
    }
  }

  method EmitBoth(sink: HexSink, curUpper: u16, upper: u16, record: Record, ghost rest: seq<Record>,
                  ghost whole: seq<byte>)
    returns (done: bool)
    requires sink.ok && Remaining(sink.text, Segment(curUpper, upper) + [record] + rest, whole)
    modifies sink
    ensures done == sink.ok && old(sink.text) <= sink.text <= whole
    ensures done ==> Remaining(sink.text, rest, whole)
  {
    if upper != curUpper {
      assert Segment(curUpper, upper) + [record] + rest == [ExtendedLinear(upper)] + ([record] + rest);
      EmitStep(sink.text, ExtendedLinear(upper), [record] + rest, whole);
      done := EmitRecord(sink, ExtendedLinear(upper));
      if !done {
        return;
      }
    } else {
      assert Segment(curUpper, upper) + [record] + rest == [record] + rest;
    }
    EmitStep(sink.text, record, rest, whole);
    done := EmitRecord(sink, record);
  }

  /** One round of the loop: a type 04 record if the segment is new, then a data record. */
  method WriteChunk(data: seq<byte>, off: nat, start: u32, width: nat, curUpper: u16, sink: HexSink,
                    ghost whole: seq<byte>)
    returns (done: bool, upper: u16, chunk: nat)
    requires off < |data| && 0 < width <= 255 && sink.ok
    requires Unwritten(sink.text, data, off, start, width, curUpper, whole)
    modifies sink
    ensures done == sink.ok && old(sink.text) <= sink.text <= whole
    ensures 0 < chunk <= |data| - off
    ensures done ==> Unwritten(sink.text, data, off + chunk, start, width, upper, whole)
  {
    assert Unsealed(UnwrittenSeal, 0);
    var absolute: u32 := (start + off) % U32;
    upper := absolute / 0x1_0000;
    var lo: u16 := absolute % 0x1_0000;
    chunk := ChunkSize(|data| - off, width, lo);
    assert chunk == ChunkAt(data[off..], start + off, width);
    assert data[off..][..chunk] == data[off..off + chunk] && data[off..][chunk..] == data[off + chunk..];
    var record := Record(lo, TYPE_DATA, data[off..off + chunk]);
    ghost var rest := Written(data[off + chunk..], start + off + chunk, width, upper);
    done := EmitBoth(sink, curUpper, upper, record, rest, whole);
  }

  /** The loop over the data, up to a failure. */
  method WriteChunks(data: seq<byte>, start: u32, width: nat, sink: HexSink, ghost whole: seq<byte>)
    returns (done: bool, curUpper: u16)
    requires 0 < width <= 255 && sink.ok && sink.text <= whole
    requires Unwritten(sink.text, data, 0, start, width, NO_UPPER, whole)
    modifies sink
    ensures done == sink.ok && old(sink.text) <= sink.text <= whole
    ensures done ==> Unwritten(sink.text, data, |data|, start, width, curUpper, whole)
  {
    done, curUpper := true, NO_UPPER;
    var off: nat := 0;
    while off < |data|
      invariant off <= |data| && sink.ok && done && old(sink.text) <= sink.text <= whole
      invariant Unwritten(sink.text, data, off, start, width, curUpper, whole)
    {
      var chunk;
      done, curUpper, chunk := WriteChunk(data, off, start, width, curUpper, sink, whole);
      if !done {
        return;
      }
      off := off + chunk;
    }
  }

  /** Writes the data as records; a sink that fails holds a part of the same text. */
  method Write(data: seq<byte>, startAddress: u32, bytesPerLine: nat, sink: HexSink) returns (status: HexStatus)
    requires sink.ok
    modifies sink
    ensures status == if sink.ok then HexOk else ErrFormat
    ensures sink.ok ==> sink.text == old(sink.text) + FileText(WrittenFile(data, startAddress, bytesPerLine))
    ensures old(sink.text) <= sink.text <= old(sink.text) + FileText(WrittenFile(data, startAddress, bytesPerLine))
  {
    var width := if bytesPerLine == 0 || bytesPerLine > 255 then 16 else bytesPerLine;
    ghost var whole := sink.text + FileText(WrittenFile(data, startAddress, bytesPerLine));
    UnwrittenStart(sink.text, data, startAddress, bytesPerLine);
    var done, curUpper := WriteChunks(data, startAddress, width, sink, whole);
    if !done {
      return ErrFormat;
    }
    UnwrittenEnd(sink.text, data, startAddress, width, curUpper, whole);
    var emitted := EmitRecord(sink, EndOfFile());
    if !emitted {
      return ErrFormat;
    }
    return HexOk;
  }
}
