/** Properties of the record format: text round trip, checksum strength, the parser's invariant. */
module HexLemmas {
  import opened Bytes
  import opened HexFormat

  // ---- text round trip ----

  lemma DigitsBack(v: byte)
    ensures Nibble(Digit(v / 16)) == v / 16 && Nibble(Digit(v % 16)) == v % 16
  {}

  lemma SumThen(a: seq<byte>, b: seq<byte>)
    ensures Sum(a + b) == Sum(a) + Sum(b)
    decreases |a|
  {
    if a == [] {
      assert a + b == b;
    } else {
      assert (a + b)[1..] == a[1..] + b;
      SumThen(a[1..], b);
    }
  }

  /** Digits read back as the bytes they were written from, wherever they stand in a line. */
  lemma {:induction false} HexTextBack(before: seq<byte>, bytes: seq<byte>, after: seq<byte>)
    ensures BytesAt(before + HexText(bytes) + after, |before|, |bytes|) == SomeBytes(bytes)
    decreases |bytes|
  {
    if bytes != [] {
      var line := before + HexText(bytes) + after;
      var two := Digits(bytes[0]);
      DigitsBack(bytes[0]);
      assert line[|before|] == two[0] && line[|before| + 1] == two[1];
      assert line == (before + two) + HexText(bytes[1..]) + after;
      HexTextBack(before + two, bytes[1..], after);
      assert [bytes[0]] + bytes[1..] == bytes;
    }
  }

  lemma {:induction false} HexTextThen(a: seq<byte>, b: seq<byte>)
    ensures HexText(a + b) == HexText(a) + HexText(b)
    decreases |a|
  {
    if a == [] {
      assert a + b == b;
    } else {
      assert (a + b)[1..] == a[1..] + b;
      HexTextThen(a[1..], b);
    }
  }

  lemma CheckByteCancels(bytes: seq<byte>)
    ensures Sum(bytes + [CheckByte(bytes)]) % 256 == 0
  {
    SumThen(bytes, [CheckByte(bytes)]);
    var s := Sum(bytes);
    assert (s + (256 - s % 256) % 256) % 256 == 0;
  }

  /** The digits of a line's header and body decide what it decodes to. */
  lemma DecodeFrom(line: seq<byte>, i: nat, header: seq<byte>, body: seq<byte>)
    requires i == SkipBlanks(line, 0) && At(line, i) == COLON
    requires BytesAt(line, i + 1, 4) == SomeBytes(header)
    requires BytesAt(line, i + 9, |body|) == SomeBytes(body) && |body| == Word(header[0], 0) + 1
    ensures |header| == 4 && Decode(line) == Judge(header, body)
  {
    assert Decode(line) == DecodeBody(line, i + 9, header);
  }

  /** And a record was decoded from such a header and body. */
  lemma DecodedFrom(line: seq<byte>) returns (i: nat, header: seq<byte>, body: seq<byte>)
    requires Decode(line).Good?
    ensures i == SkipBlanks(line, 0) && At(line, i) == COLON
    ensures BytesAt(line, i + 1, 4) == SomeBytes(header) && |header| == 4
    ensures BytesAt(line, i + 9, |body|) == SomeBytes(body) && |body| == Word(header[0], 0) + 1
    ensures Judge(header, body) == Decode(line)
  {
    i := SkipBlanks(line, 0);
    header := BytesAt(line, i + 1, 4).bytes;
    var count: nat := header[0];
    body := BytesAt(line, i + 9, count + 1).bytes;
  }

  lemma Regroup(a: seq<byte>, b: seq<byte>, c: seq<byte>, d: seq<byte>)
    ensures a + ((b + c) + d) == a + b + (c + d)
    ensures a + ((b + c) + d) == (a + b) + c + d
  {}

  /** At p, the line spells these bytes in digits. Sealed. */
  ghost predicate Spells(line: seq<byte>, p: nat, bytes: seq<byte>) {
    forall k: int {:trigger Unsealed(SpellsSeal, k)} :: Unsealed(SpellsSeal, k) ==>
      BytesAt(line, p, |bytes|) == SomeBytes(bytes)
  }

  lemma HexTextSpells(line: seq<byte>, before: seq<byte>, bytes: seq<byte>, after: seq<byte>)
    requires line == before + HexText(bytes) + after
    ensures Spells(line, |before|, bytes)
  {
    HexTextBack(before, bytes, after);
  }

  lemma BodyText(before: seq<byte>, header: seq<byte>, body: seq<byte>, tail: seq<byte>, line: seq<byte>)
    requires line == before + (HexText(header + body) + tail)
    ensures Spells(line, |before|, header) && Spells(line, |before| + 2 * |header|, body)
  {
    HexTextThen(header, body);
    Regroup(before, HexText(header), HexText(body), tail);
    HexTextSpells(line, before, header, HexText(body) + tail);
    HexTextSpells(line, before + HexText(header), body, tail);
  }

  lemma DecodeSpelled(line: seq<byte>, header: seq<byte>, body: seq<byte>)
    requires SkipBlanks(line, 0) == 0 && At(line, 0) == COLON
    requires Spells(line, 1, header) && |header| == 4
    requires Spells(line, 9, body) && |body| == Word(header[0], 0) + 1
    ensures Decode(line) == Judge(header, body)
  {
    assert Unsealed(SpellsSeal, 0);
    DecodeFrom(line, 0, header, body);
  }

  lemma ColonFirst(line: seq<byte>, rest: seq<byte>)
    requires line == [COLON] + rest
    ensures SkipBlanks(line, 0) == 0 && At(line, 0) == COLON
  {}

  lemma TextSpells(line: seq<byte>, header: seq<byte>, body: seq<byte>, tail: seq<byte>)
    requires line == [COLON] + (HexText(header + body) + tail) && |header| == 4
    ensures SkipBlanks(line, 0) == 0 && At(line, 0) == COLON
    ensures Spells(line, 1, header) && Spells(line, 9, body)
  {
    BodyText([COLON], header, body, tail, line);
    ColonFirst(line, HexText(header + body) + tail);
  }

  lemma DecodeText(line: seq<byte>, header: seq<byte>, body: seq<byte>, tail: seq<byte>)
    requires line == [COLON] + (HexText(header + body) + tail)
    requires |header| == 4 && |body| == Word(header[0], 0) + 1
    ensures Decode(line) == Judge(header, body)
  {
    TextSpells(line, header, body, tail);
    DecodeSpelled(line, header, body);
  }

  lemma RecordBack(r: Record, header: seq<byte>, body: seq<byte>)
    requires header == RecordBytes(r)[..4]
    requires body == r.data + [CheckByte(RecordBytes(r))]
    ensures RecordOf(header, body) == r && |body| == Word(header[0], 0) + 1
    ensures header + body == RecordBytes(r) + [CheckByte(RecordBytes(r))]
  {
    assert body[..|body| - 1] == r.data;
    assert header == [|r.data|, r.address / 256, r.address % 256, r.kind];
  }

  /** A written record, with anything after it on the line, decodes to itself. */
  lemma DecodeRecordText(r: Record, tail: seq<byte>)
    ensures Decode(RecordText(r) + tail) == Good(r)
  {
    var line, bytes := RecordText(r) + tail, RecordBytes(r);
    var header, body := bytes[..4], r.data + [CheckByte(bytes)];
    CheckByteCancels(bytes);
    RecordBack(r, header, body);
    DecodeText(line, header, body, tail);
  }

  // ---- one byte more ----

  lemma {:induction false} BytesAtSnoc(line: seq<byte>, p: nat, n: nat)
    ensures BytesAt(line, p, n + 1) ==
      if BytesAt(line, p, n).NoBytes? || ByteAt(line, p + 2 * n) < 0 then NoBytes
      else SomeBytes(BytesAt(line, p, n).bytes + [ByteAt(line, p + 2 * n)])
    decreases n
  {
    if n == 0 {
      assert BytesAt(line, p + 2, 0) == SomeBytes([]);
    } else {
      BytesAtSnoc(line, p + 2, n - 1);
    }
  }

  lemma BytesAtStops(line: seq<byte>, p: nat, n: nat, m: nat)
    requires n <= m && BytesAt(line, p, n).NoBytes?
    ensures BytesAt(line, p, m).NoBytes?
    decreases n
  {}

  /** The sum as the code keeps it. */
  function Sum8(bytes: seq<byte>): byte { Sum(bytes) % 256 }

  lemma HexTextOne(b: byte)
    ensures HexText([b]) == Digits(b)
  {
    assert HexText([b]) == Digits(b) + HexText([]);
  }

  lemma SumCons(b: byte, s: seq<byte>)
    ensures Sum([b] + s) == b + Sum(s)
  {
    assert ([b] + s)[1..] == s;
  }

  lemma SumOne(b: byte)
    ensures Sum([b]) == b
  {
    assert [b] + [] == [b];
    SumCons(b, []);
  }

  lemma ReduceFirst(a: nat, b: byte)
    ensures (a + b) % 256 == (a % 256 + b) % 256
  {}

  lemma Sum8Snoc(bytes: seq<byte>, b: byte)
    ensures Sum8(bytes + [b]) == Add8(Sum8(bytes), b)
  {
    SumThen(bytes, [b]);
    SumOne(b);
    ReduceFirst(Sum(bytes), b);
  }

  lemma TextSnoc(bytes: seq<byte>, k: nat)
    requires k < |bytes|
    ensures HexText(bytes[..k + 1]) == HexText(bytes[..k]) + Digits(bytes[k])
    ensures Sum8(bytes[..k + 1]) == Add8(Sum8(bytes[..k]), bytes[k])
  {
    assert bytes[..k + 1] == bytes[..k] + [bytes[k]];
    HexTextThen(bytes[..k], [bytes[k]]);
    HexTextOne(bytes[k]);
    Sum8Snoc(bytes[..k], bytes[k]);
  }

  // ---- checksum strength ----

  lemma {:induction false} BytesAtSame(line: seq<byte>, line': seq<byte>, p: nat, n: nat)
    requires forall j :: p <= j < p + 2 * n ==> At(line', j) == At(line, j)
    ensures BytesAt(line', p, n) == BytesAt(line, p, n)
    decreases n
  {
    if n > 0 {
      BytesAtSame(line, line', p + 2, n - 1);
    }
  }

  /** Changing one digit of a run of digits changes the sum of its bytes, and not by a multiple of 256. */
  lemma {:induction false} OneDigitChangesSum(line: seq<byte>, q: nat, c: byte, p: nat, n: nat)
    requires q < |line| && p <= q < p + 2 * n
    requires Nibble(c) >= 0 && Nibble(c) != Nibble(line[q])
    requires BytesAt(line, p, n).SomeBytes?
    ensures var after := BytesAt(line[q := c], p, n);
            after.SomeBytes? && -256 < Sum(after.bytes) - Sum(BytesAt(line, p, n).bytes) < 256
            && Sum(after.bytes) != Sum(BytesAt(line, p, n).bytes)
    decreases n
  {
    var line' := line[q := c];
    var rest := BytesAt(line, p + 2, n - 1);
    if q < p + 2 {
      BytesAtSame(line, line', p + 2, n - 1);
      assert ByteAt(line', p) >= 0 && ByteAt(line', p) != ByteAt(line, p);
      SumCons(ByteAt(line, p), rest.bytes);
      SumCons(ByteAt(line', p), rest.bytes);
    } else {
      OneDigitChangesSum(line, q, c, p + 2, n - 1);
      assert ByteAt(line', p) == ByteAt(line, p);
      SumCons(ByteAt(line, p), rest.bytes);
      SumCons(ByteAt(line, p), BytesAt(line', p + 2, n - 1).bytes);
    }
  }

  lemma {:induction false} SkipBlanksSame(line: seq<byte>, line': seq<byte>, i: nat, k: nat)
    requires SkipBlanks(line, i) == k && |line'| == |line|
    requires forall j :: i <= j <= k ==> At(line', j) == At(line, j)
    ensures SkipBlanks(line', i) == k
    decreases k - i
  {
    if IsBlankChar(At(line, i)) {
      SkipBlanksSame(line, line', i + 1, k);
    }
  }

  lemma FirstByte(line: seq<byte>, line': seq<byte>, p: nat, n: nat)
    requires n > 0 && BytesAt(line, p, n).SomeBytes? && BytesAt(line', p, n).SomeBytes?
    requires ByteAt(line', p) == ByteAt(line, p)
    ensures BytesAt(line', p, n).bytes[0] == BytesAt(line, p, n).bytes[0]
  {}

  /** The same header and body digits with one of them, after the byte count, changed. */
  lemma DigitChangesSum(line: seq<byte>, i: nat, header: seq<byte>, body: seq<byte>, q: nat, c: byte)
    returns (header': seq<byte>, body': seq<byte>)
    requires BytesAt(line, i + 1, 4) == SomeBytes(header) && BytesAt(line, i + 9, |body|) == SomeBytes(body)
    requires i + 3 <= q < i + 9 + 2 * |body| && q < |line|
    requires Nibble(c) >= 0 && Nibble(c) != Nibble(line[q])
    ensures BytesAt(line[q := c], i + 1, 4) == SomeBytes(header')
    ensures BytesAt(line[q := c], i + 9, |body|) == SomeBytes(body')
    ensures header != [] && header' != [] && header'[0] == header[0]
    ensures -256 < Sum(header' + body') - Sum(header + body) < 256 && Sum(header' + body') != Sum(header + body)
  {
    var line' := line[q := c];
    if q < i + 9 {
      OneDigitChangesSum(line, q, c, i + 1, 4);
      BytesAtSame(line, line', i + 9, |body|);
      FirstByte(line, line', i + 1, 4);
    } else {
      BytesAtSame(line, line', i + 1, 4);
      OneDigitChangesSum(line, q, c, i + 9, |body|);
    }
    header', body' := BytesAt(line', i + 1, 4).bytes, BytesAt(line', i + 9, |body|).bytes;
    SumThen(header, body);
    SumThen(header', body');
  }

  lemma NotBothMultiples(a: nat, b: nat)
    requires a != b && -256 < b - a < 256 && a % 256 == 0
    ensures b % 256 != 0
  {}

  /**
   Any one digit of an intact record, outside the byte count, replaced by a digit of another value:
   the line is rejected for its checksum, and the image stays as it was.
   */
  lemma ChecksumStrength(img: Image, line: seq<byte>, q: nat, c: byte)
    requires Decode(line).Good?
    requires var start := SkipBlanks(line, 0) + 1;
             start + 2 <= q < start + 10 + 2 * |Decode(line).record.data|
    requires q < |line| && Nibble(c) >= 0 && Nibble(c) != Nibble(line[q])
    ensures LineStatus(img, line[q := c]) == ErrChecksum && ParseLine(img, line[q := c]) == img
  {
    var i, header, body := DecodedFrom(line);
    SkipBlanksSame(line, line[q := c], 0, i);
    var header', body' := DigitChangesSum(line, i, header, body, q, c);
    NotBothMultiples(Sum(header + body), Sum(header' + body'));
    DecodeFrom(line[q := c], i, header', body');
  }

  // ---- any sequence of lines ----

  /** Feeding lines one after the other, whatever each returns. */
  function ParseLines(img: Image, lines: seq<seq<byte>>): Image
    decreases |lines|
  {
    if lines == [] then img else ParseLine(ParseLines(img, lines[..|lines| - 1]), lines[|lines| - 1])
  }

  /** Bounds inside the buffer, and fill outside them. */
  predicate ImageOk(img: Image, fill: byte) {
    (img.any ==> img.minOffset <= img.maxOffset <= |img.data|)
    && forall i :: 0 <= i < |img.data| && !(img.any && img.minOffset <= i < img.maxOffset) ==> img.data[i] == fill
  }

  lemma ApplyKeepsImageOk(img: Image, r: Record, fill: byte)
    requires ImageOk(img, fill)
    ensures ImageOk(Apply(img, r), fill) && |Apply(img, r).data| == |img.data|
    ensures Apply(img, r).baseOffset == img.baseOffset
  {}

  lemma LineKeepsImageOk(img: Image, line: seq<byte>, fill: byte)
    requires ImageOk(img, fill)
    ensures ImageOk(ParseLine(img, line), fill) && |ParseLine(img, line).data| == |img.data|
    ensures ParseLine(img, line).baseOffset == img.baseOffset
    ensures LineStatus(img, line) != HexOk ==> ParseLine(img, line) == img
  {
    match Decode(line)
    case Good(r) => ApplyKeepsImageOk(img, r, fill);
    case _ =>
  }

  /** Whether a line is a data record that the image accepts and that covers offset i. */
  predicate Covers(img: Image, line: seq<byte>, i: nat) {
    var d := Decode(line);
    d.Good? && d.record.kind == TYPE_DATA && InRange(img, d.record)
    && 0 <= i - (Absolute(img, d.record) - img.baseOffset) < |d.record.data|
  }

  function CoveringByte(img: Image, line: seq<byte>, i: nat): byte
    requires Covers(img, line, i)
  {
    Decode(line).record.data[i - (Absolute(img, Decode(line).record) - img.baseOffset)]
  }

  /** The byte that the accepted data records give offset i: the last of them covering it, or else fill. */
  function LastWritten(img: Image, lines: seq<seq<byte>>, fill: byte, i: nat): byte
    decreases |lines|
  {
    if lines == [] then fill
    else
      var before := ParseLines(img, lines[..|lines| - 1]);
      if Covers(before, lines[|lines| - 1], i) then CoveringByte(before, lines[|lines| - 1], i)
      else LastWritten(img, lines[..|lines| - 1], fill, i)
  }

  lemma LineWrites(img: Image, line: seq<byte>)
    ensures |ParseLine(img, line).data| == |img.data|
    ensures forall i :: 0 <= i < |img.data| ==>
      ParseLine(img, line).data[i] == if Covers(img, line, i) then CoveringByte(img, line, i) else img.data[i]
  {
    if Decode(line).Good? {
      var r := Decode(line).record;
      if r.kind == TYPE_DATA && InRange(img, r) {
        assert ParseLine(img, line) == Store(img, r);
      }
    }
  }

  /** The parser's invariant over every sequence of lines, starting from a fresh image. */
  lemma {:induction false} ParserInvariant(img: Image, fill: byte, lines: seq<seq<byte>>)
    requires img == NewImage(|img.data|, img.baseOffset, fill)
    ensures |ParseLines(img, lines).data| == |img.data| && ParseLines(img, lines).baseOffset == img.baseOffset
    ensures ImageOk(ParseLines(img, lines), fill)
    ensures forall i :: 0 <= i < |img.data| ==> ParseLines(img, lines).data[i] == LastWritten(img, lines, fill, i)
    decreases |lines|
  {
    if lines != [] {
      var init, last := lines[..|lines| - 1], lines[|lines| - 1];
      ParserInvariant(img, fill, init);
      LineKeepsImageOk(ParseLines(img, init), last, fill);
      LineWrites(ParseLines(img, init), last);
    }
  }

  // ---- what has been seen ----

  predicate IsRecordOf(line: seq<byte>, kind: byte) { Decode(line).Good? && Decode(line).record.kind == kind }

  predicate HasRecordOf(lines: seq<seq<byte>>, kind: byte) {
    exists i :: 0 <= i < |lines| && IsRecordOf(lines[i], kind)
  }

  lemma HasRecordSnoc(lines: seq<seq<byte>>, last: seq<byte>, kind: byte)
    ensures HasRecordOf(lines + [last], kind) <==> HasRecordOf(lines, kind) || IsRecordOf(last, kind)
  {
    var all := lines + [last];
    assert all[|lines|] == last && forall i :: 0 <= i < |lines| ==> all[i] == lines[i];
  }

  /** After any lines, end-of-file was seen exactly when one of them is an end-of-file record. */
  lemma {:induction false} EofSeenExactly(img: Image, lines: seq<seq<byte>>)
    ensures ParseLines(img, lines).eofSeen <==> img.eofSeen || HasRecordOf(lines, TYPE_EOF)
    decreases |lines|
  {
    if lines != [] {
      var init, last := lines[..|lines| - 1], lines[|lines| - 1];
      assert init + [last] == lines;
      EofSeenExactly(img, init);
      HasRecordSnoc(init, last, TYPE_EOF);
    }
  }

  // ---- type 02 addressing ----

  /** Byte k of a data record under a type 02 base, as the specification has it: within the 64K segment. */
  function SegmentAddress(base: u16, r: Record, k: nat): nat { base * 16 + (r.address + k) % 0x1_0000 }

  /**
   The code puts all bytes of an accepted data record where the specification does, exactly when the
   record does not cross the end of its segment.
   */
  lemma SegmentWrap(img: Image, base: u16, r: Record)
    requires r.kind == TYPE_DATA && img.extBase == base * 16 && InRange(img, r)
    ensures Store(img, r).data == Overlay(img.data, Absolute(img, r) - img.baseOffset, r.data)
    ensures (forall k :: 0 <= k < |r.data| ==> Absolute(img, r) + k == SegmentAddress(base, r, k))
            <==> r.address + |r.data| <= 0x1_0000
  {
    if r.address + |r.data| > 0x1_0000 {
      var k := 0x1_0000 - r.address;
      assert SegmentAddress(base, r, k) == base * 16 && Absolute(img, r) + k == base * 16 + 0x1_0000;
    }
  }

  /** Such a record, in any image of more than 64K: its second byte belongs at address 0, and goes to 0x10000. */
  lemma SegmentWrapDiffers(img: Image, a: byte, b: byte)
    requires img.baseOffset == 0 && |img.data| > 0x1_0000
    ensures var based, r := Apply(img, Record(0, TYPE_EXT_SEGMENT, [0, 0])), Record(0xFFFF, TYPE_DATA, [a, b]);
      && Verdict(based, r) == HexOk && SegmentAddress(0, r, 1) == 0
      && Apply(based, r).data[0] == img.data[0] && Apply(based, r).data[0x1_0000] == b
  {
    var based, r := img.(extBase := 0), Record(0xFFFF, TYPE_DATA, [a, b]);
    assert Apply(img, Record(0, TYPE_EXT_SEGMENT, [0, 0])) == based;
    assert Absolute(based, r) == 0xFFFF;
  }

  // ---- the range check on a target with 32-bit sizes ----

  /** The sum of offset and count as a 32-bit `size_t` has it, compared with the capacity. */
  predicate RangeCheck32(img: Image, r: Record)
    requires img.baseOffset <= Absolute(img, r)
  {
    (Absolute(img, r) - img.baseOffset + |r.data|) % U32 <= |img.data|
  }

  /**
   The check is that of unbounded sizes exactly when the sum does not wrap, or still exceeds the capacity
   after wrapping. A base offset of at least 255 rules out wrapping for every record.
   */
  lemma RangeCheckExact(img: Image, r: Record)
    requires img.baseOffset <= Absolute(img, r) && |img.data| < U32 && |r.data| <= 255
    ensures var end := Absolute(img, r) - img.baseOffset + |r.data|;
            (RangeCheck32(img, r) <==> InRange(img, r)) <==> end < U32 || end - U32 > |img.data|
    ensures img.baseOffset >= 255 ==> (RangeCheck32(img, r) <==> InRange(img, r))
  {
    var end := Absolute(img, r) - img.baseOffset + |r.data|;
    if end >= U32 {
      assert end % U32 == end - U32;
    }
  }

  /** The 32-bit check fails for two bytes at the very top of the address space, in any buffer at base 0. */
  lemma RangeCheckWraps(img: Image, a: byte, b: byte)
    requires img.baseOffset == 0 && 0 < |img.data| < U32
    ensures var based, r := Apply(img, Record(0, TYPE_EXT_LINEAR, [0xFF, 0xFF])), Record(0xFFFF, TYPE_DATA, [a, b]);
            && Absolute(based, r) == 0xFFFF_FFFF && RangeCheck32(based, r) && !InRange(based, r)
  {
    var based, r := img.(extBase := 0xFFFF_0000), Record(0xFFFF, TYPE_DATA, [a, b]);
    assert Apply(img, Record(0, TYPE_EXT_LINEAR, [0xFF, 0xFF])) == based;
    assert Absolute(based, r) == 0xFFFF_FFFF;
  }
}
