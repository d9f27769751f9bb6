/**
 Intel HEX as a format (Intel Hexadecimal Object File Format Specification, Revision A, 1988):
 records, their text form, and what the parser makes of a line.
 */
module HexFormat {
  import opened Bytes

  const COLON: byte := 0x3A
  const CR: byte := 13
  const LF: byte := 10
  const TYPE_DATA: byte := 0
  const TYPE_EOF: byte := 1
  const TYPE_EXT_SEGMENT: byte := 2
  const TYPE_EXT_LINEAR: byte := 4

  datatype HexStatus = HexOk | ErrFormat | ErrChecksum | ErrOverflow | ErrUnsupported

  type u16 = n: int | 0 <= n < 0x1_0000

  /** What fits a record's one-byte count. */
  type Payload = s: seq<byte> | |s| <= 255

  datatype Record = Record(address: u16, kind: byte, data: Payload)

  // ---- digits ----

  /** The value of a hex digit, -1 for any other character. */
  function Nibble(c: byte): int {
    if 0x30 <= c <= 0x39 then c - 0x30
    else if 0x61 <= c <= 0x66 then c - 0x61 + 10
    else if 0x41 <= c <= 0x46 then c - 0x41 + 10
    else -1
  }

  function Digit(v: int): byte
    requires 0 <= v < 16
  {
    if v < 10 then 0x30 + v else 0x41 + v - 10
  }

  /** A C string's character: the terminator at its end and, harmlessly, beyond it. */
  function At(line: seq<byte>, i: nat): byte { if i < |line| then line[i] else 0 }

  /** The byte written as two digits at p, or -1. */
  function ByteAt(line: seq<byte>, p: nat): (r: int)
    ensures -1 <= r < 256
  {
    var hi, lo := Nibble(At(line, p)), Nibble(At(line, p + 1));
    if hi < 0 || lo < 0 then -1 else 16 * hi + lo
  }

  datatype MaybeBytes = NoBytes | SomeBytes(bytes: seq<byte>)

  function ConsByte(b: byte, m: MaybeBytes): MaybeBytes {
    if m.SomeBytes? then SomeBytes([b] + m.bytes) else m
  }

  /** The n bytes written as digit pairs from p on. */
  function BytesAt(line: seq<byte>, p: nat, n: nat): (r: MaybeBytes)
    ensures r.SomeBytes? ==> |r.bytes| == n
    decreases n
  {
    if n == 0 then SomeBytes([])
    else if ByteAt(line, p) < 0 then NoBytes
    else ConsByte(ByteAt(line, p), BytesAt(line, p + 2, n - 1))
  }

  function Digits(v: byte): seq<byte> { [Digit(v / 16), Digit(v % 16)] }

  function HexText(bytes: seq<byte>): (t: seq<byte>)
    ensures |t| == 2 * |bytes|
  {
    if bytes == [] then [] else Digits(bytes[0]) + HexText(bytes[1..])
  }

  /** An eight-bit sum. */
  function Add8(sum: byte, b: byte): byte { (Word(sum, 0) + b) % 256 }

  function Sum(bytes: seq<byte>): nat {
    if bytes == [] then 0 else bytes[0] + Sum(bytes[1..])
  }

  // ---- lines ----

  predicate IsBlankChar(c: byte) { c == 0x20 || c == 0x09 || c == CR || c == LF }

  function SkipBlanks(line: seq<byte>, i: nat): (k: nat)
    ensures i <= k && (i <= |line| ==> k <= |line|) && !IsBlankChar(At(line, k))
    ensures forall j :: i <= j < k ==> IsBlankChar(At(line, j))
    decreases |line| - i
  {
    if IsBlankChar(At(line, i)) then SkipBlanks(line, i + 1) else i
  }

  datatype Decoded = Blank | Bad(status: HexStatus) | Good(record: Record)

  function RecordOf(header: seq<byte>, body: seq<byte>): Record
    requires |header| == 4 && 0 < |body| <= 256
  {
    Record(Word(header[2], header[1]), header[3], body[..|body| - 1])
  }

  /** What complete digits say: the bytes of a record must sum to zero. */
  function Judge(header: seq<byte>, body: seq<byte>): Decoded
    requires |header| == 4 && 0 < |body| <= 256
  {
    if Sum(header + body) % 256 == 0 then Good(RecordOf(header, body)) else Bad(ErrChecksum)
  }

  function DecodeBody(line: seq<byte>, p: nat, header: seq<byte>): Decoded
    requires |header| == 4
  {
    var count: nat := header[0];
    var body := BytesAt(line, p, count + 1);
    if body.NoBytes? then Bad(ErrFormat) else Judge(header, body.bytes)
  }

  /** What a line says: nothing, a record, or why it is not one. */
  function Decode(line: seq<byte>): Decoded {
    var i := SkipBlanks(line, 0);
    if At(line, i) == 0 then Blank
    else if At(line, i) != COLON then Bad(ErrFormat)
    else
      var header := BytesAt(line, i + 1, 4);
      if header.NoBytes? then Bad(ErrFormat) else DecodeBody(line, i + 9, header.bytes)
  }

  function RecordBytes(r: Record): seq<byte> {
    [|r.data|, r.address / 256, r.address % 256, r.kind] + r.data
  }

  /** The two's complement that makes all the bytes sum to zero. */
  function CheckByte(bytes: seq<byte>): byte { (256 - Sum(bytes) % 256) % 256 }

  function RecordText(r: Record): (t: seq<byte>)
    ensures |t| == 11 + 2 * |r.data|
  {
    [COLON] + HexText(RecordBytes(r) + [CheckByte(RecordBytes(r))])
  }

  // ---- images ----

  /** The image buffer with its bookkeeping; the capacity is the length of the buffer. */
  datatype Image = Image(
    data: seq<byte>, baseOffset: u32, extBase: u32, minOffset: nat, maxOffset: nat, any: bool, eofSeen: bool)

  function NewImage(capacity: nat, baseOffset: u32, fill: byte): Image {
    Image(seq(capacity, _ => fill), baseOffset, 0, 0, 0, false, false)
  }

  /** The absolute address of a data record wraps at 32 bits. */
  function Absolute(img: Image, r: Record): u32 { (img.extBase + r.address) % U32 }

  predicate InRange(img: Image, r: Record) {
    img.baseOffset <= Absolute(img, r) && Absolute(img, r) - img.baseOffset + |r.data| <= |img.data|
  }

  function Store(img: Image, r: Record): Image
    requires InRange(img, r)
  {
    var off := Absolute(img, r) - img.baseOffset;
    var end := off + |r.data|;
    img.(data := Overlay(img.data, off, r.data), any := true,
         minOffset := if img.any && img.minOffset <= off then img.minOffset else off,
         maxOffset := if img.any && end <= img.maxOffset then img.maxOffset else end)
  }

  function BaseOf(r: Record, weight: nat): nat
    requires |r.data| == 2
  {
    Word(r.data[1], r.data[0]) * weight
  }

  /** Whether a record is accepted. */
  function Verdict(img: Image, r: Record): HexStatus {
    if r.kind == TYPE_DATA then if InRange(img, r) then HexOk else ErrOverflow
    else if r.kind in {TYPE_EXT_LINEAR, TYPE_EXT_SEGMENT} then if |r.data| == 2 then HexOk else ErrFormat
    else if r.kind in {TYPE_EOF, 3, 5} then HexOk
    else ErrUnsupported
  }

  /** What an accepted record does to the image; a rejected one does nothing. */
  function Apply(img: Image, r: Record): Image {
    if Verdict(img, r) != HexOk then img
    else if r.kind == TYPE_DATA then Store(img, r)
    else if r.kind == TYPE_EOF then img.(eofSeen := true)
    else if r.kind == TYPE_EXT_LINEAR then img.(extBase := BaseOf(r, 0x1_0000))
    else if r.kind == TYPE_EXT_SEGMENT then img.(extBase := BaseOf(r, 16))
    else img
  }

  function LineStatus(img: Image, line: seq<byte>): HexStatus {
    match Decode(line)
    case Blank => HexOk
    case Bad(status) => status
    case Good(r) => Verdict(img, r)
  }

  function ParseLine(img: Image, line: seq<byte>): Image {
    match Decode(line)
    case Good(r) => Apply(img, r)
    case _ => img
  }
}
