/**
 The streaming line reader of the worker (ui/updi_worker.c), which feeds a file to the HEX parser as
 its chunks arrive, and the batch meaning it has: split at line feeds, drop carriage returns, cut long
 lines, parse the lines in order.
 */
module HexReader {
  import opened Bytes
  import opened Protocol
  import opened HexFormat
  import opened HexLemmas
  import opened HexFile
  import opened IntelHex

  const FILE_READ_CHUNK: nat := 256
  const HEX_LINE_MAX: nat := 300

  // ---- the batch meaning ----

  /** The terminated lines of a text, and what follows the last line feed. */
  datatype Lines = Lines(done: seq<seq<byte>>, rest: seq<byte>)

  function Split(text: seq<byte>): Lines
    decreases |text|
  {
    if text == [] then Lines([], [])
    else
      var before, c := Split(text[..|text| - 1]), text[|text| - 1];
      if c == LF then Lines(before.done + [before.rest], []) else before.(rest := before.rest + [c])
  }

  /** The text made of lines, each ended by a line feed. */
  function Terminated(lines: seq<seq<byte>>): seq<byte>
    decreases |lines|
  {
    if lines == [] then [] else Terminated(lines[..|lines| - 1]) + lines[|lines| - 1] + [LF]
  }

  predicate OneLine(s: seq<byte>) { forall i :: 0 <= i < |s| ==> s[i] != LF }

  function WithoutReturns(raw: seq<byte>): seq<byte>
    decreases |raw|
  {
    if raw == [] then []
    else if raw[|raw| - 1] == CR then WithoutReturns(raw[..|raw| - 1])
    else WithoutReturns(raw[..|raw| - 1]) + [raw[|raw| - 1]]
  }

  /** What the line buffer holds of a line. */
  function Clean(raw: seq<byte>): seq<byte> {
    var s := WithoutReturns(raw);
    if |s| < HEX_LINE_MAX then s else s[..HEX_LINE_MAX - 1]
  }

  function CleanAll(lines: seq<seq<byte>>): (r: seq<seq<byte>>)
    ensures |r| == |lines|
    ensures forall i :: 0 <= i < |lines| ==> r[i] == Clean(lines[i])
  {
    seq(|lines|, i requires 0 <= i < |lines| => Clean(lines[i]))
  }

  /** The lines of a text as the parser gets them. */
  function CleanLines(text: seq<byte>): seq<seq<byte>> { CleanAll(Split(text).done + [Split(text).rest]) }

  /** The whole text at once. */
  function ParseText(img: Image, text: seq<byte>): Parsed {
    ParseAll(img, CleanLines(text))
  }

  function FileStatus(parsed: Parsed): Status {
    if parsed.status != HexOk || !parsed.image.any then ErrParam else Ok
  }

  // ---- splitting is what it should be ----

  lemma {:induction false} SplitAppend(text: seq<byte>, s: seq<byte>)
    requires OneLine(s)
    ensures Split(text + s) == Lines(Split(text).done, Split(text).rest + s)
    decreases |s|
  {
    if s == [] {
      assert text + s == text;
    } else {
      var init := s[..|s| - 1];
      SplitAppend(text, init);
      assert (text + s)[..|text + s| - 1] == text + init;
      assert init + [s[|s| - 1]] == s;
    }
  }

  lemma SplitTerminate(text: seq<byte>, s: seq<byte>)
    requires OneLine(s)
    ensures Split(text + s + [LF]) == Lines(Split(text).done + [Split(text).rest + s], [])
  {
    SplitAppend(text, s);
    assert (text + s + [LF])[..|text + s|] == text + s;
  }

  /** Any lines, put together as a text, are what the text splits into. */
  lemma {:induction false} SplitTerminated(lines: seq<seq<byte>>, rest: seq<byte>)
    requires forall i :: 0 <= i < |lines| ==> OneLine(lines[i])
    requires OneLine(rest)
    ensures Split(Terminated(lines) + rest) == Lines(lines, rest)
    decreases |lines|
  {
    SplitAppend(Terminated(lines), rest);
    if lines != [] {
      var init, last := lines[..|lines| - 1], lines[|lines| - 1];
      SplitTerminated(init, []);
      assert Terminated(init) + [] == Terminated(init);
      SplitTerminate(Terminated(init), last);
      assert [] + last == last && [] + rest == rest;
      assert init + [last] == lines;
    }
  }

  lemma SplitSnoc(init: seq<byte>, c: byte)
    ensures Split(init + [c]) ==
      if c == LF then Lines(Split(init).done + [Split(init).rest], [])
      else Lines(Split(init).done, Split(init).rest + [c])
  {
    assert (init + [c])[..|init|] == init;
  }

  lemma TerminatedSnoc(lines: seq<seq<byte>>, last: seq<byte>)
    ensures Terminated(lines + [last]) == Terminated(lines) + last + [LF]
  {
    assert (lines + [last])[..|lines|] == lines;
  }

  /** One character more, in the text and in what it splits into. */
  lemma OneMore(lines: Lines, text: seq<byte>, c: byte)
    requires Terminated(lines.done) + lines.rest == text && OneLine(lines.rest)
    requires forall i :: 0 <= i < |lines.done| ==> OneLine(lines.done[i])
    ensures c == LF ==>
      Terminated(lines.done + [lines.rest]) == text + [c]
      && forall i :: 0 <= i <= |lines.done| ==> OneLine((lines.done + [lines.rest])[i])
    ensures c != LF ==> Terminated(lines.done) + (lines.rest + [c]) == text + [c] && OneLine(lines.rest + [c])
  {
    TerminatedSnoc(lines.done, lines.rest);
  }

  /** And every text is put together from what it splits into. */
  lemma {:induction false} SplitComplete(text: seq<byte>)
    ensures Terminated(Split(text).done) + Split(text).rest == text && OneLine(Split(text).rest)
    ensures forall i :: 0 <= i < |Split(text).done| ==> OneLine(Split(text).done[i])
    decreases |text|
  {
    if text != [] {
      var init, c := text[..|text| - 1], text[|text| - 1];
      SplitComplete(init);
      assert init + [c] == text;
      SplitSnoc(init, c);
      OneMore(Split(init), init, c);
    }
  }

  // ---- the streaming state ----

  /** What the reader holds after some text: the image of its lines and the line begun. Sealed. */
  ghost predicate InStep(start: Image, text: seq<byte>, img: Image, line: seq<byte>) {
    forall k: int {:trigger Unsealed(InStepSeal, k)} :: Unsealed(InStepSeal, k) ==>
      ParseAll(start, CleanAll(Split(text).done)) == Parsed(HexOk, img) && line == Clean(Split(text).rest)
  }

  /** A terminated line of the text was rejected. Sealed. */
  ghost predicate Failed(start: Image, text: seq<byte>, img: Image) {
    forall k: int {:trigger Unsealed(FailedSeal, k)} :: Unsealed(FailedSeal, k) ==>
      ParseAll(start, CleanAll(Split(text).done)).status != HexOk
      && ParseAll(start, CleanAll(Split(text).done)).image == img
  }

  lemma Started(start: Image)
    ensures InStep(start, [], start, [])
  {}

  lemma ParseAllSnoc(start: Image, lines: seq<seq<byte>>, last: seq<byte>)
    ensures ParseAll(start, CleanAll(lines + [last])) ==
      if ParseAll(start, CleanAll(lines)).status != HexOk then ParseAll(start, CleanAll(lines))
      else Parsed(LineStatus(ParseAll(start, CleanAll(lines)).image, Clean(last)),
                  ParseLine(ParseAll(start, CleanAll(lines)).image, Clean(last)))
  {
    assert CleanAll(lines + [last]) == CleanAll(lines) + [Clean(last)];
    assert (CleanAll(lines) + [Clean(last)])[..|lines|] == CleanAll(lines);
  }

  /** A line feed: the line begun is parsed. */
  lemma LineEnds(start: Image, text: seq<byte>, img: Image, line: seq<byte>)
    requires InStep(start, text, img, line)
    ensures LineStatus(img, line) == HexOk ==> InStep(start, text + [LF], ParseLine(img, line), [])
    ensures LineStatus(img, line) != HexOk ==> Failed(start, text + [LF], ParseLine(img, line))
  {
    assert Unsealed(InStepSeal, 0);
    assert text + [] + [LF] == text + [LF];
    SplitTerminate(text, []);
    assert Split(text).rest + [] == Split(text).rest;
    ParseAllSnoc(start, Split(text).done, Split(text).rest);
  }

  function Extended(line: seq<byte>, c: byte): seq<byte> {
    if c != CR && |line| < HEX_LINE_MAX - 1 then line + [c] else line
  }

  lemma CleanSnoc(raw: seq<byte>, c: byte)
    ensures Clean(raw + [c]) == Extended(Clean(raw), c)
  {
    assert (raw + [c])[..|raw|] == raw;
  }

  /** Any other character: it goes into the line, unless it is a carriage return or the line is full. */
  lemma LineGrows(start: Image, text: seq<byte>, img: Image, line: seq<byte>, c: byte)
    requires InStep(start, text, img, line) && c != LF
    ensures InStep(start, text + [c], img, Extended(line, c))
  {
    assert Unsealed(InStepSeal, 0);
    SplitAppend(text, [c]);
    CleanSnoc(Split(text).rest, c);
  }

  /** At the end of the text the line begun is parsed too, even when it is empty. */
  lemma TextEnds(start: Image, text: seq<byte>, img: Image, line: seq<byte>)
    requires InStep(start, text, img, line)
    ensures ParseText(start, text) == Parsed(LineStatus(img, line), ParseLine(img, line))
  {
    assert Unsealed(InStepSeal, 0);
    ParseAllSnoc(start, Split(text).done, Split(text).rest);
  }

  lemma BlankLine(img: Image)
    ensures LineStatus(img, []) == HexOk && ParseLine(img, []) == img
  {}

  lemma FailedMeans(start: Image, text: seq<byte>, img: Image)
    requires Failed(start, text, img)
    ensures var parsed := ParseAll(start, CleanAll(Split(text).done)); parsed.status != HexOk && parsed.image == img
  {
    assert Unsealed(FailedSeal, 0);
  }

  lemma CleanAllThen(a: seq<seq<byte>>, b: seq<seq<byte>>)
    ensures CleanAll(a + b) == CleanAll(a) + CleanAll(b)
  {
  }

  lemma ParseRest(start: Image, a: seq<seq<byte>>, b: seq<seq<byte>>)
    ensures ParseAll(start, CleanAll(a)).status != HexOk ==>
      ParseAll(start, CleanAll(a + b)) == ParseAll(start, CleanAll(a))
  {
    CleanAllThen(a, b);
    ParseAllThen(start, CleanAll(a), CleanAll(b));
  }

  lemma {:induction false} SplitKeeps(text: seq<byte>, more: seq<byte>)
    ensures Split(text).done <= Split(text + more).done
    decreases |more|
  {
    if more == [] {
      assert text + more == text;
    } else {
      SplitKeeps(text, more[..|more| - 1]);
      assert (text + more)[..|text + more| - 1] == text + more[..|more| - 1];
    }
  }

  /** After a rejected line, the rest of the file is of no consequence. */
  lemma FailedForGood(start: Image, text: seq<byte>, more: seq<byte>, img: Image)
    requires Failed(start, text, img)
    ensures ParseText(start, text + more).status != HexOk && ParseText(start, text + more).image == img
  {
    SplitKeeps(text, more);
    var a, b := Split(text).done, Split(text + more).done[|Split(text).done|..] + [Split(text + more).rest];
    assert Split(text + more).done + [Split(text + more).rest] == a + b;
    ParseRest(start, a, b);
    FailedMeans(start, text, img);
  }

  // ---- the reader ----

  /** A file open for reading. It is delivered in pieces of any size; a faulty one may end early. */
  class HexSource {
    var left: seq<byte>
    const faulty: bool

    constructor (content: seq<byte>, faulty: bool)
      ensures left == content && this.faulty == faulty
    {
      left := content;
      this.faulty := faulty;
    }

    method Read(size: nat) returns (chunk: seq<byte>)
      requires size > 0
      modifies this
      ensures |chunk| <= size && old(left) == chunk + left
      ensures chunk == [] && !faulty ==> left == []
    {
      var n: nat :| n <= size && n <= |left| && (n == 0 && !faulty ==> left == []);
      chunk := left[..n];
      left := left[n..];
    }
  }

  /** One character. */
  method ParseChar(c: byte, line: array<byte>, llen: nat, img: IntelHexImage, ghost start: Image, ghost text: seq<byte>)
    returns (llen': nat, parseError: bool)
    requires line.Length == HEX_LINE_MAX && llen < HEX_LINE_MAX && line != img.data
    requires InStep(start, text, img.Contents(), line[..llen])
    modifies img, img.data, line
    ensures llen' < HEX_LINE_MAX
    ensures parseError ==> Failed(start, text + [c], img.Contents())
    ensures !parseError ==> InStep(start, text + [c], img.Contents(), line[..llen'])
  {
    llen', parseError := llen, false;
    if c == LF {
      LineEnds(start, text, img.Contents(), line[..llen]);
      BlankLine(img.Contents());
      if llen > 0 {
        var status := img.ParseLine(line[..llen]);
        parseError := status != HexOk;
      }
      llen' := 0;
    } else {
      LineGrows(start, text, img.Contents(), line[..llen], c);
      if c != CR && llen < HEX_LINE_MAX - 1 {
        line[llen] := c;
        llen' := llen + 1;
      }
    }
  }

  /** The characters of one chunk, up to an error. */
  method ParseChunk(chunk: seq<byte>, line: array<byte>, llen: nat, img: IntelHexImage,
                    ghost start: Image, ghost text: seq<byte>)
    returns (llen': nat, parseError: bool, ghost text': seq<byte>)
    requires line.Length == HEX_LINE_MAX && llen < HEX_LINE_MAX && line != img.data
    requires InStep(start, text, img.Contents(), line[..llen])
    modifies img, img.data, line
    ensures llen' < HEX_LINE_MAX && text' <= text + chunk
    ensures parseError ==> Failed(start, text', img.Contents())
    ensures !parseError ==> text' == text + chunk && InStep(start, text', img.Contents(), line[..llen'])
  {
    llen', parseError, text' := llen, false, text;
    var i: nat := 0;
    while i < |chunk|
      invariant i <= |chunk| && llen' < HEX_LINE_MAX && text' == text + chunk[..i]
      invariant InStep(start, text', img.Contents(), line[..llen'])
    {
      assert text + chunk[..i + 1] == text' + [chunk[i]];
      llen', parseError := ParseChar(chunk[i], line, llen', img, start, text');
      text' := text' + [chunk[i]];
      if parseError {
        return;
      }
      i := i + 1;
    }
  }

  /** The chunks of the file, up to an error. */
  method ParseChunks(source: HexSource, line: array<byte>, img: IntelHexImage)
    returns (llen: nat, parseError: bool, ghost text: seq<byte>)
    requires line.Length == HEX_LINE_MAX && line != img.data
    modifies source, img, img.data, line
    ensures llen < HEX_LINE_MAX && text <= old(source.left)
    ensures parseError ==> Failed(old(img.Contents()), text, img.Contents())
    ensures !parseError ==> InStep(old(img.Contents()), text, img.Contents(), line[..llen])
    ensures !parseError && !source.faulty ==> text == old(source.left)
  {
    ghost var start, whole := img.Contents(), source.left;
    llen, parseError, text := 0, false, [];
    Started(start);
    assert line[..llen] == [];
    var chunk := source.Read(FILE_READ_CHUNK);
    while chunk != []
      invariant llen < HEX_LINE_MAX && whole == text + chunk + source.left
      invariant chunk == [] && !source.faulty ==> source.left == []
      invariant InStep(start, text, img.Contents(), line[..llen]) && !parseError
      decreases |chunk| + |source.left|
    {
      llen, parseError, text := ParseChunk(chunk, line, llen, img, start, text);
      if parseError {
        return;
      }
      chunk := source.Read(FILE_READ_CHUNK);
    }
  }

  /** The last line, when no line feed ends it. */
  method ParseLastLine(line: array<byte>, llen: nat, img: IntelHexImage, ghost start: Image, ghost text: seq<byte>)
    returns (parseError: bool)
    requires line.Length == HEX_LINE_MAX && llen < HEX_LINE_MAX && line != img.data
    requires InStep(start, text, img.Contents(), line[..llen])
    modifies img, img.data
    ensures parseError == (ParseText(start, text).status != HexOk) && img.Contents() == ParseText(start, text).image
  {
    TextEnds(start, text, img.Contents(), line[..llen]);
    BlankLine(img.Contents());
    parseError := false;
    if llen > 0 {
      var status := img.ParseLine(line[..llen]);
      parseError := status != HexOk;
    }
  }

  /**
   A HEX file into an image. However the file is cut into chunks, status and image are those of its
   text taken as a whole; of a faulty file the text is what was delivered of it.
   */
  method ParseHexFile(source: HexSource?, img: IntelHexImage) returns (status: Status, ghost text: seq<byte>)
    modifies source, img, img.data
    ensures source == null ==> status == ErrParam && img.Contents() == old(img.Contents())
    ensures source != null ==> text <= old(source.left) && (!source.faulty ==> text == old(source.left))
    ensures source != null ==> status == FileStatus(ParseText(old(img.Contents()), text))
    ensures source != null ==> img.Contents() == ParseText(old(img.Contents()), text).image
  {
    text := [];
    if source == null {
      return ErrParam, text;
    }
    ghost var start, whole := img.Contents(), source.left;
    var line := new byte[HEX_LINE_MAX];
    var llen, parseError;
    llen, parseError, text := ParseChunks(source, line, img);
    if parseError {
      assert text + whole[|text|..] == whole;
      FailedForGood(start, text, whole[|text|..], img.Contents());
      text := whole;
    } else {
      parseError := ParseLastLine(line, llen, img, start, text);
    }
    status := if parseError || !img.any then ErrParam else Ok;
  }

  // ---- written files, read back through the line reader ----

  /** A written record fits the line buffer exactly up to this many data bytes. */
  const LINE_DATA_MAX: nat := 144

  predicate FitLines(records: seq<Record>) {
    forall i :: 0 <= i < |records| ==> |records[i].data| <= LINE_DATA_MAX
  }

  predicate Printable(s: seq<byte>) { forall i :: 0 <= i < |s| ==> s[i] >= 0x30 }

  lemma HexTextPrintable(bytes: seq<byte>)
    ensures Printable(HexText(bytes))
  {}

  lemma NoReturns(s: seq<byte>)
    requires Printable(s)
    ensures WithoutReturns(s) == s && WithoutReturns(s + [CR]) == s && OneLine(s + [CR])
    decreases |s|
  {
    if s != [] {
      NoReturns(s[..|s| - 1]);
      assert s[..|s| - 1] + [s[|s| - 1]] == s;
    }
    assert (s + [CR])[..|s|] == s;
  }

  lemma RecordTextPrintable(r: Record)
    ensures Printable(RecordText(r))
  {
    HexTextPrintable(RecordBytes(r) + [CheckByte(RecordBytes(r))]);
  }

  lemma OneMoreLine(text: seq<byte>, s: seq<byte>, lines: seq<seq<byte>>)
    requires Split(text) == Lines(lines, [])
    ensures OneLine(s + [CR]) ==> Split(text + (s + [CR, LF])) == Lines(lines + [s + [CR]], [])
  {
    if OneLine(s + [CR]) {
      SplitTerminate(text, s + [CR]);
      assert [] + (s + [CR]) == s + [CR];
      assert text + (s + [CR]) + [LF] == text + (s + [CR, LF]);
    }
  }

  lemma FileTextOne(r: Record)
    ensures FileText([r]) == RecordLine(r)
  {
    assert FileText([r]) == RecordLine(r) + [];
  }

  lemma RecordLinesThen(a: seq<Record>, b: seq<Record>, tail: seq<byte>)
    ensures RecordLines(a + b, tail) == RecordLines(a, tail) + RecordLines(b, tail)
    decreases |a|
  {
    if a == [] {
      assert a + b == b;
    } else {
      assert (a + b)[1..] == a[1..] + b;
      RecordLinesThen(a[1..], b, tail);
    }
  }

  lemma RecordLinesAt(records: seq<Record>, tail: seq<byte>, i: nat)
    requires i < |records|
    ensures RecordLines(records, tail)[i] == RecordText(records[i]) + tail
    decreases i
  {
    if i > 0 {
      RecordLinesAt(records[1..], tail, i - 1);
    }
  }

  lemma OneMoreRecord(init: seq<Record>, last: Record)
    requires Split(FileText(init)) == Lines(RecordLines(init, [CR]), [])
    ensures Split(FileText(init + [last])) == Lines(RecordLines(init + [last], [CR]), [])
  {
    FileTextThen(init, [last]);
    FileTextOne(last);
    RecordLinesThen(init, [last], [CR]);
    RecordLinesAt([last], [CR], 0);
    OneMoreLine(FileText(init), RecordText(last), RecordLines(init, [CR]));
    RecordTextPrintable(last);
    NoReturns(RecordText(last));
    assert RecordLines([last], [CR]) == [RecordText(last) + [CR]];
  }

  /** The lines of a written file as they stand in it. */
  lemma {:induction false} FileTextSplits(records: seq<Record>)
    ensures Split(FileText(records)) == Lines(RecordLines(records, [CR]), [])
    decreases |records|
  {
    if records != [] {
      var init, last := records[..|records| - 1], records[|records| - 1];
      FileTextSplits(init);
      OneMoreRecord(init, last);
      assert init + [last] == records;
    }
  }

  lemma CleanRecord(r: Record)
    ensures Clean(RecordText(r) + [CR]) ==
      if |r.data| <= LINE_DATA_MAX then RecordText(r) else RecordText(r)[..HEX_LINE_MAX - 1]
  {
    RecordTextPrintable(r);
    NoReturns(RecordText(r));
  }

  /** The line buffer takes these lines without their carriage returns. */
  lemma CleanRecordLines(records: seq<Record>)
    requires FitLines(records)
    ensures CleanAll(RecordLines(records, [CR])) == RecordLines(records, [])
  {
    var lines, plain := RecordLines(records, [CR]), RecordLines(records, []);
    forall i | 0 <= i < |lines|
      ensures Clean(lines[i]) == plain[i]
    {
      RecordLinesAt(records, [CR], i);
      RecordLinesAt(records, [], i);
      CleanRecord(records[i]);
    }
    assert |lines| == |plain|;
  }

  /** A written file whose records fit the line buffer reads back as its records, one by one. */
  lemma ReadWritten(img: Image, records: seq<Record>)
    requires FitLines(records)
    ensures ParseText(img, FileText(records)) == ApplyAll(img, records)
  {
    var lines := RecordLines(records, [CR]);
    FileTextSplits(records);
    CleanRecordLines(records);
    ParseRecordLines(img, records, []);
    ParseAllSnoc(img, lines, []);
    BlankLine(ParseAll(img, CleanAll(lines)).image);
  }

  lemma {:induction false} BytesAtShort(line: seq<byte>, p: nat, n: nat)
    requires n > 0 && p + 2 * n > |line|
    ensures BytesAt(line, p, n).NoBytes?
    decreases n
  {
    if n > 1 {
      BytesAtShort(line, p + 2, n - 1);
    }
  }

  lemma CutSpells(line: seq<byte>, header: seq<byte>, body: seq<byte>)
    requires |header| == 4 && |body| > LINE_DATA_MAX
    requires line == ([COLON] + HexText(header + body))[..HEX_LINE_MAX - 1]
    ensures SkipBlanks(line, 0) == 0 && At(line, 0) == COLON && Spells(line, 1, header)
  {
    HexTextThen(header, body);
    var digits := HexText(body)[..HEX_LINE_MAX - 10];
    assert line == [COLON] + (HexText(header) + digits);
    assert line == [COLON] + HexText(header) + digits;
    HexTextSpells(line, [COLON], header, digits);
    ColonFirst(line, HexText(header) + digits);
  }

  lemma DecodeShort(line: seq<byte>, header: seq<byte>, body: seq<byte>)
    requires SkipBlanks(line, 0) == 0 && At(line, 0) == COLON && Spells(line, 1, header) && |header| == 4
    requires |body| == Word(header[0], 0) + 1 && BytesAt(line, 9, |body|).NoBytes?
    ensures Decode(line) == Bad(ErrFormat)
  {
    assert Unsealed(SpellsSeal, 0);
  }

  lemma CutText(r: Record, line: seq<byte>)
    requires |r.data| > LINE_DATA_MAX && line == RecordText(r)[..HEX_LINE_MAX - 1]
    ensures Decode(line) == Bad(ErrFormat)
  {
    var bytes := RecordBytes(r);
    var header, body := bytes[..4], r.data + [CheckByte(bytes)];
    RecordBack(r, header, body);
    CutSpells(line, header, body);
    BytesAtShort(line, 9, |body|);
    DecodeShort(line, header, body);
  }

  /** A longer record is cut, and then it is not a record any more. */
  lemma LongRecordRejected(r: Record)
    requires |r.data| > LINE_DATA_MAX
    ensures Decode(Clean(RecordText(r) + [CR])) == Bad(ErrFormat)
  {
    CleanRecord(r);
    CutText(r, RecordText(r)[..HEX_LINE_MAX - 1]);
  }

  lemma {:induction false} BadLineRejected(img: Image, lines: seq<seq<byte>>, k: nat)
    requires k < |lines| && Decode(lines[k]) == Bad(ErrFormat)
    ensures ParseAll(img, lines).status != HexOk
    decreases |lines|
  {
    if k < |lines| - 1 {
      BadLineRejected(img, lines[..|lines| - 1], k);
    }
  }

  lemma LongFileRejected(img: Image, records: seq<Record>)
    requires !FitLines(records)
    ensures ParseText(img, FileText(records)).status != HexOk
  {
    var lines := RecordLines(records, [CR]);
    FileTextSplits(records);
    var i :| 0 <= i < |records| && |records[i].data| > LINE_DATA_MAX;
    RecordLinesAt(records, [CR], i);
    LongRecordRejected(records[i]);
    BadLineRejected(img, CleanAll(lines + [[]]), i);
  }

  lemma FitLinesThen(a: seq<Record>, b: seq<Record>)
    ensures FitLines(a + b) <==> FitLines(a) && FitLines(b)
  {
    assert forall i :: 0 <= i < |b| ==> (a + b)[|a| + i] == b[i];
    assert forall i :: 0 <= i < |a| ==> (a + b)[i] == a[i];
  }

  /** How far the 64K segment of an address still reaches. */
  function RoomAt(address: nat): nat { 0x1_0000 - address % 0x1_0000 }

  /** Neither the width nor the length nor a segment boundary lets a record grow too long. */
  predicate FitsReader(length: nat, room: nat, width: nat) {
    width <= LINE_DATA_MAX || length <= LINE_DATA_MAX || (room <= LINE_DATA_MAX && length <= room + LINE_DATA_MAX)
  }

  lemma SameRemainder(q: nat, r: nat)
    ensures (0x1_0000 * q + r) % 0x1_0000 == r % 0x1_0000
  {}

  lemma SameRoom(address: nat)
    ensures LowerOf(address) == address % 0x1_0000
  {
    var q, r := address / U32, address % U32;
    assert address == 0x1_0000 * (0x1_0000 * q) + r;
    SameRemainder(0x1_0000 * q, r);
  }

  lemma NextSegment(address: nat)
    ensures RoomAt(address + RoomAt(address)) == 0x1_0000
  {}

  lemma ChunkFits(data: seq<byte>, address: nat, width: nat)
    requires data != [] && 0 < width <= 255
    ensures var n := ChunkAt(data, address, width);
      FitsReader(|data|, RoomAt(address), width)
      <==> n <= LINE_DATA_MAX && FitsReader(|data| - n, RoomAt(address + n), width)
  {
    SameRoom(address);
    var n := ChunkAt(data, address, width);
    if n == RoomAt(address) {
      NextSegment(address);
    }
  }

  lemma {:induction false} WrittenFits(data: seq<byte>, address: nat, width: nat, upper: u16)
    requires 0 < width <= 255
    ensures FitLines(Written(data, address, width, upper)) <==> FitsReader(|data|, RoomAt(address), width)
    decreases |data|
  {
    if data != [] {
      var n := ChunkAt(data, address, width);
      var segment, record := Segment(upper, UpperOf(address)), DataRecord(data, address, width);
      var rest := Written(data[n..], address + n, width, UpperOf(address));
      WrittenFits(data[n..], address + n, width, UpperOf(address));
      FitLinesThen(segment + [record], rest);
      FitLinesThen(segment, [record]);
      assert [record][0] == record;
      ChunkFits(data, address, width);
    }
  }

  /**
   Written, then read back through the chunked reader into a fresh image: the file is accepted and the data
   restored, with the exact bounds, exactly when there is data, the reader's line buffer is wide enough for
   the lines, and the data starts below the topmost segment. A file of no data is no error to the line
   parser, but is rejected as a file.
   */
  lemma ReaderRoundTrip(capacity: nat, base: u32, fill: byte, data: seq<byte>, start: u32, bytesPerLine: nat)
    requires start + |data| <= U32 && base <= start && start - base + |data| <= capacity
    ensures var parsed := ParseText(NewImage(capacity, base, fill), FileText(WrittenFile(data, start, bytesPerLine)));
      FileStatus(parsed) == Ok && Restored(parsed.image, NewImage(capacity, base, fill), data, start - base)
      <==> data != [] && FitsReader(|data|, RoomAt(start), Width(bytesPerLine)) && start < 0xFFFF_0000
    ensures data == [] ==>
      var parsed := ParseText(NewImage(capacity, base, fill), FileText(WrittenFile(data, start, bytesPerLine)));
      parsed.status == HexOk && FileStatus(parsed) == ErrParam
  {
    var img, records := NewImage(capacity, base, fill), WrittenFile(data, start, bytesPerLine);
    RecordsRoundTrip(capacity, base, fill, data, start, bytesPerLine);
    RestoresMeans(img, records, data, start - base);
    WrittenFits(data, start, Width(bytesPerLine), NO_UPPER);
    if FitLines(records) {
      ReadWritten(img, records);
    } else {
      LongFileRejected(img, records);
    }
  }

  /** A dump of a whole flash, read back into an image of that flash, is the dump. */
  lemma DumpReadsBack(flash: seq<byte>, fill: byte)
    requires 0 < |flash| < U32
    ensures var parsed := ParseText(NewImage(|flash|, 0, fill), FileText(WrittenFile(flash, 0, 32)));
      && FileStatus(parsed) == Ok && parsed.image.data == flash && parsed.image.eofSeen
      && parsed.image.minOffset == 0 && parsed.image.maxOffset == |flash|
  {
    ReaderRoundTrip(|flash|, 0, fill, flash, 0, 32);
    assert Overlay(NewImage(|flash|, 0, fill).data, 0, flash) == flash;
  }

  // ---- files that end early ----

  /** While all lines are accepted, the image holds data exactly when one of them is a data record. */
  lemma {:induction false} AnyExactly(img: Image, lines: seq<seq<byte>>)
    requires ParseAll(img, lines).status == HexOk
    ensures ParseAll(img, lines).image.any <==> img.any || HasRecordOf(lines, TYPE_DATA)
    decreases |lines|
  {
    if lines != [] {
      var init, last := lines[..|lines| - 1], lines[|lines| - 1];
      assert init + [last] == lines;
      AnyExactly(img, init);
      HasRecordSnoc(init, last, TYPE_DATA);
    }
  }

  /**
   End-of-file was seen exactly when an end-of-file record is among the lines parsed, which are all of
   them unless one is rejected.
   */
  lemma EofSeenInText(img: Image, text: seq<byte>) returns (k: nat)
    ensures k <= |CleanLines(text)| && (ParseText(img, text).status == HexOk ==> k == |CleanLines(text)|)
    ensures ParseText(img, text).image.eofSeen <==> img.eofSeen || HasRecordOf(CleanLines(text)[..k], TYPE_EOF)
  {
    k := ParseAllIsPrefix(img, CleanLines(text));
    EofSeenExactly(img, CleanLines(text)[..k]);
  }

  /** So a file of one data record is accepted although it has no end-of-file record. */
  lemma AcceptedWithoutEof(img: Image, r: Record)
    requires r.kind == TYPE_DATA && |r.data| <= LINE_DATA_MAX && InRange(img, r) && !img.eofSeen
    ensures var parsed := ParseText(img, FileText([r])); FileStatus(parsed) == Ok && !parsed.image.eofSeen
  {
    ReadWritten(img, [r]);
    assert [r] + [] == [r];
    ApplyCons(img, r, []);
  }

  /** One such file. */
  lemma AcceptedWithoutEofExample()
    ensures var parsed := ParseText(NewImage(1, 0, 0xFF), FileText([Record(0, TYPE_DATA, [7])]));
      FileStatus(parsed) == Ok && !parsed.image.eofSeen
  {
    AcceptedWithoutEof(NewImage(1, 0, 0xFF), Record(0, TYPE_DATA, [7]));
  }

  lemma AcceptedLines(img: Image, lines: seq<seq<byte>>)
    requires ParseAll(img, lines).status == HexOk && !img.any
    ensures FileStatus(ParseAll(img, lines)) == Ok <==> HasRecordOf(lines, TYPE_DATA)
  {
    AnyExactly(img, lines);
  }

  lemma AcceptedHead(img: Image, a: seq<seq<byte>>, b: seq<seq<byte>>)
    requires ParseAll(img, CleanAll(a + b)).status == HexOk && !img.any
    ensures FileStatus(ParseAll(img, CleanAll(a))) == Ok <==> HasRecordOf(CleanAll(a), TYPE_DATA)
  {
    assert ParseAll(img, CleanAll(a)).status == HexOk by {
      ParseRest(img, a, b);
    }
    AcceptedLines(img, CleanAll(a));
  }

  lemma CutLines(img: Image, done: seq<seq<byte>>, last: seq<byte>, k: nat)
    requires ParseAll(img, CleanAll(done + [last])).status == HexOk && !img.any && k <= |done|
    ensures FileStatus(ParseAll(img, CleanAll(done[..k]))) == Ok <==> HasRecordOf(CleanAll(done[..k]), TYPE_DATA)
  {
    assert done + [last] == done[..k] + (done[k..] + [last]);
    AcceptedHead(img, done[..k], done[k..] + [last]);
  }

  lemma ParseCut(img: Image, text: seq<byte>, k: nat)
    requires k <= |Split(text).done|
    ensures ParseText(img, Terminated(Split(text).done[..k])) == ParseAll(img, CleanAll(Split(text).done[..k]))
  {
    var head := Split(text).done[..k];
    SplitComplete(text);
    SplitTerminated(head, []);
    assert Terminated(head) + [] == Terminated(head);
    ParseAllSnoc(img, head, []);
    BlankLine(ParseAll(img, CleanAll(head)).image);
  }

  /**
   A file all of whose lines are accepted, cut after any of its lines, is itself accepted exactly when
   a data record came before the cut.
   */
  lemma CutFileAccepted(img: Image, text: seq<byte>, k: nat)
    requires ParseText(img, text).status == HexOk && !img.any && k <= |Split(text).done|
    ensures FileStatus(ParseText(img, Terminated(Split(text).done[..k]))) == Ok
            <==> HasRecordOf(CleanAll(Split(text).done[..k]), TYPE_DATA)
  {
    ParseCut(img, text, k);
    CutLines(img, Split(text).done, Split(text).rest, k);
  }
}
