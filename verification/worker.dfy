/**
 The worker's operations (ui/updi_worker.c) as step sequences over the session and the HEX files.
 The serial port, the heap and the storage card enter as what they grant or refuse.
 */
module UpdiWorker {
  import opened Bytes
  import opened Protocol
  import opened Target
  import opened WireLog
  import opened UpdiEmulator
  import opened UpdiTransport
  import opened Devices
  import opened FlashPages
  import opened FlashTranscripts
  import opened TranscriptOrder
  import opened UpdiNvmController
  import opened UpdiProgramming
  import HexFormat
  import HexLemmas
  import HexFile
  import IntelHex
  import HexReader

  /** Whether the serial port could be taken, and whether the heap has room for an image. */
  datatype Environment = Environment(serialReady: bool, heapLeft: bool)

  /** The application's fuse buffer. */
  const FUSES_MAX: nat := 16

  // ---- images ----

  /** A file parsed into a fresh image of a flash. */
  function FileImage(size: nat, text: seq<byte>): HexFile.Parsed {
    HexReader.ParseText(HexFormat.NewImage(size, 0, 0xFF), text)
  }

  function FileStatus(size: nat, text: seq<byte>): Status { HexReader.FileStatus(FileImage(size, text)) }

  /** The part of the image that is programmed: everything below its highest offset. */
  function Payload(size: nat, text: seq<byte>): seq<byte> {
    var img := FileImage(size, text).image;
    if img.maxOffset <= |img.data| then img.data[..img.maxOffset] else img.data
  }

  /** The image of a file lies within the flash and is blank outside its bounds. */
  lemma FileImageOk(size: nat, text: seq<byte>)
    ensures |FileImage(size, text).image.data| == size && HexLemmas.ImageOk(FileImage(size, text).image, 0xFF)
    ensures FileStatus(size, text) == Ok ==>
      FileImage(size, text).image.maxOffset <= size
      && Payload(size, text) == FileImage(size, text).image.data[..FileImage(size, text).image.maxOffset]
  {
    var img := HexFormat.NewImage(size, 0, 0xFF);
    var lines := HexReader.CleanLines(text);
    var k := HexFile.ParseAllIsPrefix(img, lines);
    HexLemmas.ParserInvariant(img, 0xFF, lines[..k]);
  }

  /** Everything that identifies the device is as it was. */
  predicate SameIdentity(c: Chip, c': Chip) {
    c'.cfg == c.cfg && c'.io[1..] == c.io[1..] && c'.cs[CS_STATUSA] == c.cs[CS_STATUSA]
  }

  lemma StillPresents(c: Chip, c': Chip, table: seq<Device>, d: Device)
    requires Presents(c, table, d) && SameIdentity(c, c')
    ensures Presents(c', table, d)
  {
    assert c'.io[0x100..0x103] == c'.io[1..][0xFF..0x102];
    assert c.io[0x100..0x103] == c.io[1..][0xFF..0x102];
  }

  /** The image of an accepted file is its payload, continued by blank bytes. */
  lemma PaddedIsImage(size: nat, text: seq<byte>)
    requires size <= FLASH_SIZE && FileStatus(size, text) == Ok
    ensures Padded(Payload(size, text), 0, FLASH_SIZE)[..size] == FileImage(size, text).image.data
  {
    FileImageOk(size, text);
  }

  /** A verify is Ok exactly when the flash begins with the image; otherwise it names the first difference. */
  predicate Compared(image: seq<byte>, flash: seq<byte>, st: Status, mismatch: Option<Mismatch>) {
    && |image| <= |flash|
    && st == (if image == flash[..|image|] then Ok else ErrVerify)
    && (st == ErrVerify ==> mismatch.Some? && FirstDifference(mismatch.value, image, flash))
  }

  lemma AgreesOrDiffers(image: seq<byte>, back: seq<byte>, flash: seq<byte>, st: Status, mismatch: Option<Mismatch>)
    requires st in {Ok, ErrVerify} && |back| <= |image| <= |flash| && back == flash[..|back|]
    requires st == Ok ==> back == image
    requires st == ErrVerify ==> mismatch.Some? && FirstDifference(mismatch.value, image, back)
    ensures Compared(image, flash, st, mismatch)
  {
    if st == ErrVerify {
      var m := mismatch.value;
      assert flash[..|image|][m.offset] == back[m.offset] != image[m.offset];
      assert back[..m.offset] == flash[..m.offset];
    }
  }

  class Worker {
    const session: UpdiSession
    var haveDevice: bool
    var mismatch: Option<Mismatch>
    var fuses: seq<byte>

    ghost predicate Valid()
      reads this, session, session.nvm, session.link, session.link.transport, session.link.transport.Repr
    {
      session.Valid() && this !in session.link.transport.Repr
    }

    ghost function Now(): Wire
      reads session.link.transport
    {
      session.Now()
    }

    ghost function Chip(): Chip
      reads session.link.transport
    {
      session.Chip()
    }

    /** The emulator is at the other end, in step, and presents itself as this device. */
    ghost predicate Offers(d: Device)
      reads session.link.transport
    {
      Live(Now()) && Presents(Chip(), session.table, d)
    }

    constructor (session: UpdiSession)
      requires session.Valid()
      ensures Valid() && this.session == session && !haveDevice
    {
      this.session := session;
      haveDevice, mismatch, fuses := false, None, [];
    }

    /** Connects, and records what connecting returned. */
    method ConnectOnce(ghost d: Device) returns (st: Status)
      requires Valid()
      modifies session, session.nvm`device, session.link`addressBytes, session.link`ackEnabled
      modifies session.link.transport.Repr
      ensures Valid() && (session.connected <==> st == Ok)
      ensures |Now().log| > 0 && Now().log[|Now().log| - 1] == Returned(Connect, st)
      ensures Grew(old(Now()).log, Now().log[..|Now().log| - 1], ReadOnly)
      ensures old(Offers(d)) ==>
                st == Ok && session.device == Some(d) && session.Attached() && SameMemories(old(Chip()), Chip())
    {
      st := session.Connect();
      ghost var before := Now().log;
      session.link.transport.Note(Connect, st);
      assert Now().log[..|Now().log| - 1] == before;
    }

    /**
     Connects; a locked device is erased and connected again when that is allowed. A transcript of
     this is in order for every operation.
     */
    method DoConnect(env: Environment, allowErase: bool, ghost d: Device) returns (st: Status)
      requires Valid()
      modifies this`haveDevice
      modifies session, session.nvm`device, session.link`addressBytes, session.link`ackEnabled
      modifies session.link.transport.Repr
      ensures Valid() && old(Now()).log <= Now().log && (st == Ok ==> session.connected && haveDevice)
      ensures Connecting(Now().log, |old(Now()).log|)
      ensures !allowErase ==> SentWithin(Now().log, |old(Now()).log|, ReadOnly)
      ensures st == Ok ==> Said(Now().log, |old(Now()).log|, |Now().log|, Returned(Connect, Ok))
      ensures !env.serialReady ==> st == ErrTransport && Now() == old(Now())
      ensures old(Offers(d)) && env.serialReady ==>
                st == Ok && session.device == Some(d) && session.Attached() && SameMemories(old(Chip()), Chip())
    {
      if !env.serialReady {
        return ErrTransport;
      }
      ghost var from := |Now().log|;
      st := ConnectOnce(d);
      ghost var l1 := Now().log;
      ConnectingGrew(old(Now()).log, l1, from, st);
      if st == ErrLocked && allowErase {
        st := session.Unlock();
        ghost var l2 := Now().log;
        UnlockingGrew(l1, l2, from);
        if st == Ok {
          st := ConnectOnce(d);
          ConnectingGrew(l2, Now().log, from, st);
        }
      }
      if st == Ok {
        haveDevice := true;
      }
    }

    // ---- flashing ----

    /** The frame that opens a store to the NVM command register of the connected device. */
    ghost function CommandFrame(): seq<byte>
      requires session.device.Some?
      reads session, session.link
    {
      var d := session.device.value;
      StsFrame(session.link.addressBytes, DATA_8, d.nvmctrlBase + Desc(d.variant).regCtrla)
    }

    ghost function EraseCode(): byte
      requires session.device.Some?
      reads session
    {
      Desc(session.device.value.variant).cmdChipErase
    }

    /**
     The order that flashing keeps: stores only once the whole file was parsed, and from the erase on
     until writing has returned, only commands and whole pages of the device's flash.
     */
    ghost function FlashRules(): Rules
      requires session.device.Some? && session.nvm.device == session.device
      reads session, session.link, session.nvm, session.nvm.link
    {
      Rules(Returned(ParseFile, Ok), CommandFrame(), EraseCode(), session.FlashScope(session.device.value.flashSize))
    }

    /** The whole HEX file into an image of the device's flash; records what parsing returned. */
    method LoadImage(env: Environment, source: HexReader.HexSource?)
      returns (st: Status, image: seq<byte>, ghost text: seq<byte>)
      requires Valid() && session.connected && source !in session.link.transport.Repr
      modifies source, session.link.transport`wire
      ensures Valid()
      ensures st == Ok || st == ErrParam
      ensures source != null ==> text <= old(source.left) && (!source.faulty ==> text == old(source.left))
      ensures st == Ok <==> env.heapLeft && source != null && FileStatus(session.device.value.flashSize, text) == Ok
      ensures st == Ok ==> image == Payload(session.device.value.flashSize, text)
                           && |image| <= session.device.value.flashSize
      ensures Now() == old(Now()) || Now() == old(Now()).(log := old(Now()).log + [Returned(ParseFile, st)])
      ensures st == Ok ==> Now() == old(Now()).(log := old(Now()).log + [Returned(ParseFile, st)])
    {
      text := if source == null then [] else source.left;
      image := [];
      if !env.heapLeft {
        return ErrParam, [], text;
      }
      var size := session.device.value.flashSize;
      var buf := new byte[size];
      var img := new IntelHex.IntelHexImage(buf, 0, 0xFF);
      st, text := HexReader.ParseHexFile(source, img);
      session.link.transport.Note(ParseFile, st);
      if st == Ok {
        assert img.Contents() == FileImage(size, text).image;
        FileImageOk(size, text);
        image := buf[..img.maxOffset];
      }
    }

    /** The chip erase, and the note of what it returned. */
    method EraseStep(ghost from: nat, ghost rules: Rules) returns (st: Status)
      requires Valid() && session.connected && from <= |Now().log| && Untouched(Now().log, from)
      requires InOrder(Now().log, from, rules) && Said(Now().log, from, |Now().log|, rules.gate)
      requires rules.commandFrame == CommandFrame() && rules.erase == EraseCode()
      modifies session.link.transport.Repr
      ensures Valid() && old(Now()).log <= Now().log && InOrder(Now().log, from, rules)
      ensures Said(Now().log, from, |Now().log|, rules.gate)
      ensures st == Ok ==> InFlashing(Now().log, from, |Now().log|)
      ensures st != Ok ==> !InFlashing(Now().log, from, |Now().log|)
      ensures old(session.Attached()) ==>
                st == Ok && session.Attached() && Chip().flash == Erased() && SameButFlash(old(Chip()), Chip())
    {
      st := session.ChipErase();
      ghost var l := Now().log;
      InOrderGrew(old(Now()).log, l, from, session.EraseScope(), rules);
      session.link.transport.Note(ChipErase, st);
      InOrderNoted(l, from, ChipErase, st, rules);
    }

    /** Writing the image, on a device just erased, and the note of what it returned. */
    method WriteStep(image: seq<byte>, ghost from: nat, ghost rules: Rules) returns (st: Status)
      requires Valid() && session.connected && from <= |Now().log| && |image| <= session.device.value.flashSize
      requires InOrder(Now().log, from, rules) && Said(Now().log, from, |Now().log|, rules.gate)
      requires InFlashing(Now().log, from, |Now().log|)
      requires rules.flashing == session.FlashScope(session.device.value.flashSize)
      modifies session.link`ackEnabled, session.link.transport.Repr
      ensures Valid() && old(Now()).log <= Now().log && InOrder(Now().log, from, rules)
      ensures !InFlashing(Now().log, from, |Now().log|)
      ensures Said(Now().log, from, |Now().log|, Returned(ChipErase, Ok))
      ensures Said(Now().log, from, |Now().log|, Returned(WriteFlash, st))
      ensures old(session.Attached()) && old(Chip()).flash == Erased() ==>
                st == Ok && session.Attached() && Chip().flash == Padded(image, 0, FLASH_SIZE)
                && SameButFlash(old(Chip()), Chip())
    {
      var d := session.device.value;
      SoundRow(session.table, d);
      st := session.WriteFlash(image);
      ghost var l := Now().log;
      InOrderGrew(old(Now()).log, l, from, rules.flashing, rules);
      session.link.transport.Note(WriteFlash, st);
      InOrderNoted(l, from, WriteFlash, st, rules);
      if old(session.Attached()) && old(Chip()).flash == Erased() {
        WritePagesErased(Erased(), image, d.flashPageSize, d.flashSize, true);
      }
    }

    /** Reading the flash back against the image. */
    method VerifyStep(image: seq<byte>) returns (st: Status, ghost back: seq<byte>)
      requires Valid() && session.connected && |image| <= session.device.value.flashSize
      modifies this`mismatch, session.link.transport.Repr
      ensures Valid() && Grew(old(Now()).log, Now().log, ReadOnly)
      ensures st in {Ok, ErrVerify} ==>
                HasRead(session.link.addressBytes, session.device.value.flashAddress, |back|, old(Now()), Now(), back)
      ensures st == Ok ==> back == image
      ensures st == ErrVerify ==> mismatch.Some? && FirstDifference(mismatch.value, image, back)
      ensures old(session.Attached()) ==>
                Live(Now()) && Chip() == old(Chip()) && st in {Ok, ErrVerify}
                && |back| <= |image| && back == Chip().flash[..|back|]
    {
      var found;
      st, found, back := session.VerifyFlash(image);
      if found.Some? {
        mismatch := found;
      }
    }

    /** Reading back, and leaving the device whatever came of it. */
    method VerifyAndRelease(image: seq<byte>, ghost from: nat, ghost rules: Rules)
      returns (st: Status, ghost w1: Wire)
      requires Valid() && session.connected && |image| <= session.device.value.flashSize
      requires InOrder(Now().log, from, rules) && !InFlashing(Now().log, from, |Now().log|)
      modifies this`mismatch, session`connected, session.link.transport.Repr
      ensures Valid() && old(Now()).log <= w1.log <= Now().log && InOrder(Now().log, from, rules)
      ensures st == Ok ==>
                HasRead(session.link.addressBytes, session.device.value.flashAddress, |image|, old(Now()), w1, image)
      ensures old(session.Attached()) ==>
                st == (if BeginsWith(old(Chip()).flash, image) then Ok else ErrVerify)
                && Live(Now()) && SameMemories(old(Chip()), Chip())
    {
      ghost var w0 := Now();
      ghost var back;
      st, back := VerifyStep(image);
      w1 := Now();
      InOrderGrew(w0.log, w1.log, from, ReadOnly, rules);
      if old(session.Attached()) {
        BeginsWithMeans(Chip().flash, image);
        AgreesOrDiffers(image, back, Chip().flash, st, mismatch);
      }
      session.Disconnect();
      InOrderGrew(w1.log, Now().log, from, ReadOnly, rules);
    }

    /** Erase, write, read back; the verify's own transcript runs from w0 to w1. */
    method FlashImage(image: seq<byte>, ghost from: nat, ghost rules: Rules)
      returns (st: Status, ghost w0: Wire, ghost w1: Wire)
      requires Valid() && session.connected && from <= |Now().log| && |image| <= session.device.value.flashSize
      requires InOrder(Now().log, from, rules) && Said(Now().log, from, |Now().log|, rules.gate)
      requires rules == FlashRules() && Untouched(Now().log, from)
      modifies this`mismatch, session`connected, session.link`ackEnabled, session.link.transport.Repr
      ensures Valid() && old(Now()).log <= Now().log && InOrder(Now().log, from, rules)
      ensures st == Ok ==>
                old(Now()).log <= w0.log <= w1.log <= Now().log
                && Said(w0.log, from, |w0.log|, Returned(ChipErase, Ok))
                && Said(w0.log, from, |w0.log|, Returned(WriteFlash, Ok))
                && HasRead(session.link.addressBytes, session.device.value.flashAddress, |image|, w0, w1, image)
      ensures old(session.Attached()) ==>
                st == Ok && Live(Now()) && Chip().flash == Padded(image, 0, FLASH_SIZE)
                && SameIdentity(old(Chip()), Chip())
    {
      w0, w1 := Now(), Now();
      st := EraseStep(from, rules);
      if st != Ok {
        return;
      }
      st := WriteStep(image, from, rules);
      if st != Ok {
        return;
      }
      w0 := Now();
      if old(session.Attached()) {
        BeginsWithMeans(Chip().flash, image);
      }
      st, w1 := VerifyAndRelease(image, from, rules);
    }

    /** The bytes were read back, between w0 and w1, after a chip erase and a write that succeeded. */
    ghost predicate ReadBack(image: seq<byte>, from: nat, w0: Wire, w1: Wire)
      requires session.device.Some?
      reads session, session.link, session.link.transport
    {
      w0.log <= w1.log <= Now().log
      && Said(w0.log, from, |w0.log|, Returned(ChipErase, Ok))
      && Said(w0.log, from, |w0.log|, Returned(WriteFlash, Ok))
      && HasRead(session.link.addressBytes, session.device.value.flashAddress, |image|, w0, w1, image)
    }

    /** Everything after connecting: the file, then its image; the device is released only at the end. */
    method FlashFile(env: Environment, source: HexReader.HexSource?, ghost from: nat, ghost rules: Rules)
      returns (st: Status, ghost w0: Wire, ghost w1: Wire, ghost text: seq<byte>)
      requires Valid() && session.connected && source !in session.link.transport.Repr
      requires from <= |Now().log| && rules == FlashRules() && InOrder(Now().log, from, rules)
      requires Untouched(Now().log, from)
      modifies this`mismatch, source, session`connected, session.link`ackEnabled, session.link.transport.Repr
      ensures Valid() && old(Now()).log <= Now().log && InOrder(Now().log, from, rules)
      ensures source != null ==> text <= old(source.left) && (!source.faulty ==> text == old(source.left))
      ensures st == Ok ==> source != null && FileStatus(session.device.value.flashSize, text) == Ok
      ensures st == Ok ==> ReadBack(Payload(session.device.value.flashSize, text), from, w0, w1)
      ensures old(session.Attached()) ==>
                var size := session.device.value.flashSize;
                var accepted := env.heapLeft && source != null && FileStatus(size, text) == Ok;
                && st == (if accepted then Ok else ErrParam) && Live(Now())
                && Chip().flash == (if accepted then Padded(Payload(size, text), 0, FLASH_SIZE) else old(Chip()).flash)
                && SameIdentity(old(Chip()), Chip())
    {
      ghost var l1 := Now().log;
      w0, w1 := Now(), Now();
      var image;
      st, image, text := LoadImage(env, source);
      InOrderNoted(l1, from, ParseFile, st, rules);
      if st != Ok {
        return;
      }
      st, w0, w1 := FlashImage(image, from, rules);
    }

    /**
     Flashes a HEX file. The chip-erase key is sent only after connecting found the device locked, the
     chip erase only after the whole file parsed, pages only between the erase and the end of writing,
     and only within the device's flash; UpdiOk means that every byte up to the image's end was read back
     equal to it.
     */
    method OpFlash(env: Environment, source: HexReader.HexSource?, ghost d: Device)
      returns (st: Status, ghost text: seq<byte>, ghost w0: Wire, ghost w1: Wire)
      requires Valid() && source !in session.link.transport.Repr
      modifies this, source
      modifies session, session.nvm`device, session.link`addressBytes, session.link`ackEnabled
      modifies session.link.transport.Repr
      ensures Valid() && old(Now()).log <= Now().log
      ensures source != null ==> text <= old(source.left) && (!source.faulty ==> text == old(source.left))
      ensures if session.device.Some? then InOrder(Now().log, |old(Now()).log|, FlashRules())
              else Connecting(Now().log, |old(Now()).log|)
      ensures st == Ok ==>
                session.device.Some? && source != null && FileStatus(session.device.value.flashSize, text) == Ok
      ensures st == Ok ==> ReadBack(Payload(session.device.value.flashSize, text), |old(Now()).log|, w0, w1)
      ensures old(Offers(d)) && env.serialReady ==>
                var accepted := env.heapLeft && source != null && FileStatus(d.flashSize, text) == Ok;
                && st == (if accepted then Ok else ErrParam) && Offers(d)
                && Chip().flash == (if accepted then Padded(Payload(d.flashSize, text), 0, FLASH_SIZE)
                                    else old(Chip()).flash)
    {
      ghost var from := |Now().log|;
      text := if source == null then [] else source.left;
      w0, w1 := Now(), Now();
      st := DoConnect(env, true, d);
      ghost var l1 := Now().log;
      if session.device.Some? {
        ConnectingInOrder(l1, from, FlashRules());
      }
      if st != Ok {
        return;
      }
      ghost var rules := FlashRules();
      st, w0, w1, text := FlashFile(env, source, from, rules);
      assert FlashRules() == rules;
      if old(Offers(d)) {
        StillPresents(old(Chip()), Chip(), session.table, d);
      }
    }

    // ---- operations that only read ----

    /** Disconnecting is read-only too. */
    method ReleaseReadOnly(ghost from: nat)
      requires Valid() && from <= |Now().log| && SentWithin(Now().log, from, ReadOnly)
      modifies session`connected, session.link.transport.Repr
      ensures Valid() && old(Now()).log <= Now().log && SentWithin(Now().log, from, ReadOnly)
      ensures Live(old(Now())) ==> Live(Now()) && SameMemories(old(Chip()), Chip())
    {
      session.Disconnect();
      SentWithinGrew(old(Now()).log, Now().log, from, ReadOnly);
    }

    method OpConnect(env: Environment, ghost d: Device) returns (st: Status)
      requires Valid()
      modifies this
      modifies session, session.nvm`device, session.link`addressBytes, session.link`ackEnabled
      modifies session.link.transport.Repr
      ensures Valid() && old(Now()).log <= Now().log && SentWithin(Now().log, |old(Now()).log|, ReadOnly)
      ensures old(Offers(d)) && env.serialReady ==>
                st == Ok && session.device == Some(d) && Live(Now()) && SameMemories(old(Chip()), Chip())
    {
      ghost var from := |Now().log|;
      st := DoConnect(env, false, d);
      if st == Ok {
        ReleaseReadOnly(from);
      }
    }

    /** A read of the device's flash that brought these bytes, somewhere in the transcript. */
    ghost predicate FlashWasRead(bytes: seq<byte>, w0: Wire, w1: Wire)
      requires session.device.Some?
      reads session, session.link, session.link.transport
    {
      w0.log <= w1.log <= Now().log
      && HasRead(session.link.addressBytes, session.device.value.flashAddress, |bytes|, w0, w1, bytes)
    }

    /** The part of a verify after connecting. */
    method VerifyFile(env: Environment, source: HexReader.HexSource?, ghost from: nat)
      returns (st: Status, ghost text: seq<byte>, ghost w0: Wire, ghost w1: Wire, ghost back: seq<byte>)
      requires Valid() && session.connected && source !in session.link.transport.Repr
      requires from <= |Now().log| && SentWithin(Now().log, from, ReadOnly)
      modifies this`mismatch, source, session`connected, session.link.transport.Repr
      ensures Valid() && old(Now()).log <= Now().log && SentWithin(Now().log, from, ReadOnly)
      ensures source != null ==> text <= old(source.left) && (!source.faulty ==> text == old(source.left))
      ensures st == Ok ==>
                source != null && FileStatus(session.device.value.flashSize, text) == Ok
                && back == Payload(session.device.value.flashSize, text) && FlashWasRead(back, w0, w1)
      ensures old(session.Attached()) && env.heapLeft && source != null
              && FileStatus(session.device.value.flashSize, text) == Ok ==>
                && Live(Now()) && SameMemories(old(Chip()), Chip())
                && Compared(Payload(session.device.value.flashSize, text), Chip().flash, st, mismatch)
    {
      w0, w1, back := Now(), Now(), [];
      var image;
      st, image, text := LoadImage(env, source);
      if st != Ok {
        return;
      }
      w0 := Now();
      st, back := VerifyStep(image);
      w1 := Now();
      SentWithinGrew(w0.log, w1.log, from, ReadOnly);
      if old(session.Attached()) {
        AgreesOrDiffers(image, back, Chip().flash, st, mismatch);
      }
      ReleaseReadOnly(from);
    }

    /** Compares flash with a HEX file; never erases, never writes. */
    method OpVerify(env: Environment, source: HexReader.HexSource?, ghost d: Device)
      returns (st: Status, ghost text: seq<byte>, ghost w0: Wire, ghost w1: Wire, ghost back: seq<byte>)
      requires Valid() && source !in session.link.transport.Repr
      modifies this, source
      modifies session, session.nvm`device, session.link`addressBytes, session.link`ackEnabled
      modifies session.link.transport.Repr
      ensures Valid() && old(Now()).log <= Now().log && SentWithin(Now().log, |old(Now()).log|, ReadOnly)
      ensures source != null ==> text <= old(source.left) && (!source.faulty ==> text == old(source.left))
      ensures st == Ok ==>
                session.device.Some? && source != null && FileStatus(session.device.value.flashSize, text) == Ok
                && back == Payload(session.device.value.flashSize, text) && FlashWasRead(back, w0, w1)
      ensures old(Offers(d)) && env.serialReady && env.heapLeft
              && source != null && FileStatus(d.flashSize, text) == Ok ==>
                && Live(Now()) && SameMemories(old(Chip()), Chip())
                && Compared(Payload(d.flashSize, text), Chip().flash, st, mismatch)
    {
      text := if source == null then [] else source.left;
      w0, w1, back := Now(), Now(), [];
      ghost var from := |Now().log|;
      st := DoConnect(env, false, d);
      if st != Ok {
        return;
      }
      st, text, w0, w1, back := VerifyFile(env, source, from);
    }

    /** The part of a dump after connecting. */
    method DumpConnected(env: Environment, canOpen: bool, ghost from: nat)
      returns (st: Status, sink: IntelHex.HexSink?, ghost w0: Wire, ghost w1: Wire, ghost back: seq<byte>)
      requires Valid() && session.connected
      requires from <= |Now().log| && SentWithin(Now().log, from, ReadOnly)
      modifies session`connected, session.link.transport.Repr
      ensures Valid() && old(Now()).log <= Now().log && SentWithin(Now().log, from, ReadOnly)
      ensures st == Ok ==>
                sink != null && |back| == session.device.value.flashSize && FlashWasRead(back, w0, w1)
                && sink.text == HexFile.FileText(HexFile.WrittenFile(back, 0, 32))
      ensures old(session.Attached()) && env.heapLeft && canOpen ==>
                && Live(Now()) && SameMemories(old(Chip()), Chip()) && session.device.value.flashSize <= FLASH_SIZE
                && back == Chip().flash[..session.device.value.flashSize] && sink != null && (st == Ok <==> sink.ok)
    {
      w0, w1, back, sink := Now(), Now(), [], null;
      if !env.heapLeft {
        return ErrParam, null, w0, w1, back;
      }
      var size := session.device.value.flashSize;
      var buf := new byte[size];
      st := session.ReadFlash(buf, size);
      w1 := Now();
      SentWithinGrew(w0.log, w1.log, from, ReadOnly);
      if st != Ok {
        return;
      }
      back := buf[..];
      assert buf[..size] == back;
      if !canOpen {
        return ErrParam, null, w0, w1, back;
      }
      sink := new IntelHex.HexSink();
      var hs := IntelHex.Write(buf[..], 0, 32, sink);
      ReleaseReadOnly(from);
      st := if hs == HexFormat.HexOk && sink.ok then Ok else ErrParam;
    }

    /** Dumps the whole flash as HEX; `canOpen` tells whether the card lets the file be created. */
    method OpDump(env: Environment, canOpen: bool, ghost d: Device)
      returns (st: Status, sink: IntelHex.HexSink?, ghost w0: Wire, ghost w1: Wire, ghost back: seq<byte>)
      requires Valid()
      modifies this
      modifies session, session.nvm`device, session.link`addressBytes, session.link`ackEnabled
      modifies session.link.transport.Repr
      ensures Valid() && old(Now()).log <= Now().log && SentWithin(Now().log, |old(Now()).log|, ReadOnly)
      ensures st == Ok ==>
                session.device.Some? && sink != null && |back| == session.device.value.flashSize
                && FlashWasRead(back, w0, w1) && sink.text == HexFile.FileText(HexFile.WrittenFile(back, 0, 32))
      ensures old(Offers(d)) && env.serialReady && env.heapLeft && canOpen ==>
                && Live(Now()) && SameMemories(old(Chip()), Chip()) && d.flashSize <= FLASH_SIZE
                && back == Chip().flash[..d.flashSize] && sink != null && (st == Ok <==> sink.ok)
    {
      ghost var from := |Now().log|;
      w0, w1, back, sink := Now(), Now(), [], null;
      st := DoConnect(env, false, d);
      if st != Ok {
        return;
      }
      st, sink, w0, w1, back := DumpConnected(env, canOpen, from);
    }

    /** Reads the fuses that fit the application's fuse buffer. */
    method OpReadFuses(env: Environment, ghost d: Device) returns (st: Status, ghost w0: Wire, ghost w1: Wire)
      requires Valid()
      modifies this
      modifies session, session.nvm`device, session.link`addressBytes, session.link`ackEnabled
      modifies session.link.transport.Repr
      ensures Valid() && old(Now()).log <= Now().log && SentWithin(Now().log, |old(Now()).log|, ReadOnly)
      ensures st == Ok ==>
                session.device.Some? && |fuses| == Min(session.device.value.fusesSize, FUSES_MAX)
                && w0.log <= w1.log <= Now().log
                && HasReadFuses(session.link.addressBytes, session.device.value.fusesAddress, w0, w1, fuses)
      ensures old(Offers(d)) && env.serialReady ==>
                st == Ok && Live(Now()) && SameMemories(old(Chip()), Chip())
                && |fuses| == Min(d.fusesSize, FUSES_MAX)
                && FusesRead(Chip(), d, fuses)
    {
      ghost var from := |Now().log|;
      w0, w1 := Now(), Now();
      st := DoConnect(env, false, d);
      if st != Ok {
        return;
      }
      var count := session.device.value.fusesSize;
      if count >= FUSES_MAX {
        count := FUSES_MAX;
      }
      w0 := Now();
      st, fuses := session.ReadFuses(count);
      w1 := Now();
      SentWithinGrew(w0.log, w1.log, from, ReadOnly);
      ReleaseReadOnly(from);
    }

    // ---- erasing ----

    /** The order that a bare chip erase keeps: its command only after a successful connect, then only reads. */
    ghost function EraseRules(): Rules
      requires session.device.Some?
      reads session, session.link
    {
      Rules(Returned(Connect, Ok), CommandFrame(), EraseCode(), ReadOnly)
    }

    method OpChipErase(env: Environment, ghost d: Device) returns (st: Status)
      requires Valid()
      modifies this
      modifies session, session.nvm`device, session.link`addressBytes, session.link`ackEnabled
      modifies session.link.transport.Repr
      ensures Valid() && old(Now()).log <= Now().log
      ensures if session.device.Some? then InOrder(Now().log, |old(Now()).log|, EraseRules())
              else Connecting(Now().log, |old(Now()).log|)
      ensures old(Offers(d)) && env.serialReady ==>
                st == Ok && Offers(d) && Chip().flash == Erased() && SameIdentity(old(Chip()), Chip())
    {
      ghost var from := |Now().log|;
      st := DoConnect(env, true, d);
      ghost var l1 := Now().log;
      if session.device.Some? {
        ConnectingInOrder(l1, from, EraseRules());
      }
      if st != Ok {
        return;
      }
      ghost var rules := EraseRules();
      st := EraseStep(from, rules);
      ghost var l2 := Now().log;
      session.Disconnect();
      InOrderGrew(l2, Now().log, from, ReadOnly, rules);
      assert EraseRules() == rules;
      if old(Offers(d)) {
        StillPresents(old(Chip()), Chip(), session.table, d);
      }
    }

    // ---- flash, then dump ----

    /**
     On the emulator, flashing a HEX file and dumping the flash gives a text that reads back as the very
     image of the file.
     */
    method FlashThenDump(source: HexReader.HexSource, d: Device) returns (st: Status, sink: IntelHex.HexSink?)
      requires Valid() && Offers(d) && source !in session.link.transport.Repr && !source.faulty
      requires FileStatus(d.flashSize, source.left) == Ok
      modifies this, source
      modifies session, session.nvm`device, session.link`addressBytes, session.link`ackEnabled
      modifies session.link.transport.Repr
      ensures Valid() && sink != null && (st == Ok <==> sink.ok)
      ensures st == Ok ==>
                var again := FileImage(d.flashSize, sink.text);
                HexReader.FileStatus(again) == Ok
                && again.image.data == FileImage(d.flashSize, old(source.left)).image.data
    {
      ghost var text := source.left;
      var env := Environment(true, true);
      ghost var t, w0, w1, back;
      st, t, w0, w1 := OpFlash(env, source, d);
      st, sink, w0, w1, back := OpDump(env, true, d);
      PaddedIsImage(d.flashSize, text);
      HexReader.DumpReadsBack(back, 0xFF);
    }
  }

  /**
   In that order no command that writes a fuse is ever stored: neither the fuse command of P:0 nor, of P:3,
   those of the EEPROM that fuses are.
   */
  lemma FlashingStoresNoFuse(w: Worker, log: seq<Event>, from: nat, i: nat)
    requires w.Valid() && w.session.device.Some? && InOrder(log, from, w.FlashRules())
    requires from <= i < |log| && log[i].Sent? && |log[i].frame| == 1
    ensures var v := w.session.device.value.variant;
            && (v == P0 ==> log[i].frame != [Desc(P0).cmdWriteFuse])
            && (v == P3 ==> log[i].frame != [Desc(P3).cmdEepromBufferClear]
                            && log[i].frame != [Desc(P3).cmdEepromEraseWrite])
  {
    SoundRow(w.session.table, w.session.device.value);
    StoresStayInFlash(log, from, i, w.FlashRules());
  }

  /** For every device of the table there is an emulated target that offers it. */
  method PowerUp(d: Device, family: seq<byte>) returns (w: Worker)
    requires d in Table()
    ensures fresh(w) && w.Valid() && w.Offers(d) && w.Chip().flash == Erased()
  {
    var emu := new Emulator(EmulatorConfig(d, family), SigOf(d.deviceId));
    var transport := new Transport.Emulated(emu);
    var session := new UpdiSession(transport);
    w := new Worker(session);
    ConfiguredPresents(emu.Abs().chip, session.table, d, family);
  }
}
