/** The CameraSerial232 class of camera_rs232.py: a framebuffer camera driven by short
    commands that start with 0x56 and answered by acknowledgements that start with 0x76.

    The class keeps three fields between calls: the raw length bytes of the framebuffer
    (`_hex_fbuf_len`), that length as a number (`_int_fbuf_len`) and the image read
    (`_img_d`). Each method is proved against a function of the camera state before
    the call that gives its outcome and the camera state after it. */
module CameraRs232 {
  import opened Bytes
  import opened Outcomes
  import opened Transport

  /** The whole observable state of the camera: the port and the three fields. */
  datatype CamState = CamState(port: PortState, hexFbufLen: seq<Byte>, intFbufLen: nat, imgD: seq<Byte>)

  /** What GET_VERSION returns: the first (up to) five reply bytes as numbers, and the
      rest of the reply, the version text, as one string. */
  datatype VersionReply = VersionReply(codes: seq<int>, version: seq<Byte>)

  // ---------------------------------------------------------------------------
  // Commands and acknowledgements

  const GetVersionCmd: seq<Byte> := [0x56, 0x00, 0x11, 0x00]
  const GetVersionReplySize: nat := 16

  /** FBUF_CTRL: 0x00 stops the framebuffer (freezes the current frame), 0x02 resumes it. */
  function FbufCtrlCmd(reset: bool): seq<Byte>
  {
    [0x56, 0x00, 0x36, 0x01, if reset then 0x02 else 0x00]
  }

  const GetFbufLenCmd: seq<Byte> := [0x56, 0x00, 0x34, 0x01, 0x00]
  const GetFbufLenReplySize: nat := 9

  /** READ_FBUF from address 0 for the length bytes `hexLen`, with delay 0x0000. */
  function ReadFbufCmd(hexLen: seq<Byte>): seq<Byte>
  {
    [0x56, 0x00, 0x32, 0x0C, 0x00, 0x0A, 0x00, 0x00, 0x00, 0x00] + hexLen + [0x00, 0x00]
  }

  /** The resolution command: 0x00 selects 640x480, 0x11 selects 320x240. */
  function ResizeCmd(large: bool): seq<Byte>
  {
    [0x56, 0x00, 0x31, 0x05, 0x04, 0x01, 0x00, 0x19, if large then 0x00 else 0x11]
  }

  const ResizeAck: seq<Byte> := [0x76, 0x00, 0x31, 0x00, 0x00]

  /** set_baudrate's table: the two-byte divisor code of each supported rate. */
  function BaudCode(baud: nat): Option<seq<Byte>>
  {
    if baud == 9600 then Some([0xAE, 0xC8])
    else if baud == 19200 then Some([0x56, 0xE4])
    else if baud == 38400 then Some([0x2A, 0xF2])
    else if baud == 57600 then Some([0x1C, 0x4C])
    else if baud == 115200 then Some([0x0D, 0xA6])
    else None
  }

  function SetBaudCmd(code: seq<Byte>): seq<Byte>
  {
    [0x56, 0x00, 0x24, 0x03, 0x01] + code
  }

  const SetBaudAck: seq<Byte> := [0x76, 0x00, 0x24, 0x00, 0x00]

  /** Every acknowledgement and status reply of the protocol is five bytes long. */
  const AckSize: nat := 5

  // ---------------------------------------------------------------------------
  // Specifications of the methods

  /** GET_VERSION: write the command, read 16 bytes and split them after the fifth. */
  function GetVersionSpec(c: CamState): (Outcome<VersionReply>, CamState)
  {
    var (rd, p1) := Exchange(c.port, GetVersionCmd, GetVersionReplySize);
    match rd
    case Raise(e) => (Raise(e), c.(port := p1))
    case Return(d) => (Return(VersionReply(Take(d, 5), Drop(d, 5))), c.(port := p1))
  }

  /** _FBUF_CTRL: false exactly when reply byte 3 is 3; a reply of fewer than four
      bytes makes `ord(d[3])` raise IndexError. */
  function FbufCtrlSpec(c: CamState, reset: bool): (Outcome<bool>, CamState)
  {
    var (rd, p1) := Exchange(c.port, FbufCtrlCmd(reset), AckSize);
    match rd
    case Raise(e) => (Raise(e), c.(port := p1))
    case Return(d) =>
      if |d| < 4 then (Raise(IndexError), c.(port := p1))
      else (Return(d[3] != 3), c.(port := p1))
  }

  /** _GET_FBUF_LEN: read 9 bytes; on success keep the bytes after the fifth as the
      length, raw and as a big-endian number. No bytes there make `int('', 16)` raise
      ValueError before either field is set. */
  function GetFbufLenSpec(c: CamState): (Outcome<bool>, CamState)
  {
    var (rd, p1) := Exchange(c.port, GetFbufLenCmd, GetFbufLenReplySize);
    match rd
    case Raise(e) => (Raise(e), c.(port := p1))
    case Return(d) =>
      if |d| < 4 then (Raise(IndexError), c.(port := p1))
      else if d[3] == 3 then (Return(false), c.(port := p1))
      else if |d| <= 5 then (Raise(ValueError), c.(port := p1))
      else (Return(true), c.(port := p1, hexFbufLen := d[5..], intFbufLen := BigEndian(d[5..])))
  }

  /** _READ_FBUF: on a zero status byte read the image, then a trailing acknowledgement
      that is not checked, then keep the image and resume the framebuffer. */
  function ReadFbufSpec(c: CamState): (Outcome<bool>, CamState)
  {
    var (rd, p1) := Exchange(c.port, ReadFbufCmd(c.hexFbufLen), AckSize);
    match rd
    case Raise(e) => (Raise(e), c.(port := p1))
    case Return(d) =>
      if |d| < 4 then (Raise(IndexError), c.(port := p1))
      else if d[3] != 0 then (Return(false), c.(port := p1))
      else ReadImageSpec(c.(port := p1))
  }

  /** The rest of _READ_FBUF after a zero status byte: read `_int_fbuf_len` bytes, read
      the trailing acknowledgement, keep the image and resume the framebuffer, whose
      answer is ignored unless it raises. */
  function ReadImageSpec(c: CamState): (Outcome<bool>, CamState)
  {
    var p2 := AfterRead(c.port, c.intFbufLen);
    match ReadResult(c.port, c.intFbufLen)
    case Raise(e) => (Raise(e), c.(port := p2))
    case Return(img) =>
      var p3 := AfterRead(p2, AckSize);
      match ReadResult(p2, AckSize)
      case Raise(e) => (Raise(e), c.(port := p3))
      case Return(_) =>
        var (rr, c4) := FbufCtrlSpec(c.(port := p3, imgD := img), true);
        (if rr.Raise? then Raise(rr.exc) else Return(true), c4)
  }

  /** The capture part of take_picture: stop the framebuffer, clear the length fields,
      get the length, clear the image, read the framebuffer; the first false or raise
      ends it. */
  function CaptureSpec(c: CamState): (Outcome<bool>, CamState)
  {
    var (r1, c1) := FbufCtrlSpec(c, false);
    if r1.Raise? then (Raise(r1.exc), c1)
    else if !r1.value then (Return(false), c1)
    else
      var (r2, c2) := GetFbufLenSpec(c1.(hexFbufLen := [], intFbufLen := 0));
      if r2.Raise? then (Raise(r2.exc), c2)
      else if !r2.value then (Return(false), c2)
      else
        var (r3, c3) := ReadFbufSpec(c2.(imgD := []));
        (r3, c3)
  }

  /** _save_img: when the file can be written the image goes into it and the field is
      cleared; otherwise the bare `except` swallows the error and nothing changes.
      `writable` stands for whether opening and writing the file succeed. */
  function SaveImgSpec(c: CamState, writable: bool): (Option<seq<Byte>>, CamState)
  {
    if writable then (Some(c.imgD), c.(imgD := [])) else (None, c)
  }

  /** take_picture: the capture, then, only when it answered true, the save. The middle
      component is what was written to the file, if anything. */
  function TakePictureSpec(c: CamState, writable: bool): (Outcome<bool>, Option<seq<Byte>>, CamState)
  {
    var (r, t) := CaptureSpec(c);
    if r == Return(true) then
      var (saved, t2) := SaveImgSpec(t, writable);
      (r, saved, t2)
    else (r, None, t)
  }

  /** resize: true exactly when the reply is the resize acknowledgement. */
  function ResizeSpec(c: CamState, large: bool): (Outcome<bool>, CamState)
  {
    var (rd, p1) := Exchange(c.port, ResizeCmd(large), AckSize);
    match rd
    case Raise(e) => (Raise(e), c.(port := p1))
    case Return(d) => (Return(d == ResizeAck), c.(port := p1))
  }

  /** set_baudrate: an unsupported rate raises KeyError before anything is written;
      the port switches to `baud` only after the exact acknowledgement. */
  function SetBaudrateSpec(c: CamState, baud: nat): (Outcome<bool>, CamState)
  {
    match BaudCode(baud)
    case None => (Raise(KeyError), c)
    case Some(code) =>
      var (rd, p1) := Exchange(c.port, SetBaudCmd(code), AckSize);
      match rd
      case Raise(e) => (Raise(e), c.(port := p1))
      case Return(d) =>
        if d == SetBaudAck then (Return(true), c.(port := AfterSetBaud(p1, baud)))
        else (Return(false), c.(port := p1))
  }

  // ---------------------------------------------------------------------------
  // What the specifications promise

  /** The replies the image read of _READ_FBUF uses up: one, except for a zero length,
      where `read(size=0)` answers '' and takes none. */
  function ImageReplies(len: nat, img: seq<Byte>): seq<Incoming>
  {
    if len > 0 then [Data(img)] else []
  }

  /** The reply the next read on an open port would hand back, when one is scripted. */
  predicate NextReply(p: PortState, d: seq<Byte>)
  {
    p.isOpen && p.input != [] && p.input[0] == Data(d)
  }

  /** GET_VERSION writes its command and reads 16 bytes; the numbers are the first five
      reply bytes (fewer if the reply is shorter) and the version text is the rest, so
      together they give back the whole reply. */
  lemma GetVersionSplitsReply(c: CamState, d: seq<Byte>)
    requires NextReply(c.port, d)
    ensures var (r, t) := GetVersionSpec(c);
      var reply := Take(d, GetVersionReplySize);
      r.Return? &&
      |r.value.codes| == Min(5, |reply|) &&
      (forall i :: 0 <= i < |r.value.codes| ==> r.value.codes[i] == reply[i]) &&
      |r.value.codes| + |r.value.version| == |reply| && |reply| <= 16 &&
      (forall i :: 0 <= i < |r.value.version| ==> r.value.version[i] == reply[5 + i]) &&
      t.port.outLog == c.port.outLog + [GetVersionCmd] &&
      t == c.(port := t.port)
  {
  }

  /** _FBUF_CTRL writes one command and reads five bytes; it answers false exactly when
      byte 3 of the reply is 3, and raises IndexError on a reply of fewer than four
      bytes. The fields and the baud rate are left alone. */
  lemma FbufCtrlReply(c: CamState, reset: bool)
    ensures var (r, t) := FbufCtrlSpec(c, reset);
      t == c.(port := t.port) && t.port.baud == c.port.baud &&
      (c.port.isOpen ==>
        t.port.outLog == c.port.outLog + [FbufCtrlCmd(reset)] &&
        t.port.trace == c.port.trace + [Event.Write(FbufCtrlCmd(reset)), Event.Read(AckSize, c.port.baud)]) &&
      (!c.port.isOpen ==> r == Raise(ValueError) && t == c) &&
      (forall d :: NextReply(c.port, d) ==>
        (|d| >= 4 ==> r == Return(d[3] != 3)) &&
        (|d| < 4 ==> r == Raise(IndexError)))
  {
  }

  /** _GET_FBUF_LEN on a 9-byte read: status 3 answers false and keeps the length
      fields; otherwise the bytes after the fifth become the raw length and their
      big-endian value the numeric length, which the raw bytes spell back exactly; with
      no bytes after the fifth it raises ValueError and keeps the fields. */
  lemma GetFbufLenReply(c: CamState, d: seq<Byte>)
    requires NextReply(c.port, d) && |d| >= 4
    ensures var (r, t) := GetFbufLenSpec(c);
      var reply := Take(d, GetFbufLenReplySize);
      t.imgD == c.imgD && t.port.baud == c.port.baud &&
      t.port.outLog == c.port.outLog + [GetFbufLenCmd] &&
      (d[3] == 3 ==> r == Return(false) && t == c.(port := t.port)) &&
      (d[3] != 3 && |d| <= 5 ==> r == Raise(ValueError) && t == c.(port := t.port)) &&
      (d[3] != 3 && |d| > 5 ==>
        r == Return(true) &&
        t.hexFbufLen == reply[5..] && 1 <= |t.hexFbufLen| <= 4 &&
        t.intFbufLen == BigEndian(t.hexFbufLen) &&
        t.intFbufLen < Pow256(|t.hexFbufLen|) &&
        ToBigEndian(t.intFbufLen, |t.hexFbufLen|) == t.hexFbufLen)
  {
    var reply := Take(d, GetFbufLenReplySize);
    if d[3] != 3 && |d| > 5 {
      ToBigEndianOfBigEndian(reply[5..]);
    }
  }

  /** _READ_FBUF with a nonzero status byte answers false after its one read: nothing
      more is read or written and the image is untouched. */
  lemma ReadFbufRejected(c: CamState, ack: seq<Byte>)
    requires NextReply(c.port, ack) && |ack| >= 4 && ack[3] != 0
    ensures var (r, t) := ReadFbufSpec(c);
      r == Return(false) && t == c.(port := t.port) &&
      t.port.outLog == c.port.outLog + [ReadFbufCmd(c.hexFbufLen)] &&
      t.port.trace == c.port.trace + [Event.Write(ReadFbufCmd(c.hexFbufLen)), Event.Read(AckSize, c.port.baud)]
  {
  }

  /** _READ_FBUF with a zero status byte reads exactly `_int_fbuf_len` bytes into the
      image (a zero length reads nothing and keeps no reply), then five more, then
      resumes the framebuffer, whose frame is the last one written; it answers true
      whatever the trailing acknowledgement says. */
  lemma ReadFbufAccepted(c: CamState, ack: seq<Byte>, img: seq<Byte>, trailing: seq<Byte>, resumed: seq<Byte>, rest: seq<Incoming>)
    requires c.port.isOpen
    requires c.port.input == [Data(ack)] + ImageReplies(c.intFbufLen, img) + [Data(trailing), Data(resumed)] + rest
    requires |ack| >= 4 && ack[3] == 0 && |resumed| >= 4
    ensures var (r, t) := ReadFbufSpec(c);
      var b := c.port.baud;
      r == Return(true) &&
      t.imgD == (if c.intFbufLen > 0 then Take(img, c.intFbufLen) else []) && |t.imgD| <= c.intFbufLen &&
      t.hexFbufLen == c.hexFbufLen && t.intFbufLen == c.intFbufLen &&
      t.port.input == rest &&
      t.port.outLog == c.port.outLog + [ReadFbufCmd(c.hexFbufLen), FbufCtrlCmd(true)] &&
      t.port.trace == c.port.trace +
        [Event.Write(ReadFbufCmd(c.hexFbufLen)), Event.Read(AckSize, b), Event.Read(c.intFbufLen, b),
         Event.Read(AckSize, b), Event.Write(FbufCtrlCmd(true)), Event.Read(AckSize, b)]
  {
    var cmd := ReadFbufCmd(c.hexFbufLen);
    ExchangeEffect(c.port, cmd, AckSize);
    var p1 := Exchange(c.port, cmd, AckSize).1;
    assert c.port.input[1..] == ImageReplies(c.intFbufLen, img) + [Data(trailing), Data(resumed)] + rest;
    assert ReadFbufSpec(c) == ReadImageSpec(c.(port := p1));
    ReadImageAccepted(c.(port := p1), img, trailing, resumed, rest);
  }

  /** After a zero status byte: the image is the next reply cut to `_int_fbuf_len`
      bytes (empty, with no reply used up, when that length is zero), one more reply is
      read and ignored, and the resume frame is written and answered. */
  lemma ReadImageAccepted(c: CamState, img: seq<Byte>, trailing: seq<Byte>, resumed: seq<Byte>, rest: seq<Incoming>)
    requires c.port.isOpen
    requires c.port.input == ImageReplies(c.intFbufLen, img) + [Data(trailing), Data(resumed)] + rest
    requires |resumed| >= 4
    ensures var (r, t) := ReadImageSpec(c);
      var b := c.port.baud;
      r == Return(true) &&
      t.imgD == (if c.intFbufLen > 0 then Take(img, c.intFbufLen) else []) &&
      t.hexFbufLen == c.hexFbufLen && t.intFbufLen == c.intFbufLen &&
      t.port.input == rest &&
      t.port.outLog == c.port.outLog + [FbufCtrlCmd(true)] &&
      t.port.trace == c.port.trace +
        [Event.Read(c.intFbufLen, b), Event.Read(AckSize, b), Event.Write(FbufCtrlCmd(true)), Event.Read(AckSize, b)]
  {
    var b := c.port.baud;
    var tail := [Data(resumed)] + rest;
    assert c.port.input == ImageReplies(c.intFbufLen, img) + [Data(trailing)] + tail;
    ReadImageReads(c, img, trailing, tail);
    var p3 := c.port.(input := tail, trace := c.port.trace + [Event.Read(c.intFbufLen, b), Event.Read(AckSize, b)]);
    var c3 := c.(port := p3, imgD := Take(img, c.intFbufLen));
    ResumeAnswered(c3, resumed, rest);
    var r1, r2 := Event.Read(c.intFbufLen, b), Event.Read(AckSize, b);
    var w, r3 := Event.Write(FbufCtrlCmd(true)), Event.Read(AckSize, b);
    var log := c.port.trace;
    assert log + [r1, r2] + [w, r3] == log + [r1, r2, w, r3];
    var c4 := c3.(port := p3.(input := rest, outLog := c.port.outLog + [FbufCtrlCmd(true)], trace := log + [r1, r2, w, r3]));
    assert ReadImageSpec(c) == (Return(true), c4);
  }

  /** Resuming the framebuffer on an open port whose next reply has a status byte:
      one frame written, one reply used up, and an answer that does not raise. */
  lemma ResumeAnswered(c: CamState, resumed: seq<Byte>, rest: seq<Incoming>)
    requires c.port.isOpen && c.port.input == [Data(resumed)] + rest && |resumed| >= 4
    ensures FbufCtrlSpec(c, true) ==
      (Return(resumed[3] != 3),
       c.(port := c.port.(input := rest, outLog := c.port.outLog + [FbufCtrlCmd(true)],
                          trace := c.port.trace + [Event.Write(FbufCtrlCmd(true)), Event.Read(AckSize, c.port.baud)])))
  {
    assert ([Data(resumed)] + rest)[1..] == rest;
    var w := Event.Write(FbufCtrlCmd(true));
    var rd := Event.Read(AckSize, c.port.baud);
    assert c.port.trace + [w] + [rd] == c.port.trace + [w, rd];
  }

  /** The two plain reads after a zero status byte: the image read uses up one reply,
      or none when the length is zero, the trailing read one more; what is left is the
      resume step on the image read. */
  lemma ReadImageReads(c: CamState, img: seq<Byte>, trailing: seq<Byte>, tail: seq<Incoming>)
    requires c.port.isOpen
    requires c.port.input == ImageReplies(c.intFbufLen, img) + [Data(trailing)] + tail
    ensures var b := c.port.baud;
      var p3 := c.port.(input := tail, trace := c.port.trace + [Event.Read(c.intFbufLen, b), Event.Read(AckSize, b)]);
      var (rr, c4) := FbufCtrlSpec(c.(port := p3, imgD := Take(img, c.intFbufLen)), true);
      ReadImageSpec(c) == (if rr.Raise? then Raise(rr.exc) else Return(true), c4)
  {
    var b := c.port.baud;
    var r1 := Event.Read(c.intFbufLen, b);
    var r2 := Event.Read(AckSize, b);
    var p2 := AfterRead(c.port, c.intFbufLen);
    if c.intFbufLen > 0 {
      assert c.port.input[1..] == [Data(trailing)] + tail;
    } else {
      assert c.port.input == [Data(trailing)] + tail;
      assert Take(img, 0) == [];
    }
    assert p2 == c.port.(input := [Data(trailing)] + tail, trace := c.port.trace + [r1]);
    assert ([Data(trailing)] + tail)[1..] == tail;
    assert c.port.trace + [r1] + [r2] == c.port.trace + [r1, r2];
    assert AfterRead(p2, AckSize) == c.port.(input := tail, trace := c.port.trace + [r1, r2]);
  }

  /** take_picture stops at a stop command that does not answer true: that is its
      answer, and no command but the stop frame has been written. */
  lemma CaptureStopFails(c: CamState)
    requires c.port.isOpen
    requires FbufCtrlSpec(c, false).0 != Return(true)
    ensures var (r, t) := CaptureSpec(c);
      r == FbufCtrlSpec(c, false).0 && t.port.outLog == c.port.outLog + [FbufCtrlCmd(false)]
  {
    FbufCtrlReply(c, false);
  }

  /** After a successful stop, take_picture stops at a length query that does not
      answer true: that is its answer, and only the stop and length frames are written. */
  lemma CaptureLengthFails(c: CamState)
    requires c.port.isOpen
    requires FbufCtrlSpec(c, false).0 == Return(true)
    requires GetFbufLenSpec(FbufCtrlSpec(c, false).1.(hexFbufLen := [], intFbufLen := 0)).0 != Return(true)
    ensures var (r, t) := CaptureSpec(c);
      r == GetFbufLenSpec(FbufCtrlSpec(c, false).1.(hexFbufLen := [], intFbufLen := 0)).0 &&
      t.port.outLog == c.port.outLog + [FbufCtrlCmd(false), GetFbufLenCmd]
  {
    StopAndLengthLog(c);
    CaptureEndsAtLength(c);
  }

  /** A length query that does not answer true ends the capture with its own outcome
      and state. */
  lemma CaptureEndsAtLength(c: CamState)
    requires FbufCtrlSpec(c, false).0 == Return(true)
    requires GetFbufLenSpec(FbufCtrlSpec(c, false).1.(hexFbufLen := [], intFbufLen := 0)).0 != Return(true)
    ensures CaptureSpec(c) == GetFbufLenSpec(FbufCtrlSpec(c, false).1.(hexFbufLen := [], intFbufLen := 0))
  {
  }

  /** When the stop and the length query both answer true, take_picture is the
      framebuffer read that follows them, on the state they leave with the image cleared. */
  lemma CaptureAfterLength(c: CamState)
    requires FbufCtrlSpec(c, false).0 == Return(true)
    requires GetFbufLenSpec(FbufCtrlSpec(c, false).1.(hexFbufLen := [], intFbufLen := 0)).0 == Return(true)
    ensures CaptureSpec(c) ==
      ReadFbufSpec(GetFbufLenSpec(FbufCtrlSpec(c, false).1.(hexFbufLen := [], intFbufLen := 0)).1.(imgD := []))
  {
  }

  /** The capture answers true only when the stop and the length query both did. */
  lemma CaptureStepsSucceed(c: CamState)
    requires CaptureSpec(c).0 == Return(true)
    ensures FbufCtrlSpec(c, false).0 == Return(true)
    ensures GetFbufLenSpec(FbufCtrlSpec(c, false).1.(hexFbufLen := [], intFbufLen := 0)).0 == Return(true)
  {
  }

  /** After a stop and a length query that both answer true, the frames written are the
      stop frame and the length query, and the stored length bytes are the query's. */
  lemma StopAndLengthLog(c: CamState)
    requires c.port.isOpen
    requires FbufCtrlSpec(c, false).0 == Return(true)
    ensures var c2 := GetFbufLenSpec(FbufCtrlSpec(c, false).1.(hexFbufLen := [], intFbufLen := 0)).1;
      c2.port.isOpen && c2.port.outLog == c.port.outLog + [FbufCtrlCmd(false), GetFbufLenCmd]
  {
    FbufCtrlReply(c, false);
    var c1x := FbufCtrlSpec(c, false).1.(hexFbufLen := [], intFbufLen := 0);
    ExchangeEffect(c1x.port, GetFbufLenCmd, GetFbufLenReplySize);
    var c2 := GetFbufLenSpec(c1x).1;
    assert c2.port == Exchange(c1x.port, GetFbufLenCmd, GetFbufLenReplySize).1;
    assert c.port.outLog + [FbufCtrlCmd(false)] + [GetFbufLenCmd] == c.port.outLog + [FbufCtrlCmd(false), GetFbufLenCmd];
  }

  /** take_picture answers true only when the stop and the length query both answered
      true, and it has then written the stop frame, the length query, the read frame
      for the length the query stored, and the resume frame, in that order. */
  lemma CaptureTrueAfterAll(c: CamState)
    requires c.port.isOpen
    requires CaptureSpec(c).0 == Return(true)
    ensures var (r1, c1) := FbufCtrlSpec(c, false);
      var (r2, c2) := GetFbufLenSpec(c1.(hexFbufLen := [], intFbufLen := 0));
      r1 == Return(true) && r2 == Return(true) &&
      CaptureSpec(c).1.hexFbufLen == c2.hexFbufLen &&
      CaptureSpec(c).1.port.outLog ==
        c.port.outLog + [FbufCtrlCmd(false), GetFbufLenCmd, ReadFbufCmd(c2.hexFbufLen), FbufCtrlCmd(true)]
  {
    CaptureStepsSucceed(c);
    StopAndLengthLog(c);
    CaptureAfterLength(c);
    var c2 := GetFbufLenSpec(FbufCtrlSpec(c, false).1.(hexFbufLen := [], intFbufLen := 0)).1;
    var c2x := c2.(imgD := []);
    ReadFbufOutLog(c2x);
    var log := c.port.outLog;
    assert log + [FbufCtrlCmd(false), GetFbufLenCmd] + [ReadFbufCmd(c2.hexFbufLen), FbufCtrlCmd(true)]
      == log + [FbufCtrlCmd(false), GetFbufLenCmd, ReadFbufCmd(c2.hexFbufLen), FbufCtrlCmd(true)];
  }

  /** What _READ_FBUF writes: its read frame and, after a zero status, the resume frame;
      it answers true only after writing both. Nothing else it does changes the length
      fields. */
  lemma ReadFbufOutLog(c: CamState)
    requires c.port.isOpen
    ensures var (r, t) := ReadFbufSpec(c);
      t.hexFbufLen == c.hexFbufLen && t.intFbufLen == c.intFbufLen &&
      (r == Return(true) ==> t.port.outLog == c.port.outLog + [ReadFbufCmd(c.hexFbufLen), FbufCtrlCmd(true)])
  {
  }

  /** A whole capture: with the camera answering every step as the protocol expects and
      an image reply at least as long as the length reported (no image reply at all for
      a zero length), the capture answers true holding the first
      `BigEndian(lenReply[5..])` image bytes. */
  lemma CaptureSucceeds(c: CamState, stopAck: seq<Byte>, lenReply: seq<Byte>, readAck: seq<Byte>,
                        img: seq<Byte>, trailing: seq<Byte>, resumeAck: seq<Byte>)
    requires c.port.isOpen && |lenReply| == 9
    requires c.port.input == [Data(stopAck), Data(lenReply), Data(readAck)] +
      ImageReplies(BigEndian(lenReply[5..]), img) + [Data(trailing), Data(resumeAck)]
    requires |stopAck| >= 4 && stopAck[3] != 3 && lenReply[3] != 3
    requires |readAck| >= 4 && readAck[3] == 0 && |resumeAck| >= 4
    requires |img| >= BigEndian(lenReply[5..])
    ensures var (r, t) := CaptureSpec(c);
      r == Return(true) &&
      t.hexFbufLen == lenReply[5..] && t.intFbufLen == BigEndian(lenReply[5..]) &&
      t.imgD == img[..BigEndian(lenReply[5..])] &&
      t.port.input == []
  {
    var len := BigEndian(lenReply[5..]);
    var tail := [Data(readAck)] + ImageReplies(len, img) + [Data(trailing), Data(resumeAck)];
    assert c.port.input == [Data(stopAck), Data(lenReply)] + tail;
    StopAndMeasure(c, stopAck, lenReply, tail);
    CaptureAfterLength(c);
    var c2 := GetFbufLenSpec(FbufCtrlSpec(c, false).1.(hexFbufLen := [], intFbufLen := 0)).1;
    var c2x := c2.(imgD := []);
    assert c2x.port.input == tail + [];
    assert CaptureSpec(c) == ReadFbufSpec(c2x);
    assert c2x.port.input == [Data(readAck)] + ImageReplies(c2x.intFbufLen, img) + [Data(trailing), Data(resumeAck)] + [];
    ReadFbufAccepted(c2x, readAck, img, trailing, resumeAck, []);
    assert Take(img, len) == img[..len];
  }

  /** A whole take_picture in the same scenario: it answers true and the captured image
      is what is saved; the field keeps it only when the file could not be written. */
  lemma TakePictureSucceeds(c: CamState, writable: bool, stopAck: seq<Byte>, lenReply: seq<Byte>, readAck: seq<Byte>,
                            img: seq<Byte>, trailing: seq<Byte>, resumeAck: seq<Byte>)
    requires c.port.isOpen && |lenReply| == 9
    requires c.port.input == [Data(stopAck), Data(lenReply), Data(readAck)] +
      ImageReplies(BigEndian(lenReply[5..]), img) + [Data(trailing), Data(resumeAck)]
    requires |stopAck| >= 4 && stopAck[3] != 3 && lenReply[3] != 3
    requires |readAck| >= 4 && readAck[3] == 0 && |resumeAck| >= 4
    requires |img| >= BigEndian(lenReply[5..])
    ensures var (r, saved, t) := TakePictureSpec(c, writable);
      var photo := img[..BigEndian(lenReply[5..])];
      r == Return(true) &&
      t.hexFbufLen == lenReply[5..] && t.intFbufLen == BigEndian(lenReply[5..]) &&
      (writable ==> saved == Some(photo) && t.imgD == []) &&
      (!writable ==> saved == None && t.imgD == photo) &&
      t.port.input == []
  {
    CaptureSucceeds(c, stopAck, lenReply, readAck, img, trailing, resumeAck);
  }

  /** A stop answered with a status other than 3 and a full 9-byte length reply: both
      answer true, the length fields hold the reply's length bytes, and two replies are
      used up. */
  lemma StopAndMeasure(c: CamState, stopAck: seq<Byte>, lenReply: seq<Byte>, tail: seq<Incoming>)
    requires c.port.isOpen && c.port.input == [Data(stopAck), Data(lenReply)] + tail
    requires |stopAck| >= 4 && stopAck[3] != 3
    requires |lenReply| == 9 && lenReply[3] != 3
    ensures FbufCtrlSpec(c, false).0 == Return(true)
    ensures var (r2, c2) := GetFbufLenSpec(FbufCtrlSpec(c, false).1.(hexFbufLen := [], intFbufLen := 0));
      r2 == Return(true) && c2.port.isOpen && c2.port.input == tail &&
      c2.hexFbufLen == lenReply[5..] && c2.intFbufLen == BigEndian(lenReply[5..])
  {
    FbufCtrlReply(c, false);
    var c1x := FbufCtrlSpec(c, false).1.(hexFbufLen := [], intFbufLen := 0);
    assert c.port.input[1..] == [Data(lenReply)] + tail;
    assert ([Data(lenReply)] + tail)[1..] == tail;
    assert NextReply(c1x.port, lenReply);
    assert Take(lenReply, GetFbufLenReplySize) == lenReply;
  }

  /** take_picture writes a file only after a capture that answered true, and what it
      writes is the image that capture read; its answer and the port are always the
      capture's, and the image field is cleared exactly when a file was written. */
  lemma TakePictureSavesOnlyOnTrue(c: CamState, writable: bool)
    ensures var (r, saved, t) := TakePictureSpec(c, writable);
      var (rc, tc) := CaptureSpec(c);
      r == rc && t.port == tc.port && t.hexFbufLen == tc.hexFbufLen && t.intFbufLen == tc.intFbufLen &&
      (saved.Some? <==> r == Return(true) && writable) &&
      (saved.Some? ==> saved.value == tc.imgD && t.imgD == []) &&
      (saved.None? ==> t.imgD == tc.imgD)
  {
  }

  /** The two resize commands are nine bytes long and differ only in their last byte;
      resize answers true exactly when the five bytes read are the acknowledgement, and
      changes neither the fields nor the baud rate. */
  lemma ResizeAckExact(c: CamState, large: bool)
    ensures |ResizeCmd(true)| == |ResizeCmd(false)| == 9
    ensures ResizeCmd(true)[..8] == ResizeCmd(false)[..8]
    ensures ResizeCmd(true)[8] == 0x00 && ResizeCmd(false)[8] == 0x11
    ensures var (r, t) := ResizeSpec(c, large);
      t == c.(port := t.port) && t.port.baud == c.port.baud &&
      (r == Return(true) <==> c.port.isOpen && ReadResult(AfterWrite(c.port, ResizeCmd(large)), AckSize) == Return(ResizeAck)) &&
      (forall d :: NextReply(c.port, d) ==> r == Return(Take(d, AckSize) == ResizeAck))
  {
  }

  /** set_baudrate's table holds five rates with distinct two-byte codes. */
  lemma BaudCodeTable()
    ensures forall b :: BaudCode(b).Some? <==> b in {9600, 19200, 38400, 57600, 115200}
    ensures forall b :: BaudCode(b).Some? ==> |BaudCode(b).value| == 2
    ensures forall a, b :: BaudCode(a).Some? && BaudCode(a) == BaudCode(b) ==> a == b
  {
  }

  /** set_baudrate switches the port to the new rate exactly when it answers true, and
      that happens only after the five bytes read equal the acknowledgement; an
      unsupported rate raises KeyError with nothing written. The fields never change. */
  lemma SetBaudrateOnlyOnAck(c: CamState, baud: nat)
    ensures var (r, t) := SetBaudrateSpec(c, baud);
      t == c.(port := t.port) &&
      t.port.baud == (if r == Return(true) then baud else c.port.baud) &&
      (BaudCode(baud).None? ==> r == Raise(KeyError) && t == c) &&
      (r == Return(true) ==>
        var cmd := SetBaudCmd(BaudCode(baud).value);
        ReadResult(AfterWrite(c.port, cmd), AckSize) == Return(SetBaudAck) &&
        t.port.outLog == c.port.outLog + [cmd] &&
        t.port.trace == c.port.trace + [Event.Write(cmd), Event.Read(AckSize, c.port.baud), Event.SetBaud(baud)])
  {
  }

  // ---------------------------------------------------------------------------
  // The class

  class CameraSerial232 {
    const port: SerialPort
    var hexFbufLen: seq<Byte>
    var intFbufLen: nat
    var imgD: seq<Byte>

    function State(): CamState
      reads this, port
    {
      CamState(port.State(), hexFbufLen, intFbufLen, imgD)
    }

    /** The fields start empty, as take_picture leaves them before the length is read. */
    constructor (port: SerialPort)
      ensures this.port == port
      ensures hexFbufLen == [] && intFbufLen == 0 && imgD == []
    {
      this.port := port;
      hexFbufLen := [];
      intFbufLen := 0;
      imgD := [];
    }

    method GetVersion() returns (r: Outcome<VersionReply>)
      modifies port
      ensures (r, State()) == GetVersionSpec(old(State()))
    {
      var written := port.Write(GetVersionCmd);
      if written.Raise? {
        return Raise(written.exc);
      }
      var d := port.Read(GetVersionReplySize);
      if d.Raise? {
        return Raise(d.exc);
      }
      var reply := d.value;
      var res: seq<int> := [];
      var i := 0;
      while i < |reply| && i < 5
        invariant 0 <= i <= |reply| && i <= 5
        invariant res == reply[..i]
      {
        res := res + [reply[i]];
        i := i + 1;
      }
      assert res == Take(reply, 5);
      r := Return(VersionReply(res, Drop(reply, 5)));
    }

    method FbufCtrl(reset: bool) returns (r: Outcome<bool>)
      modifies port
      ensures (r, State()) == FbufCtrlSpec(old(State()), reset)
    {
      var cmd := FbufCtrlCmd(reset);
      var written := port.Write(cmd);
      if written.Raise? {
        return Raise(written.exc);
      }
      var d := port.Read(AckSize);
      if d.Raise? {
        return Raise(d.exc);
      }
      if |d.value| < 4 {
        return Raise(IndexError);
      }
      r := Return(d.value[3] != 3);
    }

    method GetFbufLen() returns (r: Outcome<bool>)
      modifies this, port
      ensures (r, State()) == GetFbufLenSpec(old(State()))
    {
      var written := port.Write(GetFbufLenCmd);
      if written.Raise? {
        return Raise(written.exc);
      }
      var d := port.Read(GetFbufLenReplySize);
      if d.Raise? {
        return Raise(d.exc);
      }
      if |d.value| < 4 {
        return Raise(IndexError);
      }
      if d.value[3] == 3 {
        return Return(false);
      }
      if |d.value| <= 5 {
        return Raise(ValueError);
      }
      hexFbufLen := d.value[5..];
      intFbufLen := BigEndian(d.value[5..]);
      r := Return(true);
    }

    method ReadFbuf() returns (r: Outcome<bool>)
      modifies this, port
      ensures (r, State()) == ReadFbufSpec(old(State()))
    {
      var written := port.Write(ReadFbufCmd(hexFbufLen));
      if written.Raise? {
        return Raise(written.exc);
      }
      var d := port.Read(AckSize);
      if d.Raise? {
        return Raise(d.exc);
      }
      if |d.value| < 4 {
        return Raise(IndexError);
      }
      if d.value[3] != 0 {
        return Return(false);
      }
      var img := port.Read(intFbufLen);
      if img.Raise? {
        return Raise(img.exc);
      }
      var trailing := port.Read(AckSize);
      if trailing.Raise? {
        return Raise(trailing.exc);
      }
      imgD := img.value;
      var resumed := FbufCtrl(true);
      if resumed.Raise? {
        return Raise(resumed.exc);
      }
      r := Return(true);
    }

    /** _save_img, with `writable` standing for whether the file can be written; the
        result is what was written to it. */
    method SaveImg(writable: bool) returns (saved: Option<seq<Byte>>)
      modifies this
      ensures (saved, State()) == SaveImgSpec(old(State()), writable)
    {
      if !writable {
        return None;
      }
      saved := Some(imgD);
      imgD := [];
    }

    /** take_picture; the second result is what was saved to the file, if anything. */
    method TakePicture(writable: bool) returns (r: Outcome<bool>, saved: Option<seq<Byte>>)
      modifies this, port
      ensures (r, saved, State()) == TakePictureSpec(old(State()), writable)
    {
      saved := None;
      var stopped := FbufCtrl(false);
      if stopped.Raise? {
        return Raise(stopped.exc), None;
      }
      if !stopped.value {
        return Return(false), None;
      }
      hexFbufLen := [];
      intFbufLen := 0;
      var measured := GetFbufLen();
      if measured.Raise? {
        return Raise(measured.exc), None;
      }
      if !measured.value {
        return Return(false), None;
      }
      imgD := [];
      r := ReadFbuf();
      if r == Return(true) {
        saved := SaveImg(writable);
      }
    }

    method Resize(large: bool) returns (r: Outcome<bool>)
      modifies port
      ensures (r, State()) == ResizeSpec(old(State()), large)
    {
      var written := port.Write(ResizeCmd(large));
      if written.Raise? {
        return Raise(written.exc);
      }
      var d := port.Read(AckSize);
      if d.Raise? {
        return Raise(d.exc);
      }
      r := Return(d.value == ResizeAck);
    }

    method SetBaudrate(baud: nat) returns (r: Outcome<bool>)
      modifies port
      ensures (r, State()) == SetBaudrateSpec(old(State()), baud)
    {
      var code := BaudCode(baud);
      if code.None? {
        return Raise(KeyError);
      }
      var written := port.Write(SetBaudCmd(code.value));
      if written.Raise? {
        return Raise(written.exc);
      }
      var d := port.Read(AckSize);
      if d.Raise? {
        return Raise(d.exc);
      }
      if d.value != SetBaudAck {
        return Return(false);
      }
      port.SetBaudrate(baud);
      r := Return(true);
    }
  }
}
