/** The CameraSerial class of camera_ttl.py: configuring the link, sending commands,
    taking a picture and uploading it packet by packet, over the scripted port.

    Each method is proved against a function of the port state before the call that
    gives the method's outcome and the port state after it; the lemmas below state
    what those functions promise. */
module CameraTtlSerial {
  import opened Bytes
  import opened Outcomes
  import opened Transport
  import opened CameraTtl

  /** What send_cmd returns: the hex text, and with `rlist` also the list of reply bytes. */
  datatype CmdReply = HexOnly(hex: string) | HexAndList(hex: string, list: seq<int>)

  /** What CameraSerial.take_picture returns. */
  datatype PictureReply = PictureReply(hex: string, nBytes: nat, nPackets: nat)

  /** The size of every reply except the upload replies. */
  const ReplySize: nat := 13

  // ---------------------------------------------------------------------------
  // Specifications of the single-command methods

  /** config_connection: write the frame, read the 13-byte reply at the current baud,
      and only then switch the port to `baud`. */
  function ConfigConnectionSpec(s: PortState, cmd: seq<Byte>, baud: nat): (Outcome<string>, PortState)
  {
    var (rd, s1) := Exchange(s, cmd, ReplySize);
    match rd
    case Raise(e) => (Raise(e), s1)
    case Return(reply) => (Return(Reply2Hex(reply)), AfterSetBaud(s1, baud))
  }

  /** send_cmd: write the frame and read the 13-byte reply. */
  function SendCmdSpec(s: PortState, cmd: seq<Byte>, rlist: bool): (Outcome<CmdReply>, PortState)
  {
    var (rd, s1) := Exchange(s, cmd, ReplySize);
    match rd
    case Raise(e) => (Raise(e), s1)
    case Return(reply) =>
      (Return(if rlist then HexAndList(Reply2Hex(reply), reply) else HexOnly(Reply2Hex(reply))), s1)
  }

  /** CameraSerial.take_picture: write the frame, read 13 bytes and unpack the counts;
      unpacking the False of a failed capture raises TypeError. */
  function TakePictureSpec(s: PortState, cmd: seq<Byte>): (Outcome<PictureReply>, PortState)
  {
    var (rd, s1) := Exchange(s, cmd, ReplySize);
    match rd
    case Raise(e) => (Raise(e), s1)
    case Return(reply) =>
      match Reply2HexPic(reply)
      case Raise(e) => (Raise(e), s1)
      case Return(NotCaptured) => (Raise(TypeError), s1)
      case Return(Captured(nBytes, nPackets)) => (Return(PictureReply(Reply2Hex(reply), nBytes, nPackets)), s1)
  }

  /** The parameters reset configures: 115200 baud, id 0, 512-byte packets. */
  function ResetParams(): seq<int>
  {
    [BaudrateDict[115200], 0x00, PacketDict[512], 0, 0, 0]
  }

  /** reset: configure the default baud rate and packet size, then switch to 115200. */
  function ResetSpec(s: PortState): (Outcome<()>, PortState)
  {
    match EncodeCmd(CmdConfig, ResetParams())
    case Raise(e) => (Raise(e), s)
    case Return(cmd) =>
      var (r, t) := ConfigConnectionSpec(s, cmd, 115200);
      (if r.Raise? then Raise(r.exc) else Return(()), t)
  }

  // ---------------------------------------------------------------------------
  // Specification of upload_img

  /** The parameters of the UPLOAD command for packet `idx` of `n`. */
  function UploadParams(idx: nat, n: nat): seq<int>
  {
    [0x01] + Int2HexList(idx) + Int2HexList(n) + [ParamEmpty]
  }

  /** The image bytes packet `idx` of `n` is read for, as the code computes it: a whole
      packet, except that the last one is `n_bytes % packet_size`, which is 0 when the
      image size is a multiple of the packet size. */
  function PacketLen(idx: nat, n: nat, nBytes: nat, packetSize: nat): nat
    requires idx == n ==> packetSize > 0
  {
    if idx == n then nBytes % packetSize else packetSize
  }

  /** One pass of upload_img's loop body for packet `idx` of `n`: the exception that
      escapes it, if any, the port state after it and the photo after it. A ValueError
      from write or read is caught and the packet adds nothing (the port raises nothing
      else); a ValueError from format_cmd and the ZeroDivisionError of a zero packet
      size escape. */
  function UploadPacket(idx: nat, n: nat, nBytes: nat, packetSize: nat, s: PortState, photo: seq<Byte>)
    : (Option<Exception>, PortState, seq<Byte>)
  {
    match EncodeCmd(CmdUpload, UploadParams(idx, n))
    case Raise(e) => (Some(e), s, photo)
    case Return(frame) =>
      var s1 := AfterWrite(s, frame);
      if WriteResult(s).Raise? then (None, s1, photo)
      else if idx == n && packetSize == 0 then (Some(ZeroDivisionError), s1, photo)
      else
        var len := PacketLen(idx, n, nBytes, packetSize);
        var s2 := AfterRead(s1, 13 + len);
        match ReadResult(s1, 13 + len)
        case Raise(_) => (None, s2, photo)
        case Return(reply) => (None, s2, photo + Slice(reply, 11, 11 + len))
  }

  /** upload_img from packet `idx` on, with `photo` collected so far. */
  function UploadFrom(idx: nat, n: nat, nBytes: nat, packetSize: nat, s: PortState, photo: seq<Byte>)
    : (Outcome<seq<Byte>>, PortState)
    requires 1 <= idx
    decreases n + 1 - idx
  {
    if idx > n then (Return(photo), s)
    else
      var (escaped, s1, photo1) := UploadPacket(idx, n, nBytes, packetSize, s, photo);
      if escaped.Some? then (Raise(escaped.value), s1)
      else UploadFrom(idx + 1, n, nBytes, packetSize, s1, photo1)
  }

  // ---------------------------------------------------------------------------
  // The class

  class CameraSerial {
    const port: SerialPort

    constructor (port: SerialPort)
      ensures this.port == port
    {
      this.port := port;
    }

    method ConfigConnection(cmd: seq<Byte>, baud: nat) returns (r: Outcome<string>)
      modifies port
      ensures (r, port.State()) == ConfigConnectionSpec(old(port.State()), cmd, baud)
    {
      var written := port.Write(cmd);
      if written.Raise? {
        return Raise(written.exc);
      }
      var reply := port.Read(ReplySize);
      if reply.Raise? {
        return Raise(reply.exc);
      }
      var replyHex := Reply2Hex(reply.value);
      port.SetBaudrate(baud);
      r := Return(replyHex);
    }

    method SendCmd(cmd: seq<Byte>, rlist: bool) returns (r: Outcome<CmdReply>)
      modifies port
      ensures (r, port.State()) == SendCmdSpec(old(port.State()), cmd, rlist)
    {
      var written := port.Write(cmd);
      if written.Raise? {
        return Raise(written.exc);
      }
      var reply := port.Read(ReplySize);
      if reply.Raise? {
        return Raise(reply.exc);
      }
      var replyHex := Reply2Hex(reply.value);
      if rlist {
        var replyList := Reply2List(reply.value);
        assert replyList == reply.value;
        return Return(HexAndList(replyHex, replyList));
      }
      r := Return(HexOnly(replyHex));
    }

    method TakePicture(cmd: seq<Byte>) returns (r: Outcome<PictureReply>)
      modifies port
      ensures (r, port.State()) == TakePictureSpec(old(port.State()), cmd)
    {
      var written := port.Write(cmd);
      if written.Raise? {
        return Raise(written.exc);
      }
      var reply := port.Read(ReplySize);
      if reply.Raise? {
        return Raise(reply.exc);
      }
      var replyHex := Reply2Hex(reply.value);
      match Reply2HexPic(reply.value)
      case Raise(e) =>
        r := Raise(e);
      case Return(NotCaptured) =>
        r := Raise(TypeError);
      case Return(Captured(nBytes, nPackets)) =>
        r := Return(PictureReply(replyHex, nBytes, nPackets));
    }

    /** One pass of upload_img's loop body: packet `idx` of `nPackets`, with the photo
        collected so far. */
    method UploadPacketStep(idx: nat, nPackets: nat, nBytes: nat, packetSize: nat, photo: seq<Byte>)
      returns (escaped: Option<Exception>, photo1: seq<Byte>)
      modifies port
      ensures (escaped, port.State(), photo1) == UploadPacket(idx, nPackets, nBytes, packetSize, old(port.State()), photo)
    {
      var idxPacket := Int2HexList(idx);
      var params := [0x01] + idxPacket + Int2HexList(nPackets) + [ParamEmpty];
      assert params == UploadParams(idx, nPackets);
      var idxCmd := FormatCmd(CmdUpload, params);
      if idxCmd.Raise? {
        return Some(idxCmd.exc), photo;
      }
      photo1 := photo;
      // A ValueError raised by the write or the read skips the rest of this packet.
      var written := port.Write(idxCmd.value);
      if written.Raise? {
        return None, photo;
      }
      if idx == nPackets {
        if packetSize == 0 {
          return Some(ZeroDivisionError), photo;
        }
        var lastBytes := nBytes % packetSize;
        var reply := port.Read(13 + lastBytes);
        if reply.Return? {
          photo1 := photo + Slice(reply.value, 11, 11 + lastBytes);
        }
      } else {
        var reply := port.Read(13 + packetSize);
        if reply.Return? {
          photo1 := photo + Slice(reply.value, 11, 11 + packetSize);
        }
      }
      escaped := None;
    }

    /** upload_img, returning the photo that upload_img hands to save_img. */
    method UploadImg(nBytes: nat, nPackets: nat, packetSize: nat) returns (r: Outcome<seq<Byte>>)
      modifies port
      ensures (r, port.State()) == UploadFrom(1, nPackets, nBytes, packetSize, old(port.State()), [])
    {
      var photo: seq<Byte> := [];
      var idx := 1;
      while idx <= nPackets
        invariant 1 <= idx <= nPackets + 1
        invariant UploadFrom(idx, nPackets, nBytes, packetSize, port.State(), photo)
               == UploadFrom(1, nPackets, nBytes, packetSize, old(port.State()), [])
        decreases nPackets + 1 - idx
      {
        var escaped;
        escaped, photo := UploadPacketStep(idx, nPackets, nBytes, packetSize, photo);
        if escaped.Some? {
          return Raise(escaped.value);
        }
        idx := idx + 1;
      }
      r := Return(photo);
    }

    method Reset() returns (r: Outcome<()>)
      modifies port
      ensures (r, port.State()) == ResetSpec(old(port.State()))
    {
      var cmd := FormatCmd(CmdConfig, [BaudrateDict[115200], 0x00, PacketDict[512], 0, 0, 0]);
      if cmd.Raise? {
        return Raise(cmd.exc);
      }
      var reply := ConfigConnection(cmd.value, 115200);
      r := if reply.Raise? then Raise(reply.exc) else Return(());
    }
  }

  // ---------------------------------------------------------------------------
  // What the single-command methods promise

  /** config_connection writes the frame, reads 13 bytes at the old baud and only then
      sets the new baud; if the write or the read raises, the baud is left alone. */
  lemma ConfigConnectionOrder(s: PortState, cmd: seq<Byte>, baud: nat)
    ensures var (r, t) := ConfigConnectionSpec(s, cmd, baud);
      (r.Return? <==> s.isOpen && ReadResult(AfterWrite(s, cmd), 13).Return?) &&
      (r.Return? ==>
        r.value == Reply2Hex(ReadResult(AfterWrite(s, cmd), 13).value) &&
        t.outLog == s.outLog + [cmd] &&
        t.trace == s.trace + [Event.Write(cmd), Event.Read(13, s.baud), Event.SetBaud(baud)] &&
        t.baud == baud) &&
      (r.Raise? ==>
        t.baud == s.baud &&
        t.trace == s.trace + (if s.isOpen then [Event.Write(cmd), Event.Read(13, s.baud)] else []))
  {
  }

  /** send_cmd writes the frame, reads 13 bytes and never changes the baud; with
      `rlist` the list holds one integer per reply byte. */
  lemma SendCmdReplies(s: PortState, cmd: seq<Byte>, rlist: bool)
    ensures var (r, t) := SendCmdSpec(s, cmd, rlist);
      t.baud == s.baud &&
      t.trace == s.trace + (if s.isOpen then [Event.Write(cmd), Event.Read(13, s.baud)] else []) &&
      (r.Return? ==>
        var reply := ReadResult(AfterWrite(s, cmd), 13).value;
        |reply| <= 13 &&
        r.value.hex == Reply2Hex(reply) &&
        (rlist <==> r.value.HexAndList?) &&
        (rlist ==> |r.value.list| == |reply| && forall i :: 0 <= i < |reply| ==> r.value.list[i] == reply[i]))
  {
  }

  /** A full 13-byte capture reply either reports the counts, read big-endian from
      bytes 6..8 and 9..10, or, when its status byte 5 is set, makes take_picture raise. */
  lemma TakePictureCounts(s: PortState, cmd: seq<Byte>)
    requires s.isOpen && s.input != [] && s.input[0].Data? && |s.input[0].bytes| >= 13
    ensures var (r, t) := TakePictureSpec(s, cmd);
      var reply := s.input[0].bytes[..13];
      t.baud == s.baud && t.outLog == s.outLog + [cmd] &&
      (reply[5] != 0 ==> r == Raise(TypeError)) &&
      (reply[5] == 0 ==>
        r == Return(PictureReply(Reply2Hex(reply),
                                 65536 * reply[6] as int + 256 * reply[7] as int + reply[8] as int,
                                 256 * reply[9] as int + reply[10] as int)))
  {
  }

  /** reset sends the configuration frame for 115200 baud and 512-byte packets and ends
      at 115200 baud when its reply arrives; otherwise the baud is unchanged. */
  lemma ResetEffect(s: PortState)
    ensures EncodeCmd(CmdConfig, ResetParams())
      == Return([0x7E, 0x00, 0x08, 0x00, 0x03, 0x05, 0x00, 0x02, 0x00, 0x00, 0x00, 0x12, 0xE7])
    ensures var (r, t) := ResetSpec(s);
      var frame := [0x7E, 0x00, 0x08, 0x00, 0x03, 0x05, 0x00, 0x02, 0x00, 0x00, 0x00, 0x12, 0xE7];
      (r.Return? ==>
        t.baud == 115200 && t.outLog == s.outLog + [frame] &&
        t.trace == s.trace + [Event.Write(frame), Event.Read(13, s.baud), Event.SetBaud(115200)]) &&
      (r.Raise? ==> t.baud == s.baud)
  {
    FrameOfSixParams(CmdConfig, [5, 0, 2, 0, 0, 0]);
  }

  // ---------------------------------------------------------------------------
  // What upload_img promises

  /** The UPLOAD frame of packet `k` of `n`, byte by byte. */
  function UploadFrame(k: nat, n: nat): seq<Byte>
    requires k < 65536 && n < 65536
  {
    Frame(CmdUpload, [0x01, k / 256, k % 256, n / 256, n % 256, ParamEmpty])
  }

  lemma UploadFrameIsFormatCmd(k: nat, n: nat)
    requires k < 65536 && n < 65536
    ensures EncodeCmd(CmdUpload, UploadParams(k, n)) == Return(UploadFrame(k, n))
    ensures |UploadFrame(k, n)| == 13
  {
    Int2HexListTwoBytes(k);
    Int2HexListTwoBytes(n);
    assert UploadParams(k, n) == [0x01, k / 256, k % 256, n / 256, n % 256, ParamEmpty];
    FrameLayout(CmdUpload, [0x01, k / 256, k % 256, n / 256, n % 256, ParamEmpty]);
  }

  /** The frames of packets `k`..`n`, in index order. */
  function UploadFrames(k: nat, n: nat): seq<seq<Byte>>
    requires n < 65536
    decreases n + 1 - k
  {
    if k > n then [] else [UploadFrame(k, n)] + UploadFrames(k + 1, n)
  }

  /** The port events of packets `k`..`n`: each frame, then the read for its reply. */
  function UploadEvents(k: nat, n: nat, nBytes: nat, packetSize: nat, baud: nat): seq<Event>
    requires n < 65536 && packetSize > 0
    decreases n + 1 - k
  {
    if k > n then []
    else [Event.Write(UploadFrame(k, n)), Event.Read(13 + PacketLen(k, n, nBytes, packetSize), baud)]
         + UploadEvents(k + 1, n, nBytes, packetSize, baud)
  }

  /** The photo packets `k`..`n` assemble from the scripted replies, one reply per
      packet: bytes [11, 11 + len) of each reply, clipped to its length; a reply that
      faults, or is missing, adds nothing. */
  function ExpectedPhoto(input: seq<Incoming>, k: nat, n: nat, nBytes: nat, packetSize: nat): seq<Byte>
    requires packetSize > 0
    decreases n + 1 - k
  {
    if k > n then []
    else
      var len := PacketLen(k, n, nBytes, packetSize);
      PacketPiece(input, len) + ExpectedPhoto(if input == [] then [] else input[1..], k + 1, n, nBytes, packetSize)
  }

  /** The reply packet `k` reads and the bytes it adds to the photo. */
  function PacketPiece(input: seq<Incoming>, len: nat): seq<Byte>
  {
    if input != [] && input[0].Data? then Slice(input[0].bytes, 11, 11 + len) else []
  }

  /** One packet on an open port: its frame is written, its reply read, and the
      reply's image bytes appended. */
  lemma UploadPacketOpen(k: nat, n: nat, nBytes: nat, packetSize: nat, s: PortState, acc: seq<Byte>)
    requires 1 <= k <= n < 65536 && packetSize > 0 && s.isOpen
    ensures UploadPacket(k, n, nBytes, packetSize, s, acc) ==
      (None,
       AfterRead(AfterWrite(s, UploadFrame(k, n)), 13 + PacketLen(k, n, nBytes, packetSize)),
       acc + PacketPiece(s.input, PacketLen(k, n, nBytes, packetSize)))
  {
    UploadFrameIsFormatCmd(k, n);
    var len := PacketLen(k, n, nBytes, packetSize);
    var s1 := AfterWrite(s, UploadFrame(k, n));
    if s.input == [] {
      assert ReadResult(s1, 13 + len) == Return([]);
      assert acc + Slice([], 11, 11 + len) == acc;
    } else if s.input[0].Fault? {
      assert acc + PacketPiece(s.input, len) == acc;
    } else {
      SliceOfTake(s.input[0].bytes, 13 + len, 11, 11 + len);
    }
  }

  /** On an open port upload_img goes on to the next packet with one more reply read. */
  lemma UploadFromStep(k: nat, k1: nat, n: nat, nBytes: nat, packetSize: nat, s: PortState, acc: seq<Byte>)
    requires 1 <= k <= n < 65536 && k1 == k + 1 && packetSize > 0 && s.isOpen
    ensures var len := PacketLen(k, n, nBytes, packetSize);
      UploadFrom(k, n, nBytes, packetSize, s, acc)
        == UploadFrom(k1, n, nBytes, packetSize,
                      AfterRead(AfterWrite(s, UploadFrame(k, n)), 13 + len), acc + PacketPiece(s.input, len))
  {
    UploadPacketOpen(k, n, nBytes, packetSize, s, acc);
  }

  /** The replies left after one more packet, counted from the front. */
  lemma RestAfterPacket(input: seq<Incoming>, m: nat)
    requires m >= 1
    ensures var rest := if input == [] then [] else input[1..];
      rest[Min(m - 1, |rest|)..] == input[Min(m, |input|)..]
  {
  }

  /** upload_img in closed form on an open port: the photo is ExpectedPhoto, one reply
      is used up per packet, the frames of packets `k`..`n` are written in order and
      each is followed by the read for its reply, all at the baud rate it started with. */
  lemma {:induction false} UploadClosedForm(k: nat, n: nat, nBytes: nat, packetSize: nat, s: PortState, acc: seq<Byte>)
    requires 1 <= k <= n + 1 && n < 65536 && packetSize > 0 && s.isOpen
    ensures UploadFrom(k, n, nBytes, packetSize, s, acc) ==
      (Return(acc + ExpectedPhoto(s.input, k, n, nBytes, packetSize)),
       s.(input := s.input[Min(n + 1 - k, |s.input|)..],
          outLog := s.outLog + UploadFrames(k, n),
          trace := s.trace + UploadEvents(k, n, nBytes, packetSize, s.baud)))
    decreases n + 1 - k, 1
  {
    if k <= n {
      UploadClosedFormStep(k, n, nBytes, packetSize, s, acc);
    } else {
      assert s.input[0..] == s.input;
      assert acc + [] == acc && s.outLog + [] == s.outLog && s.trace + [] == s.trace;
    }
  }

  /** The inductive step of UploadClosedForm: packet `k` is sent and the rest follows. */
  lemma {:induction false} UploadClosedFormStep(k: nat, n: nat, nBytes: nat, packetSize: nat, s: PortState, acc: seq<Byte>)
    requires 1 <= k <= n < 65536 && packetSize > 0 && s.isOpen
    ensures UploadFrom(k, n, nBytes, packetSize, s, acc) ==
      (Return(acc + ExpectedPhoto(s.input, k, n, nBytes, packetSize)),
       s.(input := s.input[Min(n + 1 - k, |s.input|)..],
          outLog := s.outLog + UploadFrames(k, n),
          trace := s.trace + UploadEvents(k, n, nBytes, packetSize, s.baud)))
    decreases n + 1 - k, 0
  {
    var len := PacketLen(k, n, nBytes, packetSize);
    var s2 := AfterRead(AfterWrite(s, UploadFrame(k, n)), 13 + len);
    var piece := PacketPiece(s.input, len);
    var k1 := k + 1;
    UploadFromStep(k, k1, n, nBytes, packetSize, s, acc);
    UploadClosedForm(k1, n, nBytes, packetSize, s2, acc + piece);
    UploadEndStep(k, k1, n, nBytes, packetSize, s);
    var rest := if s.input == [] then [] else s.input[1..];
    assert s2.input == rest;
    ExpectedPhotoStep(s.input, k, k1, n, nBytes, packetSize);
    AppendAssoc(acc, piece, ExpectedPhoto(rest, k1, n, nBytes, packetSize));
  }

  /** The port state the closed form gives, one packet at a time. */
  lemma UploadEndStep(k: nat, k1: nat, n: nat, nBytes: nat, packetSize: nat, s: PortState)
    requires 1 <= k <= n < 65536 && k1 == k + 1 && packetSize > 0 && s.isOpen
    ensures var s2 := AfterRead(AfterWrite(s, UploadFrame(k, n)), 13 + PacketLen(k, n, nBytes, packetSize));
      s2.(input := s2.input[Min(n + 1 - k1, |s2.input|)..],
          outLog := s2.outLog + UploadFrames(k1, n),
          trace := s2.trace + UploadEvents(k1, n, nBytes, packetSize, s2.baud))
      == s.(input := s.input[Min(n + 1 - k, |s.input|)..],
            outLog := s.outLog + UploadFrames(k, n),
            trace := s.trace + UploadEvents(k, n, nBytes, packetSize, s.baud))
  {
    var len := PacketLen(k, n, nBytes, packetSize);
    var s2 := AfterRead(AfterWrite(s, UploadFrame(k, n)), 13 + len);
    RestAfterPacket(s.input, n + 1 - k);
    var frames := UploadFrames(k1, n);
    assert s2.outLog == s.outLog + [UploadFrame(k, n)];
    AppendAssoc(s.outLog, [UploadFrame(k, n)], frames);
    var events := UploadEvents(k1, n, nBytes, packetSize, s.baud);
    var pair := [Event.Write(UploadFrame(k, n)), Event.Read(13 + len, s.baud)];
    assert s2.trace == s.trace + pair;
    AppendAssoc(s.trace, pair, events);
  }

  lemma ExpectedPhotoStep(input: seq<Incoming>, k: nat, k1: nat, n: nat, nBytes: nat, packetSize: nat)
    requires k <= n && k1 == k + 1 && packetSize > 0
    ensures ExpectedPhoto(input, k, n, nBytes, packetSize)
      == PacketPiece(input, PacketLen(k, n, nBytes, packetSize))
         + ExpectedPhoto(if input == [] then [] else input[1..], k1, n, nBytes, packetSize)
  {
  }

  lemma AppendAssoc<T>(a: seq<T>, b: seq<T>, c: seq<T>)
    ensures a + b + c == a + (b + c)
  {
  }

  lemma {:induction false} UploadFramesAt(k0: nat, n: nat)
    requires 1 <= k0 <= n + 1 && n < 65536
    ensures |UploadFrames(k0, n)| == n + 1 - k0
    ensures forall k :: k0 <= k <= n ==> UploadFrames(k0, n)[k - k0] == UploadFrame(k, n)
    decreases n + 1 - k0
  {
    if k0 <= n {
      var k1 := k0 + 1;
      var rest := UploadFrames(k1, n);
      UploadFramesAt(k1, n);
      assert UploadFrames(k0, n) == [UploadFrame(k0, n)] + rest;
      forall k | k0 <= k <= n
        ensures UploadFrames(k0, n)[k - k0] == UploadFrame(k, n)
      {
        if k > k0 {
          assert UploadFrames(k0, n)[k - k0] == rest[k - k1];
        }
      }
    }
  }

  lemma {:induction false} UploadEventsAt(k0: nat, n: nat, nBytes: nat, packetSize: nat, baud: nat)
    requires 1 <= k0 <= n + 1 && n < 65536 && packetSize > 0
    ensures |UploadEvents(k0, n, nBytes, packetSize, baud)| == 2 * (n + 1 - k0)
    ensures forall k :: k0 <= k <= n ==>
      UploadEvents(k0, n, nBytes, packetSize, baud)[2 * (k - k0)] == Event.Write(UploadFrame(k, n)) &&
      UploadEvents(k0, n, nBytes, packetSize, baud)[2 * (k - k0) + 1]
        == Event.Read(13 + PacketLen(k, n, nBytes, packetSize), baud)
    decreases n + 1 - k0
  {
    if k0 <= n {
      var k1 := k0 + 1;
      var all := UploadEvents(k0, n, nBytes, packetSize, baud);
      var rest := UploadEvents(k1, n, nBytes, packetSize, baud);
      UploadEventsAt(k1, n, nBytes, packetSize, baud);
      assert all == [Event.Write(UploadFrame(k0, n)), Event.Read(13 + PacketLen(k0, n, nBytes, packetSize), baud)] + rest;
      forall k | k0 <= k <= n
        ensures all[2 * (k - k0)] == Event.Write(UploadFrame(k, n))
        ensures all[2 * (k - k0) + 1] == Event.Read(13 + PacketLen(k, n, nBytes, packetSize), baud)
      {
        if k > k0 {
          var i := 2 * (k - k1);
          assert 2 * (k - k0) == i + 2;
          assert all[i + 2] == rest[i] && all[i + 3] == rest[i + 1];
        }
      }
    }
  }

  /** On an open port with fewer than 65536 packets, upload_img returns the photo
      ExpectedPhoto assembles and writes exactly one frame per packet, packet k's frame
      (UploadFrameIsFormatCmd) at position k - 1. With no packets it writes nothing and
      the photo is empty. */
  lemma UploadWritesOneFramePerPacket(n: nat, nBytes: nat, packetSize: nat, s: PortState)
    requires n < 65536 && packetSize > 0 && s.isOpen
    ensures var (r, t) := UploadFrom(1, n, nBytes, packetSize, s, []);
      r == Return(ExpectedPhoto(s.input, 1, n, nBytes, packetSize)) &&
      t.outLog == s.outLog + UploadFrames(1, n) &&
      |UploadFrames(1, n)| == n &&
      (forall k :: 1 <= k <= n ==> UploadFrames(1, n)[k - 1] == UploadFrame(k, n)) &&
      (n == 0 ==> r == Return([]) && t.outLog == s.outLog)
  {
    var photo := ExpectedPhoto(s.input, 1, n, nBytes, packetSize);
    UploadClosedForm(1, n, nBytes, packetSize, s, []);
    assert [] + photo == photo;
    UploadFramesAt(1, n);
    if n == 0 {
      assert s.outLog + [] == s.outLog;
    }
  }

  /** With no packets upload_img neither writes nor reads: it returns an empty photo and
      leaves the port as it was, whatever the port's state and the packet size. */
  lemma UploadNoPackets(nBytes: nat, packetSize: nat, s: PortState)
    ensures UploadFrom(1, 0, nBytes, packetSize, s, []) == (Return([]), s)
  {
  }

  /** After packet k's frame upload_img reads 13 + PacketLen bytes: 13 + packet_size,
      or 13 + n_bytes % packet_size for the last packet. Every read happens at the baud
      rate it started with, and the baud rate is never changed. */
  lemma UploadReadSizes(n: nat, nBytes: nat, packetSize: nat, s: PortState)
    requires n < 65536 && packetSize > 0 && s.isOpen
    ensures var (r, t) := UploadFrom(1, n, nBytes, packetSize, s, []);
      t.baud == s.baud && t.isOpen &&
      t.trace == s.trace + UploadEvents(1, n, nBytes, packetSize, s.baud) &&
      |UploadEvents(1, n, nBytes, packetSize, s.baud)| == 2 * n &&
      (forall k :: 1 <= k <= n ==>
        UploadEvents(1, n, nBytes, packetSize, s.baud)[2 * (k - 1)] == Event.Write(UploadFrame(k, n)) &&
        UploadEvents(1, n, nBytes, packetSize, s.baud)[2 * (k - 1) + 1]
          == Event.Read(13 + PacketLen(k, n, nBytes, packetSize), s.baud)) &&
      (forall k :: 1 <= k < n ==> PacketLen(k, n, nBytes, packetSize) == packetSize) &&
      (n >= 1 ==> PacketLen(n, n, nBytes, packetSize) == nBytes % packetSize)
  {
    UploadClosedForm(1, n, nBytes, packetSize, s, []);
    var t := UploadFrom(1, n, nBytes, packetSize, s, []).1;
    assert t.baud == s.baud && t.isOpen && t.trace == s.trace + UploadEvents(1, n, nBytes, packetSize, s.baud);
    UploadEventsAt(1, n, nBytes, packetSize, s.baud);
  }

  /** A reply that holds a whole packet: 11 envelope bytes, then at least `len` bytes. */
  predicate FullReply(i: Incoming, len: nat)
  {
    i.Data? && |i.bytes| >= 11 + len
  }

  /** When every packet's reply is whole, the photo has (n - k) full packets and the
      last packet's n_bytes % packet_size bytes. */
  lemma {:induction false} ExpectedPhotoLength(input: seq<Incoming>, k: nat, n: nat, nBytes: nat, packetSize: nat)
    requires 1 <= k <= n && packetSize > 0
    requires n + 1 - k <= |input|
    requires forall j :: 0 <= j < n + 1 - k ==> FullReply(input[j], PacketLen(k + j, n, nBytes, packetSize))
    ensures |ExpectedPhoto(input, k, n, nBytes, packetSize)| == (n - k) * packetSize + nBytes % packetSize
    decreases n - k
  {
    var len := PacketLen(k, n, nBytes, packetSize);
    assert FullReply(input[0], PacketLen(k + 0, n, nBytes, packetSize));
    assert |PacketPiece(input, len)| == len;
    var k1 := k + 1;
    var rest := input[1..];
    ExpectedPhotoStep(input, k, k1, n, nBytes, packetSize);
    if k < n {
      forall j | 0 <= j < n + 1 - k1
        ensures FullReply(rest[j], PacketLen(k1 + j, n, nBytes, packetSize))
      {
        var j1 := j + 1;
        assert FullReply(input[j1], PacketLen(k + j1, n, nBytes, packetSize));
      }
      ExpectedPhotoLength(rest, k1, n, nBytes, packetSize);
      MulStep(n - k1, packetSize);
    }
  }

  /** One more factor adds one more `m`. */
  lemma MulStep(a: nat, m: nat)
    ensures (a + 1) * m == m + a * m
  {
  }

  /** With whole replies, upload_img's photo is (n - 1) * packet_size + n_bytes %
      packet_size bytes long. So when n_bytes is an exact multiple of packet_size the
      last packet adds nothing and the photo is one packet short of n_bytes. */
  lemma UploadPhotoLength(n: nat, nBytes: nat, packetSize: nat, s: PortState)
    requires 1 <= n < 65536 && packetSize > 0 && s.isOpen
    requires n <= |s.input|
    requires forall j :: 0 <= j < n ==> FullReply(s.input[j], PacketLen(1 + j, n, nBytes, packetSize))
    ensures var (r, t) := UploadFrom(1, n, nBytes, packetSize, s, []);
      r.Return? && |r.value| == (n - 1) * packetSize + nBytes % packetSize &&
      (nBytes == n * packetSize ==> |r.value| == nBytes - packetSize)
  {
    var photo := ExpectedPhoto(s.input, 1, n, nBytes, packetSize);
    UploadClosedForm(1, n, nBytes, packetSize, s, []);
    assert [] + photo == photo;
    ExpectedPhotoLength(s.input, 1, n, nBytes, packetSize);
    if nBytes == n * packetSize {
      MultipleHasNoRemainder(n, packetSize);
      MulStep(n - 1, packetSize);
    }
  }

  lemma MulAtLeast(x: int, m: int)
    requires x >= 1 && m > 0
    ensures x * m >= m
  {
    assert x * m == (x - 1) * m + m;
    assert (x - 1) * m >= 0;
  }

  /** An exact multiple of `m` leaves no remainder. */
  lemma MultipleHasNoRemainder(n: nat, m: nat)
    requires m > 0
    ensures (n * m) % m == 0
  {
    var q := (n * m) / m;
    var r := (n * m) % m;
    assert n * m == q * m + r;
    assert (n - q) * m == r;
    if q < n {
      MulAtLeast(n - q, m);
    } else if q > n {
      MulAtLeast(q - n, m);
    }
  }

  /** When the image size is an exact multiple of the packet size, every packet but the
      last is read for a whole packet and the last for no image bytes at all. */
  lemma LastPacketEmptyOnMultiple(n: nat, packetSize: nat)
    requires n >= 1 && packetSize > 0
    ensures PacketLen(n, n, n * packetSize, packetSize) == 0
    ensures forall idx :: 1 <= idx < n ==> PacketLen(idx, n, n * packetSize, packetSize) == packetSize
  {
    MultipleHasNoRemainder(n, packetSize);
  }

  /** Three packets where the second read times out and returns no bytes: its empty
      slice adds nothing, the photo is packet 1's whole slice followed by the last
      packet's `n_bytes % packet_size` bytes, and all three frames are still written. */
  lemma UploadSkipsTimedOutPacket(nBytes: nat, packetSize: nat, s: PortState, d1: seq<Byte>, d3: seq<Byte>)
    requires packetSize > 0 && s.isOpen
    requires |d1| >= 11 + packetSize && |d3| >= 11 + nBytes % packetSize
    requires s.input == [Data(d1), Data([]), Data(d3)]
    ensures var (r, t) := UploadFrom(1, 3, nBytes, packetSize, s, []);
      r == Return(d1[11..11 + packetSize] + d3[11..11 + nBytes % packetSize]) &&
      |r.value| == packetSize + nBytes % packetSize &&
      t.outLog == s.outLog + [UploadFrame(1, 3), UploadFrame(2, 3), UploadFrame(3, 3)]
  {
    var photo := d1[11..11 + packetSize] + d3[11..11 + nBytes % packetSize];
    UploadClosedForm(1, 3, nBytes, packetSize, s, []);
    UploadFramesAt(1, 3);
    var frames := UploadFrames(1, 3);
    assert frames == [frames[0], frames[1], frames[2]];
    PhotoSkippingSecond(nBytes, packetSize, d1, d3);
    assert [] + photo == photo;
  }

  lemma PhotoSkippingSecond(nBytes: nat, packetSize: nat, d1: seq<Byte>, d3: seq<Byte>)
    requires packetSize > 0
    requires |d1| >= 11 + packetSize && |d3| >= 11 + nBytes % packetSize
    ensures ExpectedPhoto([Data(d1), Data([]), Data(d3)], 1, 3, nBytes, packetSize)
      == d1[11..11 + packetSize] + d3[11..11 + nBytes % packetSize]
  {
    var input := [Data(d1), Data([]), Data(d3)];
    var last := nBytes % packetSize;
    ExpectedPhotoStep(input, 1, 2, 3, nBytes, packetSize);
    ExpectedPhotoStep(input[1..], 2, 3, 3, nBytes, packetSize);
    ExpectedPhotoStep(input[1..][1..], 3, 4, 3, nBytes, packetSize);
    assert input[1..][1..] == [Data(d3)];
    assert [Data(d3)][1..] == [];
    assert PacketPiece(input, packetSize) == d1[11..11 + packetSize];
    assert PacketPiece(input[1..], packetSize) == Slice([], 11, 11 + packetSize) == [];
    assert PacketPiece([Data(d3)], last) == d3[11..11 + last];
    assert d1[11..11 + packetSize] + ([] + (d3[11..11 + last] + [])) == d1[11..11 + packetSize] + d3[11..11 + last];
  }

  /** On a closed port every write raises the ValueError the loop catches: nothing is
      sent or read and the photo is empty. */
  lemma {:induction false} UploadClosedPort(k: nat, n: nat, nBytes: nat, packetSize: nat, s: PortState, acc: seq<Byte>)
    requires 1 <= k && n < 65536 && !s.isOpen
    ensures UploadFrom(k, n, nBytes, packetSize, s, acc) == (Return(acc), s)
    decreases n + 1 - k
  {
    if k <= n {
      UploadFrameIsFormatCmd(k, n);
      assert UploadPacket(k, n, nBytes, packetSize, s, acc) == (None, s, acc);
      var k1 := k + 1;
      UploadClosedPort(k1, n, nBytes, packetSize, s, acc);
    }
  }

  /** A packet size of 0 makes the last packet's n_bytes % packet_size raise
      ZeroDivisionError, after every frame has been written. */
  lemma {:induction false} UploadZeroPacketSize(k: nat, n: nat, nBytes: nat, s: PortState, acc: seq<Byte>)
    requires 1 <= k <= n < 65536 && s.isOpen
    ensures var (r, t) := UploadFrom(k, n, nBytes, 0, s, acc);
      r == Raise(ZeroDivisionError) && t.outLog == s.outLog + UploadFrames(k, n)
    decreases n - k
  {
    UploadFrameIsFormatCmd(k, n);
    var frame := UploadFrame(k, n);
    var s1 := AfterWrite(s, frame);
    if k < n {
      var s2 := AfterRead(s1, 13);
      assert PacketLen(k, n, nBytes, 0) == 0;
      assert UploadPacket(k, n, nBytes, 0, s, acc).1 == s2;
      assert UploadPacket(k, n, nBytes, 0, s, acc) == (None, s2, acc) by {
        match ReadResult(s1, 13)
        case Raise(_) =>
        case Return(reply) =>
          assert Slice(reply, 11, 11) == [];
          assert acc + [] == acc;
      }
      var k1 := k + 1;
      assert UploadFrom(k, n, nBytes, 0, s, acc) == UploadFrom(k1, n, nBytes, 0, s2, acc);
      UploadZeroPacketSize(k1, n, nBytes, s2, acc);
      assert s2.outLog == s.outLog + [frame];
      assert UploadFrames(k, n) == [frame] + UploadFrames(k1, n);
      AppendAssoc(s.outLog, [frame], UploadFrames(k1, n));
    } else {
      assert UploadPacket(k, n, nBytes, 0, s, acc) == (Some(ZeroDivisionError), s1, acc);
      assert UploadFrames(k, n) == [frame];
    }
  }
}
