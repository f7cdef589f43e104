/** The frame codec of the checksummed camera protocol (the module-level code of
    camera_ttl.py): command codes, the baud-rate and packet-size tables, command
    frames with their checksum, and the helpers that turn replies into text, lists and
    capture counts. */
module CameraTtl {
  import opened Bytes
  import opened Outcomes

  // Command codes
  const CmdGetVersion: Byte := 0x01
  const CmdConfig: Byte := 0x03
  const CmdFocus: Byte := 0x09
  const CmdTakePic: Byte := 0x05
  const CmdUpload: Byte := 0x07

  /** The filler for unused parameter slots. */
  const ParamEmpty: Byte := 0x00

  /** Device codes of the supported baud rates. */
  const BaudrateDict: map<nat, Byte> :=
    map[9600 := 0x01, 19200 := 0x02, 38400 := 0x03, 57600 := 0x04,
        115200 := 0x05, 230400 := 0x06, 460800 := 0x07, 921600 := 0x08]

  /** Device codes of the supported packet sizes. */
  const PacketDict: map<nat, Byte> :=
    map[256 := 0x01, 512 := 0x02, 1024 := 0x03, 2048 := 0x04]

  /** The baud rate a device code stands for: the inverse of BaudrateDict. */
  function BaudrateOfCode(code: Byte): (r: Option<nat>)
  {
    match code
    case 1 => Some(9600)
    case 2 => Some(19200)
    case 3 => Some(38400)
    case 4 => Some(57600)
    case 5 => Some(115200)
    case 6 => Some(230400)
    case 7 => Some(460800)
    case 8 => Some(921600)
    case _ => None
  }

  /** The packet size a device code stands for: the inverse of PacketDict. */
  function PacketSizeOfCode(code: Byte): (r: Option<nat>)
  {
    match code
    case 1 => Some(256)
    case 2 => Some(512)
    case 3 => Some(1024)
    case 4 => Some(2048)
    case _ => None
  }

  /** The eight rates have the codes 1..8, one each, and the table can be read backwards. */
  lemma BaudrateDictInvertible()
    ensures BaudrateDict.Keys == {9600, 19200, 38400, 57600, 115200, 230400, 460800, 921600}
    ensures forall rate :: rate in BaudrateDict ==> 1 <= BaudrateDict[rate] <= 8
    ensures forall rate :: rate in BaudrateDict ==> BaudrateOfCode(BaudrateDict[rate]) == Some(rate)
    ensures forall code: Byte :: BaudrateOfCode(code).Some? ==>
              BaudrateOfCode(code).value in BaudrateDict && BaudrateDict[BaudrateOfCode(code).value] == code
    ensures forall r1, r2 :: r1 in BaudrateDict && r2 in BaudrateDict && BaudrateDict[r1] == BaudrateDict[r2] ==> r1 == r2
  {
    forall rate | rate in BaudrateDict
      ensures BaudrateOfCode(BaudrateDict[rate]) == Some(rate)
    {
    }
  }

  /** The four sizes have the codes 1..4, one each, and the table can be read backwards. */
  lemma PacketDictInvertible()
    ensures PacketDict.Keys == {256, 512, 1024, 2048}
    ensures forall size :: size in PacketDict ==> 1 <= PacketDict[size] <= 4
    ensures forall size :: size in PacketDict ==> PacketSizeOfCode(PacketDict[size]) == Some(size)
    ensures forall code: Byte :: PacketSizeOfCode(code).Some? ==>
              PacketSizeOfCode(code).value in PacketDict && PacketDict[PacketSizeOfCode(code).value] == code
    ensures forall s1, s2 :: s1 in PacketDict && s2 in PacketDict && PacketDict[s1] == PacketDict[s2] ==> s1 == s2
  {
    forall size | size in PacketDict
      ensures PacketSizeOfCode(PacketDict[size]) == Some(size)
    {
    }
  }

  // ---------------------------------------------------------------------------
  // int2hexList

  function Pow16(e: nat): (r: nat)
    ensures r >= 1
  {
    if e == 0 then 1 else 16 * Pow16(e - 1)
  }

  /** The number of hexadecimal digits of `v` (at least one). */
  function HexDigitCount(v: nat): (c: nat)
    ensures c >= 1
  {
    if v < 16 then 1 else 1 + HexDigitCount(v / 16)
  }

  lemma {:induction false} HexDigitCountBound(v: nat, e: nat)
    requires 1 <= e && v < Pow16(e)
    ensures HexDigitCount(v) <= e
  {
    if v >= 16 {
      assert e >= 2;
      HexDigitCountBound(v / 16, e - 1);
    }
  }

  /** The number of hex digits "{0:#06x}" prints for `val`: at least four. */
  function HexWidth(val: nat): (w: nat)
    ensures w >= 4
  {
    if HexDigitCount(val) < 4 then 4 else HexDigitCount(val)
  }

  /** int2hexList: `val` printed with at least four hex digits, cut after its first two
      digits, and each part read back as a number. Below 65536 that is the two bytes of
      `val`; from 65536 on the first part keeps two digits and the second part all the
      others, so it may no longer be a byte. */
  function Int2HexList(val: nat): (r: seq<int>)
    ensures |r| == 2
  {
    var unit: int := Pow16(HexWidth(val) - 2);
    [val / unit, val % unit]
  }

  /** Below 65536, int2hexList gives the high and the low byte of the value. */
  lemma Int2HexListTwoBytes(val: nat)
    requires val < 65536
    ensures Int2HexList(val) == [val / 256, val % 256]
    ensures Int2HexList(val)[0] < 256 && Int2HexList(val)[1] < 256
    ensures 256 * Int2HexList(val)[0] + Int2HexList(val)[1] == val
  {
    assert Pow16(4) == 65536;
    HexDigitCountBound(val, 4);
    assert Pow16(2) == 256;
  }

  /** From 65536 on the split is no longer high byte / low byte: 0x12345 becomes
      [0x12, 0x345], whose second part is not a byte, and 0x10000 becomes [0x10, 0x00],
      two bytes that are the high and low byte of 0x1000 instead. */
  lemma Int2HexListWide()
    ensures Int2HexList(0x12345) == [0x12, 0x345]
    ensures Int2HexList(0x10000) == [0x10, 0x00] && 256 * 0x10 + 0x00 == 0x1000
  {
    assert HexDigitCount(0x12345) == 5;
    assert HexDigitCount(0x10000) == 5;
    assert Pow16(3) == 0x1000;
  }

  /** For every value, int2hexList splits it at the digit position "{0:#06x}" cuts at:
      the second part is the value's digits after the first two, and the first part,
      those two digits, is below 256. From 65536 on the leading digit is not zero, so
      the first part is at least 0x10. */
  lemma Int2HexListSplit(val: nat)
    ensures var unit := Pow16(HexWidth(val) - 2);
      Int2HexList(val)[0] * unit + Int2HexList(val)[1] == val &&
      0 <= Int2HexList(val)[1] < unit && 0 <= Int2HexList(val)[0] < 256
    ensures val >= 65536 ==> Int2HexList(val)[0] >= 16
  {
    var unit := Pow16(HexWidth(val) - 2);
    var r := Int2HexList(val);
    assert r[0] == val / unit && r[1] == val % unit;
    HexWidthRange(val);
    SplitBelow256(val, unit);
  }

  /** Cutting a value below 256 units into whole units and a remainder. */
  lemma SplitBelow256(val: nat, unit: nat)
    requires unit > 0 && val < 256 * unit
    ensures (val / unit) * unit + val % unit == val && 0 <= val % unit < unit
    ensures val / unit < 256
    ensures 16 * unit <= val ==> val / unit >= 16
  {
    DivBelow(val, 256, unit);
    if 16 * unit <= val {
      DivAtLeast(val, 16, unit);
    }
  }

  /** The printed width bounds the value: below 256 units of the cut position, and from
      65536 on at least 16 of them. */
  lemma HexWidthRange(val: nat)
    ensures var unit := Pow16(HexWidth(val) - 2);
      val < 256 * unit && (val >= 65536 ==> 16 * unit <= val)
  {
    var w := HexWidth(val);
    var c := HexDigitCount(val);
    HexDigitCountRange(val);
    assert Pow16(w - 1) == 16 * Pow16(w - 2);
    assert Pow16(w) == 16 * Pow16(w - 1);
    if c <= 4 {
      Pow16Monotone(c, 4);
      assert Pow16(4) == 65536;
    }
  }

  lemma {:induction false} Pow16Monotone(a: nat, b: nat)
    requires a <= b
    ensures Pow16(a) <= Pow16(b)
    decreases b - a
  {
    if a < b {
      Pow16Monotone(a, b - 1);
    }
  }

  lemma DivBelow(x: nat, a: nat, b: nat)
    requires b > 0 && x < a * b
    ensures x / b < a
  {
    assert (x / b) * b <= x;
  }

  lemma MulLe(p: nat, a: nat, b: nat)
    requires p <= a
    ensures p * b <= a * b
  {
  }

  lemma DivAtLeast(x: nat, a: nat, b: nat)
    requires b > 0 && a * b <= x
    ensures x / b >= a
  {
    var q := x / b;
    assert x < (q + 1) * b;
    if q + 1 <= a {
      MulLe(q + 1, a, b);
    }
  }

  /** `v` has HexDigitCount(v) digits: it is below 16 to that power and, with two or
      more digits, not below 16 to the power one less. */
  lemma {:induction false} HexDigitCountRange(v: nat)
    ensures v < Pow16(HexDigitCount(v))
    ensures HexDigitCount(v) >= 2 ==> Pow16(HexDigitCount(v) - 1) <= v
  {
    if v >= 16 {
      var q := v / 16;
      HexDigitCountRange(q);
      var c := HexDigitCount(q);
      assert HexDigitCount(v) == c + 1;
      assert v < 16 * (q + 1) && 16 * (q + 1) <= 16 * Pow16(c);
      if c >= 2 {
        assert 16 * Pow16(c - 1) <= 16 * q;
      }
    }
  }

  // ---------------------------------------------------------------------------
  // format_cmd

  const Header: seq<Byte> := [0x7E, 0x00, 0x08, 0x00]
  const Tail: Byte := 0xE7

  function Sum(s: seq<int>): int
  {
    if s == [] then 0 else Sum(s[..|s| - 1]) + s[|s| - 1]
  }

  lemma SumAppend(s: seq<int>, x: int)
    ensures Sum(s + [x]) == Sum(s) + x
  {
    assert (s + [x])[..|s|] == s;
  }

  /** The frame of a command: header, opcode, parameters, checksum, tail. The checksum
      is the sum of every byte before it except the leading 0x7E, modulo 256. */
  function Frame(cmd: Byte, params: seq<Byte>): seq<Byte>
  {
    var body := Header + [cmd] + params;
    body + [Sum(body[1..]) % 256, Tail]
  }

  function IsByte(x: int): bool { 0 <= x < 256 }

  /** format_cmd as a value: `chr` raises ValueError on an opcode or a parameter that is
      not a byte; otherwise the frame. */
  function EncodeCmd(cmd: int, params: seq<int>): (r: Outcome<seq<Byte>>)
    ensures r.Raise? ==> r.exc == ValueError
    ensures r.Return? <==> IsByte(cmd) && forall i :: 0 <= i < |params| ==> IsByte(params[i])
    ensures r.Return? ==> r.value == Frame(cmd, params)
  {
    if IsByte(cmd) && forall i :: 0 <= i < |params| ==> IsByte(params[i]) then
      var ps: seq<Byte> := params;
      Return(Frame(cmd, ps))
    else
      Raise(ValueError)
  }

  /** format_cmd: builds the command string with `chr` (which raises ValueError on a
      non-byte), sums its bytes from the second one on, then lists the bytes and adds
      the checksum and the tail. */
  method FormatCmd(cmd: int, params: seq<int>) returns (r: Outcome<seq<Byte>>)
    ensures r == EncodeCmd(cmd, params)
  {
    if !IsByte(cmd) {
      return Raise(ValueError);
    }
    var sendCommand: seq<Byte> := Header + [cmd];
    var i := 0;
    while i < |params|
      invariant 0 <= i <= |params|
      invariant sendCommand == Header + [cmd] + params[..i]
      invariant forall k :: 0 <= k < i ==> IsByte(params[k])
    {
      if !IsByte(params[i]) {
        return Raise(ValueError);
      }
      sendCommand := sendCommand + [params[i]];
      assert params[..i + 1] == params[..i] + [params[i]];
      i := i + 1;
    }
    assert params[..i] == params;
    var checksum: int := 0;
    var j := 1;
    while j < |sendCommand|
      invariant 1 <= j <= |sendCommand|
      invariant checksum == Sum(sendCommand[1..j])
    {
      var upTo := sendCommand[1..j + 1];
      assert upTo[..|upTo| - 1] == sendCommand[1..j];
      checksum := checksum + sendCommand[j];
      j := j + 1;
    }
    checksum := checksum % 256;
    var sendCommandList: seq<Byte> := [];
    for k := 0 to |sendCommand|
      invariant sendCommandList == sendCommand[..k]
    {
      sendCommandList := sendCommandList + [sendCommand[k]];
    }
    assert sendCommandList == sendCommand;
    assert checksum == Sum(sendCommand[1..]) % 256;
    r := Return(sendCommandList + [checksum, Tail]);
  }

  /** A frame is seven bytes longer than its parameters, holds them at offset 5, and its
      next-to-last byte is the checksum of the bytes from offset 1 up to it. */
  lemma FrameLayout(cmd: Byte, params: seq<Byte>)
    ensures var f := Frame(cmd, params);
      |f| == 7 + |params| && f[..4] == Header && f[4] == cmd &&
      f[5..5 + |params|] == params && f[|f| - 1] == Tail &&
      f[|f| - 2] == Sum(f[1..|f| - 2]) % 256
  {
    var f := Frame(cmd, params);
    assert f[1..|f| - 2] == (Header + [cmd] + params)[1..];
  }

  /** With six parameters a frame has 13 bytes, and byte 11 is the sum of bytes 1..10
      (the 2nd to the 11th) modulo 256. */
  lemma FrameOfSixParams(cmd: Byte, p: seq<Byte>)
    requires |p| == 6
    ensures var f := Frame(cmd, p);
      |f| == 13 &&
      f == [0x7E, 0x00, 0x08, 0x00, cmd, p[0], p[1], p[2], p[3], p[4], p[5], f[11], 0xE7] &&
      f[11] as int == (f[1] as int + f[2] + f[3] + f[4] + f[5] + f[6] + f[7] + f[8] + f[9] + f[10]) % 256
  {
    var body: seq<int> := [0x00, 0x08, 0x00, cmd, p[0], p[1], p[2], p[3], p[4], p[5]];
    assert (Header + [cmd] + p)[1..] == body;
    SumTen(body);
  }

  lemma SumTen(b: seq<int>)
    requires |b| == 10
    ensures Sum(b) == b[0] + b[1] + b[2] + b[3] + b[4] + b[5] + b[6] + b[7] + b[8] + b[9]
  {
    forall k | 0 <= k < 10
      ensures Sum(b[..k + 1]) == Sum(b[..k]) + b[k]
    {
      assert b[..k + 1] == b[..k] + [b[k]];
      SumAppend(b[..k], b[k]);
    }
    assert b[..0] == [] && b[..10] == b;
  }

  /** The checksum sum of two pieces one after the other is the sum of their sums. */
  lemma {:induction false} SumConcat(a: seq<int>, b: seq<int>)
    ensures Sum(a + b) == Sum(a) + Sum(b)
    decreases |b|
  {
    if b == [] {
      assert a + b == a;
    } else {
      var init, last := b[..|b| - 1], b[|b| - 1];
      assert a + b == (a + init) + [last];
      SumConcat(a, init);
      SumAppend(a + init, last);
    }
  }

  /** The checksum of a frame depends on its opcode and parameters only: it is
      0x08 plus the opcode plus the parameters' sum, modulo 256. */
  lemma FrameChecksum(cmd: Byte, params: seq<Byte>)
    ensures Frame(cmd, params)[5 + |params|] == (0x08 + cmd + Sum(params)) % 256
  {
    var body := Header + [cmd] + params;
    var f := Frame(cmd, params);
    assert f == body + [Sum(body[1..]) % 256, Tail];
    assert f[|body|] == Sum(body[1..]) % 256;
    SumOfCommand(cmd, params);
  }

  /** The checksum sum over a command string: the header's bytes after 0x7E add up to
      0x08, then the opcode, then the parameters. */
  lemma SumOfCommand(cmd: Byte, params: seq<Byte>)
    ensures Sum((Header + [cmd] + params)[1..]) == 0x08 + cmd + Sum(params)
  {
    var head: seq<int> := [0x00, 0x08, 0x00, cmd];
    var ps: seq<int> := params;
    assert (Header + [cmd] + params)[1..] == head + ps;
    SumConcat(head, ps);
    SumOfHead(cmd);
  }

  lemma SumOfHead(cmd: Byte)
    ensures Sum([0x00, 0x08, 0x00, cmd]) == 0x08 + cmd
  {
    var e: seq<int> := [];
    assert [0x00] == e + [0x00];
    SumAppend(e, 0x00);
    assert [0x00, 0x08] == [0x00] + [0x08];
    SumAppend([0x00], 0x08);
    assert [0x00, 0x08, 0x00] == [0x00, 0x08] + [0x00];
    SumAppend([0x00, 0x08], 0x00);
    assert [0x00, 0x08, 0x00, cmd] == [0x00, 0x08, 0x00] + [cmd];
    SumAppend([0x00, 0x08, 0x00], cmd);
  }

  /** The frames that test.py sends: get-version (checksum 0x09) and a configuration for
      57600 baud and 256-byte packets (checksum 0x10). */
  lemma KnownFrames()
    ensures EncodeCmd(CmdGetVersion, [ParamEmpty, ParamEmpty, ParamEmpty, ParamEmpty, ParamEmpty, ParamEmpty])
      == Return([0x7E, 0x00, 0x08, 0x00, 0x01, 0x00, 0x00, 0x00, 0x00, 0x00, 0x00, 0x09, 0xE7])
    ensures EncodeCmd(CmdConfig, [BaudrateDict[57600], 0x00, PacketDict[256], 0, 0, 0])
      == Return([0x7E, 0x00, 0x08, 0x00, 0x03, 0x04, 0x00, 0x01, 0x00, 0x00, 0x00, 0x10, 0xE7])
  {
    FrameOfSixParams(CmdGetVersion, [0, 0, 0, 0, 0, 0]);
    FrameOfSixParams(CmdConfig, [4, 0, 1, 0, 0, 0]);
  }

  /** Reads a frame back: checks header, tail and checksum and returns opcode and
      parameters. The camera code never parses frames; this is the inverse that shows
      Frame loses nothing. */
  ghost function ParseFrame(f: seq<Byte>): Option<(Byte, seq<Byte>)>
  {
    if |f| >= 7 && f[..4] == Header && f[|f| - 1] == Tail && f[|f| - 2] == Sum(f[1..|f| - 2]) % 256
    then Some((f[4], f[5..|f| - 2]))
    else None
  }

  /** Parsing a frame gives back what it was built from, and every frame that parses is
      the frame of what it parses to. */
  lemma FrameRoundTrip(cmd: Byte, params: seq<Byte>, f: seq<Byte>)
    ensures ParseFrame(Frame(cmd, params)) == Some((cmd, params))
    ensures ParseFrame(f) == Some((cmd, params)) ==> Frame(cmd, params) == f
  {
    FrameLayout(cmd, params);
    var g := Frame(cmd, params);
    assert g[5..|g| - 2] == params;
    if ParseFrame(f) == Some((cmd, params)) {
      assert f[1..|f| - 2] == (Header + [cmd] + params)[1..];
      assert f == Header + [cmd] + params + [f[|f| - 2], f[|f| - 1]];
    }
  }

  // ---------------------------------------------------------------------------
  // reply2hex

  function HexDigit(v: nat): char
    requires v < 16
  {
    if v < 10 then ('0' as int + v) as char else ('a' as int + v - 10) as char
  }

  /** What binascii.hexlify gives for one byte: two lower-case hex digits. */
  function HexPair(b: Byte): string
  {
    [HexDigit(b / 16), HexDigit(b % 16)]
  }

  /** reply2hex: the bytes as two-digit hex groups joined by single spaces. */
  function Reply2Hex(reply: seq<Byte>): (r: string)
    ensures |r| == if reply == [] then 0 else 3 * |reply| - 1
  {
    if reply == [] then ""
    else if |reply| == 1 then HexPair(reply[0])
    else HexPair(reply[0]) + " " + Reply2Hex(reply[1..])
  }

  /** Byte `i` of the reply is the hex pair at offset 3 * i, followed by a space unless
      it is the last byte. */
  lemma {:induction false} Reply2HexAt(reply: seq<Byte>, i: nat)
    requires i < |reply|
    ensures var r := Reply2Hex(reply);
      r[3 * i..3 * i + 2] == HexPair(reply[i]) && (i < |reply| - 1 ==> r[3 * i + 2] == ' ')
  {
    if i > 0 {
      Reply2HexAt(reply[1..], i - 1);
      var rest := Reply2Hex(reply[1..]);
      var r := Reply2Hex(reply);
      var head := HexPair(reply[0]) + " ";
      assert |head| == 3 && r == head + rest;
      assert r[3 * i..3 * i + 2] == rest[3 * (i - 1)..3 * (i - 1) + 2];
    }
  }

  function HexValue(c: char): (r: Option<nat>)
    ensures r.Some? ==> r.value < 16
  {
    if '0' <= c <= '9' then Some(c as int - '0' as int)
    else if 'a' <= c <= 'f' then Some(c as int - 'a' as int + 10)
    else None
  }

  /** Reads reply2hex's text back into bytes. */
  function HexDecode(t: string): Option<seq<Byte>>
    decreases |t|
  {
    if t == [] then Some([])
    else if |t| < 2 || HexValue(t[0]).None? || HexValue(t[1]).None? then None
    else
      var b: Byte := 16 * HexValue(t[0]).value + HexValue(t[1]).value;
      if |t| == 2 then Some([b])
      else if |t| == 3 || t[2] != ' ' then None
      else match HexDecode(t[3..])
        case None => None
        case Some(rest) => Some([b] + rest)
  }

  lemma HexPairDecodes(b: Byte)
    ensures HexValue(HexPair(b)[0]) == Some(b / 16) && HexValue(HexPair(b)[1]) == Some(b % 16)
  {
  }

  /** reply2hex loses nothing: its text decodes to the very reply. */
  lemma {:induction false} Reply2HexRoundTrip(reply: seq<Byte>)
    ensures HexDecode(Reply2Hex(reply)) == Some(reply)
  {
    if reply != [] {
      var t := Reply2Hex(reply);
      var pair := HexPair(reply[0]);
      HexPairDecodes(reply[0]);
      assert 16 * (reply[0] / 16) + reply[0] % 16 == reply[0];
      if |reply| == 1 {
        assert t == pair;
        assert reply == [reply[0]];
      } else {
        var rest := Reply2Hex(reply[1..]);
        assert t == pair + " " + rest;
        assert t[0] == pair[0] && t[1] == pair[1] && t[2] == ' ' && |t| > 3;
        assert t[3..] == rest;
        Reply2HexRoundTrip(reply[1..]);
        assert reply == [reply[0]] + reply[1..];
      }
    }
  }

  // ---------------------------------------------------------------------------
  // reply2hex_pic and reply2list

  /** What reply2hex_pic returns: the two counts, or False when the status byte is set. */
  datatype PicInfo = Captured(nBytes: nat, nPackets: nat) | NotCaptured

  /** reply2hex_pic: byte 5 is the status; bytes 6..8 are the image size and bytes 9..10
      the packet count, both big-endian. A reply too short for byte 5 raises IndexError;
      one whose size or count slice is empty raises ValueError (int('', 16)); a
      shorter slice gives a number of fewer bytes. */
  function Reply2HexPic(reply: seq<Byte>): (r: Outcome<PicInfo>)
    ensures r == Return(NotCaptured) <==> |reply| > 5 && reply[5] != 0
    ensures r == Raise(IndexError) <==> |reply| <= 5
    ensures r == Raise(ValueError) <==> 5 < |reply| <= 9 && reply[5] == 0
    ensures |reply| >= 11 && reply[5] == 0 ==>
              r == Return(Captured(65536 * reply[6] as int + 256 * reply[7] as int + reply[8] as int,
                                   256 * reply[9] as int + reply[10] as int))
  {
    if |reply| <= 5 then Raise(IndexError)
    else if reply[5] != 0 then Return(NotCaptured)
    else if |reply| <= 9 then Raise(ValueError)
    else
      var sizeBytes := reply[6..9];
      var countBytes := reply[9..Min(11, |reply|)];
      BigEndianTwoThree(reply[6], reply[7], reply[8]);
      assert |reply| >= 11 ==> sizeBytes == [reply[6], reply[7], reply[8]];
      BigEndianTwoThree(reply[9], reply[Min(10, |reply| - 1)], 0);
      assert |reply| >= 11 ==> countBytes == [reply[9], reply[10]];
      Return(Captured(BigEndian(sizeBytes), BigEndian(countBytes)))
  }

  /** reply2list: one integer per reply byte, in order. */
  method Reply2List(reply: seq<Byte>) returns (r: seq<int>)
    ensures |r| == |reply|
    ensures forall i :: 0 <= i < |reply| ==> r[i] == reply[i]
  {
    r := [];
    for i := 0 to |reply|
      invariant |r| == i
      invariant forall k :: 0 <= k < i ==> r[k] == reply[k]
    {
      r := r + [reply[i]];
    }
  }
}
