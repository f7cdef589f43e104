# Camera serial protocols in Dafny

This project models the two camera drivers of the repository. Each one talks to a camera module over a serial link:

- **camera_ttl.py**: the checksummed protocol.
  - A frame is the header `7E 00 08 00`, an opcode, six parameter bytes, a checksum and the tail `E7`. The checksum is the sum of bytes 1..10 modulo 256.
  - Replies to commands are 13 bytes long.
  - A picture is uploaded one numbered packet at a time. Each reply carries its slice of the image at offset 11.
  - The module-level helpers modelled are `int2hexList`, `format_cmd`, `reply2hex`, `reply2hex_pic`, `reply2list` and the baud-rate and packet-size tables.
  - The `CameraSerial` class modelled has `config_connection`, `send_cmd`, `take_picture`, `upload_img` and `reset`.
- **camera_rs232.py**: the framebuffer protocol.
  - Commands start with `56 00`; acknowledgements start with `76 00` and are five bytes long.
  - To take a picture, the driver stops the framebuffer, asks for its length and reads that many bytes in one read. It then resumes the framebuffer.
  - The `CameraSerial232` class is modelled with `GET_VERSION`, `_FBUF_CTRL`, `_GET_FBUF_LEN`, `_READ_FBUF`, `take_picture`, `_save_img`, `resize` and `set_baudrate`.

Files:

- `outcomes.dfy`: the Python exceptions the code raises and `Outcome<T>`, which is a return value or a raised exception.
- `bytes.dfy`: bytes, Python slicing clipped at the end of the string, and big-endian numbers. Big-endian here is what `int(hexlify(s), 16)` computes for a non-empty `s` (Python raises ValueError on an empty one; every call site rules that case out).
- `transport.dfy`: the serial port.
  - It is a class with the port state as fields, over a script of replies.
  - Each read returns the next scripted reply, cut to the requested size. A shorter reply stands for a timeout.
  - A scripted `Fault` makes the read raise ValueError. No read on an open pyserial 2.x port does that, so `Fault` is a hypothetical input (see "## Left out").
  - On a closed port, every write and read raises ValueError, as pyserial 2.x does (its `portNotOpenError` is a ValueError). That is the version the model assumes: pyserial 3.x raises SerialException there instead, which the `except ValueError` of upload_img would not catch.
  - A trace records every write, every read (with its size and the baud rate at that moment) and every baud change.
- `camera_ttl.dfy`: the frame codec of camera_ttl.py.
- `camera_ttl_serial.dfy`: the `CameraSerial` class of camera_ttl.py.
- `camera_rs232.dfy`: the `CameraSerial232` class of camera_rs232.py.

Every method that changes state is proved against a function of the state before the call. The function returns the method's outcome together with the state after it. The lemmas state what those functions promise.

## Model

| member | source | states |
|---|---|---|
| Bytes.Take | camera_rs232.py:21 | `s[:n]` has `min(n, len(s))` bytes, which are the first bytes of `s` |
| Bytes.Slice | camera_ttl.py:207 | `s[lo:hi]` is clipped at the end of `s`, and byte `i` of the slice is byte `lo + i` of `s` |
| Bytes.Drop | camera_rs232.py:23 | `s[n:]` holds the bytes after the first `n`, and the prefix followed by it gives back `s` |
| Bytes.SliceOfTake | camera_ttl.py:206-207 | slicing a read of `13 + len` bytes at `[11, 11 + len)` gives the same bytes as slicing the whole reply |
| Bytes.BigEndianBound | camera_rs232.py:46 | the number that k length bytes spell is below 256^k |
| Bytes.BigEndianOfToBigEndian | camera_rs232.py:46 | writing a number as k big-endian bytes and reading them back gives the number |
| Bytes.ToBigEndianOfBigEndian | camera_rs232.py:46-48 | the numeric length and the raw length bytes carry the same information: the bytes are the number written back in as many bytes |
| Bytes.BigEndianTwoThree | camera_ttl.py:113-114 | two hex-joined bytes are `256*a + b`; three are `65536*a + 256*b + c` |
| Transport.ExchangeEffect | camera_ttl.py:167-168 | writing a frame and then reading, on an open port: the frame is logged, then one read at the current baud; the reply is at most the size asked for. On a closed port it raises ValueError and nothing changes |
| CameraTtl.BaudrateDictInvertible | camera_ttl.py:32-35 | the eight rates map one-to-one onto the codes 1..8, and the table can be read backwards |
| CameraTtl.PacketDictInvertible | camera_ttl.py:38-39 | the four packet sizes map one-to-one onto the codes 1..4, and the table can be read backwards |
| CameraTtl.Int2HexList | camera_ttl.py:42-49 | the value printed with at least four hex digits and cut after its first two digits: two numbers |
| CameraTtl.Int2HexListTwoBytes | camera_ttl.py:42-49 | below 65536, the result is the high byte and the low byte, and `256*hi + lo` gives back the value |
| CameraTtl.Int2HexListSplit | camera_ttl.py:42-49 | for every value, with `unit` 16 to the number of printed digits after the first two: `hi * unit + lo == val`, `lo < unit` and `hi < 256`; from 65536 on `hi >= 0x10`, so the second part holds all the digits after the first two |
| CameraTtl.Int2HexListWide | camera_ttl.py:48-49 | instances of that rule: 0x12345 gives [0x12, 0x345], whose second part is not a byte, and 0x10000 gives [0x10, 0x00], the high and low byte of 0x1000 |
| CameraTtl.EncodeCmd | camera_ttl.py:81-91 | raises ValueError exactly when the opcode or a parameter is not a byte (`chr`); otherwise returns the frame |
| CameraTtl.FormatCmd | camera_ttl.py:67-91 | the three loops (chr of each parameter, the checksum sum, ord of each character) produce exactly the EncodeCmd result |
| CameraTtl.FrameLayout | camera_ttl.py:81-91 | a frame is 7 bytes longer than its parameters, with header, opcode, parameters at offset 5, checksum and tail |
| CameraTtl.FrameOfSixParams | camera_ttl.py:72 | with six parameters a frame is 13 bytes, and byte 11 is the sum of bytes 1..10 (the 2nd to the 11th) modulo 256 |
| CameraTtl.SumTen | camera_ttl.py:84 | the checksum sum over ten bytes, written out |
| CameraTtl.SumAppend | camera_ttl.py:84 | the checksum sum grows by each byte added |
| CameraTtl.SumConcat | camera_ttl.py:84 | the checksum sum over two pieces, one after the other, is the sum of their sums |
| CameraTtl.FrameChecksum | camera_ttl.py:81-84 | a frame's checksum byte is 0x08 plus the opcode plus the sum of the parameters, modulo 256 |
| CameraTtl.KnownFrames | test.py:5-6 | format_cmd gives exactly the two frames written out in test.py: get-version, with checksum 0x09, and the configuration for 57600 baud and 256-byte packets, with checksum 0x10 |
| CameraTtl.FrameRoundTrip | camera_ttl.py:67-91 | a frame parses back to its opcode and parameters, and every frame that parses is the frame of what it parses to |
| CameraTtl.Reply2Hex | camera_ttl.py:94-100 | the text of a reply of n bytes is `3n - 1` characters long (empty for no bytes) |
| CameraTtl.Reply2HexAt | camera_ttl.py:100 | byte i appears as its two hex digits at offset 3i, followed by a space unless it is the last byte |
| CameraTtl.HexPairDecodes | camera_ttl.py:100 | each hexlify digit pair decodes to its byte |
| CameraTtl.Reply2HexRoundTrip | camera_ttl.py:94-100 | reply2hex loses nothing: its text decodes back to the reply |
| CameraTtl.Reply2HexPic | camera_ttl.py:103-115 | gives False exactly when status byte 5 is set. It raises IndexError exactly when the reply has 5 bytes or fewer, and ValueError exactly when a count slice is empty. A full reply gives the size from bytes 6..8 and the packet count from bytes 9..10, big-endian |
| CameraTtl.Reply2List | camera_ttl.py:118-127 | one integer per reply byte, in order |
| CameraTtlSerial.CameraSerial.ConfigConnection | camera_ttl.py:148-158 | outcome and new port state are ConfigConnectionSpec of the old state |
| CameraTtlSerial.ConfigConnectionOrder | camera_ttl.py:148-158 | returns exactly when the port is open and the read returns; the frame is written, 13 bytes are read at the old baud, and only then is the baud changed. If the write or read raises, the baud is kept |
| CameraTtlSerial.CameraSerial.SendCmd | camera_ttl.py:160-173 | outcome and new port state are SendCmdSpec of the old state |
| CameraTtlSerial.SendCmdReplies | camera_ttl.py:160-173 | writes the frame and reads 13 bytes without changing the baud. The text is reply2hex of the reply. `rlist` adds the list exactly when set, and the list is byte for byte the reply |
| CameraTtlSerial.CameraSerial.TakePicture | camera_ttl.py:175-185 | outcome and new port state are TakePictureSpec of the old state |
| CameraTtlSerial.TakePictureCounts | camera_ttl.py:175-185 | on a full 13-byte reply: a set status byte makes the unpacking raise TypeError; otherwise the text and the big-endian counts are returned |
| CameraTtlSerial.CameraSerial.Reset | camera_ttl.py:215-217 | outcome and new port state are ResetSpec of the old state |
| CameraTtlSerial.ResetEffect | camera_ttl.py:215-217 | the configuration frame is `7E 00 08 00 03 05 00 02 00 00 00 12 E7`; the port ends at 115200 baud when the reply arrives, and keeps its baud otherwise |
| CameraTtlSerial.CameraSerial.UploadPacketStep | camera_ttl.py:199-212 | one pass of the loop body; outcome, port state and photo are UploadPacket of the old ones |
| CameraTtlSerial.CameraSerial.UploadImg | camera_ttl.py:187-213 | the loop's invariant ties it to UploadFrom; outcome and port state are UploadFrom of the old state from packet 1 |
| CameraTtlSerial.UploadFrameIsFormatCmd | camera_ttl.py:196-201 | the UPLOAD frame of packet k of n is format_cmd of `[1, k_hi, k_lo, n_hi, n_lo, 0]` and is 13 bytes long |
| CameraTtlSerial.UploadPacketOpen | camera_ttl.py:202-212 | on an open port, one packet writes its frame and reads `13 + len` bytes. A raising read adds nothing; a reply adds its bytes 11..11+len |
| CameraTtlSerial.UploadFromStep | camera_ttl.py:198-212 | on an open port the loop goes on to the next packet with one reply used up |
| CameraTtlSerial.UploadClosedForm | camera_ttl.py:196-213 | on an open port the upload returns ExpectedPhoto. It writes the frames of packets k..n in order, and the trace is each frame followed by its read. There is one reply per packet |
| CameraTtlSerial.UploadClosedFormStep | camera_ttl.py:198-212 | the inductive step of the closed form |
| CameraTtlSerial.UploadEndStep | camera_ttl.py:198-212 | the port state after one more packet, in closed form |
| CameraTtlSerial.ExpectedPhotoStep | camera_ttl.py:207-210 | the photo grows by one packet's piece, in index order |
| CameraTtlSerial.UploadFramesAt | camera_ttl.py:198-201 | there are n+1-k frames, and frame j is the one for packet k+j |
| CameraTtlSerial.UploadEventsAt | camera_ttl.py:198-210 | there are 2(n+1-k) events: the write of each packet's frame, then its read |
| CameraTtlSerial.UploadWritesOneFramePerPacket | camera_ttl.py:196-213 | the photo is ExpectedPhoto; exactly n frames are written, frame k-1 being packet k's; no packets writes nothing and returns an empty photo |
| CameraTtlSerial.UploadNoPackets | camera_ttl.py:196-198 | with no packets nothing is written or read, the photo is empty and the port is unchanged, for any port state and packet size |
| CameraTtlSerial.UploadReadSizes | camera_ttl.py:204-210 | the baud never changes. Each packet k writes and then reads `13 + packet_size` bytes, except the last, which reads `13 + n_bytes % packet_size` |
| CameraTtlSerial.ExpectedPhotoLength | camera_ttl.py:204-210 | with whole replies, the photo has a full packet for every packet but the last, plus `n_bytes % packet_size` bytes |
| CameraTtlSerial.UploadPhotoLength | camera_ttl.py:204-210 | with whole replies, the photo is `(n-1)*packet_size + n_bytes % packet_size` bytes long. When n_bytes is exactly n packets, that is one packet short of n_bytes |
| CameraTtlSerial.LastPacketEmptyOnMultiple | camera_ttl.py:204-205 | when n_bytes is exactly n packets, every packet but the last is read for `packet_size` image bytes and the last for none |
| CameraTtlSerial.UploadSkipsTimedOutPacket | camera_ttl.py:202-212 | three packets with the second read timing out and returning no bytes: its empty slice adds nothing. The photo is packet 1's whole slice followed by the last packet's `n_bytes % packet_size` bytes, and all three frames are still written, in order |
| CameraTtlSerial.PhotoSkippingSecond | camera_ttl.py:207-211 | the photo of that scenario, spelled out |
| CameraTtlSerial.UploadClosedPort | camera_ttl.py:202-212 | on a closed port every write's ValueError is caught: nothing changes and the photo stays as it was |
| CameraTtlSerial.UploadZeroPacketSize | camera_ttl.py:204-205 | a packet size of 0 makes the last packet raise ZeroDivisionError, after every frame has been written |
| CameraRs232.CameraSerial232.GetVersion | camera_rs232.py:13-24 | outcome and new state are GetVersionSpec of the old state |
| CameraRs232.GetVersionSplitsReply | camera_rs232.py:13-24 | writes `56 00 11 00` and reads 16 bytes. The result holds up to five numbers (the first reply bytes) and the version text (the rest), which together make up the whole reply. The fields are unchanged |
| CameraRs232.CameraSerial232.FbufCtrl | camera_rs232.py:26-37 | outcome and new state are FbufCtrlSpec of the old state |
| CameraRs232.FbufCtrlReply | camera_rs232.py:26-37 | writes the stop or resume frame and reads 5 bytes. It returns false exactly when byte 3 is 3, and raises IndexError on a reply under 4 bytes. The fields and the baud are unchanged |
| CameraRs232.CameraSerial232.GetFbufLen | camera_rs232.py:39-50 | outcome and new state are GetFbufLenSpec of the old state |
| CameraRs232.GetFbufLenReply | camera_rs232.py:39-50 | status 3 gives false with the fields kept. An empty length slice raises ValueError. Otherwise the raw length is `d[5:]` of the 9-byte read (1 to 4 bytes), the numeric length is its big-endian value, and each determines the other |
| CameraRs232.CameraSerial232.ReadFbuf | camera_rs232.py:56-86 | outcome and new state are ReadFbufSpec of the old state |
| CameraRs232.ReadFbufRejected | camera_rs232.py:67-71 | a nonzero status gives false after one 5-byte read; nothing more is read or written and the image is untouched |
| CameraRs232.ReadFbufAccepted | camera_rs232.py:67-86 | a zero status reads `_int_fbuf_len` bytes as the image, then 5 bytes it does not check, then resumes the framebuffer. It answers true whatever the trailing ack, and the trace is exactly those reads and writes. A zero length reads nothing into the image and uses up no reply, so the 5-byte read takes the next one |
| CameraRs232.ReadImageAccepted | camera_rs232.py:73-86 | after a zero status, the image is the next reply cut to `_int_fbuf_len` bytes, or empty with no reply used up when that length is 0. One more reply is read and ignored, then the resume frame is written and answered, and the result is true |
| CameraRs232.ReadImageReads | camera_rs232.py:74-78 | the image read uses up one reply (none for a zero length, where `read(size=0)` answers an empty string) and the trailing read one more, both traced at the current baud; what follows is the resume step on the image read |
| CameraRs232.ResumeAnswered | camera_rs232.py:85 | resuming writes `56 00 36 01 02`, uses up one reply and does not raise when the reply has a status byte |
| CameraRs232.ReadFbufOutLog | camera_rs232.py:65-86 | true only after writing the read frame and then the resume frame; the length fields are never changed |
| CameraRs232.CameraSerial232.SaveImg | camera_rs232.py:105-118 | result and new state are SaveImgSpec: the image goes to the file and the field is cleared, or, when the file cannot be written, nothing changes |
| CameraRs232.CameraSerial232.TakePicture | camera_rs232.py:88-103 | outcome, saved file contents and new state are TakePictureSpec of the old state |
| CameraRs232.CaptureStopFails | camera_rs232.py:89-103 | a stop that does not answer true is the answer, and only the stop frame is written |
| CameraRs232.CaptureLengthFails | camera_rs232.py:92-100 | after a stop, a length query that does not answer true is the answer, and only the stop and length frames are written |
| CameraRs232.CaptureEndsAtLength | camera_rs232.py:92-100 | a length query that does not answer true ends the capture with its own outcome and state |
| CameraRs232.StopAndLengthLog | camera_rs232.py:89-92 | after a successful stop and length query, the port is still open and the frames written are the stop frame and the length query |
| CameraRs232.CaptureStepsSucceed | camera_rs232.py:89-94 | the capture answers true only when the stop and the length query both did |
| CameraRs232.CaptureAfterLength | camera_rs232.py:89-94 | after a successful stop and length query, the capture is the framebuffer read, with the image cleared |
| CameraRs232.CaptureTrueAfterAll | camera_rs232.py:88-103 | true only when the stop and the length query both answered true. The frames written are, in order: stop, length query, read frame for the stored length bytes, resume |
| CameraRs232.TakePictureSavesOnlyOnTrue | camera_rs232.py:94-96 | a file is written exactly when the capture answers true and the file can be written. The file holds the captured image and the field is then cleared; the answer and the port are the capture's |
| CameraRs232.StopAndMeasure | camera_rs232.py:89-92 | a stop answered with a status other than 3 and a 9-byte length reply: both answer true, the fields hold the reply's length bytes and their value, and two replies are used up |
| CameraRs232.CaptureSucceeds | camera_rs232.py:89-94 | with every reply as expected, the capture answers true holding the first `BigEndian(d[5:])` image bytes, and every reply is used up. That includes a zero length, where no image reply is read |
| CameraRs232.TakePictureSucceeds | camera_rs232.py:88-103 | with every reply as expected, take_picture answers true, and the first `BigEndian(d[5:])` image bytes are saved (or are kept in the field when no file can be written) |
| CameraRs232.CameraSerial232.Resize | camera_rs232.py:120-138 | outcome and new state are ResizeSpec of the old state |
| CameraRs232.ResizeAckExact | camera_rs232.py:120-138 | the two resize commands are 9 bytes and differ only in the last byte (0x00 large, 0x11 small). The result is true exactly when the 5 bytes read are `76 00 31 00 00`; the fields and the baud are unchanged |
| CameraRs232.BaudCodeTable | camera_rs232.py:141-145 | exactly five rates are supported, each with a distinct two-byte code |
| CameraRs232.CameraSerial232.SetBaudrate | camera_rs232.py:140-155 | outcome and new state are SetBaudrateSpec of the old state |
| CameraRs232.SetBaudrateOnlyOnAck | camera_rs232.py:140-155 | the port switches to the new rate exactly when the result is true, which needs a 5-byte read of exactly `76 00 24 00 00`. An unsupported rate raises KeyError with nothing written. The fields never change |

## Left out

- Serial I/O itself is modelled by the scripted port in transport.dfy. That covers timeouts (a short or empty reply) and pyserial 2.x's ValueError on a closed port. Other pyserial exceptions (SerialException, SerialTimeoutException on writes) are not modelled.
- `save_img` in camera_ttl.py writes the photo to a file under a bare `except`. It is not modelled; `UploadImg` returns the photo that upload_img hands to it. The `fn` parameters name files and are left out; in camera_rs232.py, whether the file can be written is the `writable` parameter of `TakePicture`.
- `format_cmd_hex` is not modelled, because nothing calls it. The two `main()` scripts are not modelled either: they are fixed command sequences. `print` output, `time.sleep` delays and `_hexlify` (used only for printing) change nothing observable in the model.
- In Python, the fields `_hex_fbuf_len`, `_int_fbuf_len` and `_img_d` do not exist until take_picture sets them. Calling `_READ_FBUF` earlier would raise AttributeError. The model starts them empty and zero, so it does not model that AttributeError.
- `Fault`, the scripted read that raises ValueError on an open port, has no pyserial 2.x counterpart: there a failing read on an open port raises SerialException, which upload_img does not catch, and SerialException is not modelled. The except clause of upload_img is reached in pyserial 2.x only by the closed port (`UploadClosedPort`); a read that skips a packet is a timed-out one (`UploadSkipsTimedOutPacket`).
- A read keeps only the bytes it asked for: the rest of a scripted reply is dropped, and a reply is never split over two reads. So bytes that arrive late, or more bytes than a read asked for, never reach the next read. The model cannot express the loss of step between commands and replies that this causes on a real port, such as a short read before a baud change or a short upload packet shifting the window of the next packet.
- Int2HexList, UploadImg: the value, the image size, the packet count and the packet size are natural numbers. Python also accepts negative ones: `int2hexList(-1)` raises ValueError (the slice `'-0x001'[2:]` is `'x001'`), and a negative `packet_size` gives a floor-mod length for the last packet. No call in the two drivers passes a negative value.
- Setting pyserial's `baudrate` to a rate the driver rejects is not modelled; the setter always succeeds here.
- The upload lemmas are stated for fewer than 65536 packets. From 65536 on, `int2hexList` no longer yields the high and low byte (`Int2HexListSplit`, `Int2HexListWide`). The second part may exceed 255, and format_cmd then raises ValueError. It may also be the byte pair of another number: 65536 gives [0x10, 0x00], so a frame for 65536 packets announces 4096 and raises nothing. `UploadFrom` and `UploadImg` themselves cover every count.
- `UploadImg` follows the code: the last packet is read for `n_bytes % packet_size` bytes, which is 0 when the image size is an exact multiple of the packet size (`UploadPhotoLength`). That last packet then adds nothing. No full-packet rule is added.
- `GetFbufLenReply` follows the code: the length is `d[5:]` of a 9-byte read, up to four bytes, not a fixed three-byte field.
- No checksum or header of any reply is checked, because the code checks none. The model does not check them either.
