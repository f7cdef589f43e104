/** The serial port both camera classes talk through, as a scripted device.

    A read is answered by the next scripted reply, cut to the size asked for: a reply
    shorter than that is what a read that timed out returns. An empty script answers
    every read with no bytes. On a port that is not open every write and read raises
    ValueError, as pyserial 2.x does. A scripted `Fault` is a read that raises
    ValueError on an open port, an input with no pyserial 2.x counterpart. The trace
    records, in order, every frame written, every read attempted (with the size asked
    for and the baud rate at that moment) and every baud change. */
module Transport {
  import opened Bytes
  import opened Outcomes

  /** What the device sends in answer to one read. */
  datatype Incoming = Data(bytes: seq<Byte>) | Fault

  datatype Event = Write(frame: seq<Byte>) | Read(size: nat, baud: nat) | SetBaud(baud: nat)

  /** The whole observable state of the port as one value. */
  datatype PortState = PortState(
    baud: nat,
    isOpen: bool,
    input: seq<Incoming>,
    outLog: seq<seq<Byte>>,
    trace: seq<Event>)

  /** The outcome of `write` on a port in state `s`. */
  function WriteResult(s: PortState): (r: Outcome<()>)
    ensures r.Raise? <==> !s.isOpen
    ensures r.Raise? ==> r.exc == ValueError
  {
    if s.isOpen then Return(()) else Raise(ValueError)
  }

  /** The port after `write(frame)`: the frame is sent and logged, or nothing happens. */
  function AfterWrite(s: PortState, frame: seq<Byte>): (t: PortState)
    ensures t.baud == s.baud && t.isOpen == s.isOpen && t.input == s.input
    ensures s.isOpen ==> t.outLog == s.outLog + [frame] && t.trace == s.trace + [Write(frame)]
    ensures !s.isOpen ==> t == s
  {
    if s.isOpen then s.(outLog := s.outLog + [frame], trace := s.trace + [Write(frame)]) else s
  }

  /** The outcome of `read(size)`: at most `size` bytes, of the next scripted reply. */
  function ReadResult(s: PortState, size: nat): (r: Outcome<seq<Byte>>)
    ensures r.Return? ==> |r.value| <= size
    ensures r.Raise? <==> !s.isOpen || (size > 0 && s.input != [] && s.input[0].Fault?)
    ensures r.Raise? ==> r.exc == ValueError
    ensures s.isOpen && size > 0 && s.input != [] && s.input[0].Data? ==>
              r == Return(Take(s.input[0].bytes, size))
    ensures s.isOpen && (size == 0 || s.input == []) ==> r == Return([])
  {
    if !s.isOpen then Raise(ValueError)
    else if size == 0 || s.input == [] then Return([])
    else match s.input[0]
      case Fault => Raise(ValueError)
      case Data(d) => Return(Take(d, size))
  }

  /** The port after `read(size)`: a read on an open port is traced and uses up one
      scripted reply, unless it asked for nothing or there was nothing left. */
  function AfterRead(s: PortState, size: nat): (t: PortState)
    ensures t.baud == s.baud && t.isOpen == s.isOpen && t.outLog == s.outLog
    ensures s.isOpen ==> t.trace == s.trace + [Read(size, s.baud)]
    ensures s.isOpen && size > 0 && s.input != [] ==> t.input == s.input[1..]
    ensures !(s.isOpen && size > 0 && s.input != []) ==> t.input == s.input
    ensures !s.isOpen ==> t == s
  {
    if !s.isOpen then s
    else
      var rest := if size > 0 && s.input != [] then s.input[1..] else s.input;
      s.(input := rest, trace := s.trace + [Read(size, s.baud)])
  }

  /** The port after its `baudrate` attribute is set. */
  function AfterSetBaud(s: PortState, baud: nat): (t: PortState)
    ensures t.baud == baud && t.trace == s.trace + [SetBaud(baud)]
    ensures t.isOpen == s.isOpen && t.input == s.input && t.outLog == s.outLog
  {
    s.(baud := baud, trace := s.trace + [SetBaud(baud)])
  }

  /** The request/reply step every command makes: write `frame`, then `read(size)`.
      A write that raises skips the read. */
  function Exchange(s: PortState, frame: seq<Byte>, size: nat): (res: (Outcome<seq<Byte>>, PortState))
  {
    match WriteResult(s)
    case Raise(e) => (Raise(e), AfterWrite(s, frame))
    case Return(_) =>
      var s1 := AfterWrite(s, frame);
      (ReadResult(s1, size), AfterRead(s1, size))
  }

  /** On an open port an exchange writes the frame, then reads at the current baud, and
      changes nothing else; on a closed one it raises and changes nothing. */
  lemma ExchangeEffect(s: PortState, frame: seq<Byte>, size: nat)
    ensures var (r, t) := Exchange(s, frame, size);
      t.baud == s.baud && t.isOpen == s.isOpen &&
      (s.isOpen ==>
        t.outLog == s.outLog + [frame] &&
        t.trace == s.trace + [Write(frame), Read(size, s.baud)] &&
        (r.Return? ==> |r.value| <= size)) &&
      (!s.isOpen ==> r == Raise(ValueError) && t == s)
  {
  }

  class SerialPort {
    var baud: nat
    var isOpen: bool
    var input: seq<Incoming>
    var outLog: seq<seq<Byte>>
    var trace: seq<Event>

    function State(): PortState
      reads this
    {
      PortState(baud, isOpen, input, outLog, trace)
    }

    constructor (baud: nat, isOpen: bool, input: seq<Incoming>)
      ensures State() == PortState(baud, isOpen, input, [], [])
    {
      this.baud := baud;
      this.isOpen := isOpen;
      this.input := input;
      outLog := [];
      trace := [];
    }

    method Write(frame: seq<Byte>) returns (r: Outcome<()>)
      modifies this
      ensures r == WriteResult(old(State()))
      ensures State() == AfterWrite(old(State()), frame)
    {
      if !isOpen {
        return Raise(ValueError);
      }
      outLog := outLog + [frame];
      trace := trace + [Event.Write(frame)];
      r := Return(());
    }

    method Read(size: nat) returns (r: Outcome<seq<Byte>>)
      modifies this
      ensures r == ReadResult(old(State()), size)
      ensures State() == AfterRead(old(State()), size)
    {
      if !isOpen {
        return Raise(ValueError);
      }
      trace := trace + [Event.Read(size, baud)];
      if size == 0 || input == [] {
        return Return([]);
      }
      var next := input[0];
      input := input[1..];
      match next
      case Fault =>
        r := Raise(ValueError);
      case Data(d) =>
        r := Return(Take(d, size));
    }

    method SetBaudrate(newBaud: nat)
      modifies this
      ensures State() == AfterSetBaud(old(State()), newBaud)
    {
      baud := newBaud;
      trace := trace + [SetBaud(newBaud)];
    }
  }
}
