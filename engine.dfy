/**
 * The per-tick protocol engine of BetterTransferProtocol, as pure step functions over the
 * engine's whole state. Each function does what one Java method does to the fields, the
 * input stream, the output stream and the network layer; the class in module Protocol is
 * proved to do exactly the same in place.
 */
module Engine {
  import opened Wrappers

  /** Java's byte, by its eight bits read as an unsigned number (the cast (byte) keeps them). */
  type byte = x: int | 0 <= x < 256

  /** The payload of a network-layer Packet. */
  type Packet = seq<byte>

  /** Size of the readData buffer, and so of every data packet. */
  const MaxPacketSize: nat := 1024

  /** How many empty packets the sender transmits at end of file. */
  const EndOfStreamCopies: nat := 5

  /** The tag the sender arms its timeout with. */
  const AckWaitTag: string := "ACKWait"

  datatype TransferMode = Send | Receive

  datatype TransmissionResult = Success | Failure

  /** What inputStream.read(readData) gives: a byte count >= 0, -1 at end of file, or an IOException. */
  datatype ReadResult = Chunk(readSize: nat) | EndOfFile | ReadError

  /**
   * What the world answers during one tick: the result of networkLayer.Receive() (None is null),
   * the result of transmitting a data packet, and whether the read or the write on the file
   * throws an IOException.
   */
  datatype Environment = Environment(
    received: Option<Packet>,
    transmitResult: TransmissionResult,
    readFails: bool,
    writeFails: bool)

  /**
   * The engine's state: the mode, the input file and how far inputStream has read it, the bytes
   * written to the output file, whether each stream is still open, the fields packetno, bytesSent
   * and ACK, and every packet handed to networkLayer.Transmit so far.
   */
  datatype State = State(
    mode: TransferMode,
    source: seq<byte>,
    cursor: nat,
    sourceOpen: bool,
    sink: seq<byte>,
    sinkOpen: bool,
    packetno: nat,
    bytesSent: nat,
    ack: byte,
    transmitted: seq<Packet>)

  /** The result of one step: the new state, and the boolean the Java method returns. */
  datatype Step = Step(state: State, workDone: bool)

  predicate WellFormed(s: State) {
    s.cursor <= |s.source|
  }

  function Min(a: int, b: int): int {
    if a <= b then a else b
  }

  function Zeros(n: nat): (z: seq<byte>)
    ensures |z| == n
    ensures forall i :: 0 <= i < n ==> z[i] == 0
  {
    seq(n, _ => 0)
  }

  /**
   * Initialize(mode): Send mode opens the input file (its content is `file`); Receive mode
   * creates an empty output file. packetno, bytesSent and ACK start at Java's default 0.
   */
  function Initial(mode: TransferMode, file: seq<byte>): (s: State)
    ensures WellFormed(s) && s.mode == mode && s.cursor == 0 && s.transmitted == []
    ensures s.packetno == 0 && s.bytesSent == 0 && s.ack == 0 && s.sink == []
    ensures mode == Send ==> s.source == file && s.sourceOpen && !s.sinkOpen
    ensures mode == Receive ==> !s.sourceOpen && s.sinkOpen
  {
    State(mode, if mode == Send then file else [], 0, mode == Send, [], mode == Receive, 0, 0, 0, [])
  }

  /**
   * inputStream.read(readData) on a regular file with a 1024-byte buffer: as many bytes as remain,
   * up to 1024; -1 when none remain; an IOException when the stream is closed or the read fails.
   */
  function Read(s: State, fails: bool): (r: ReadResult)
    requires WellFormed(s)
    ensures r.ReadError? <==> !s.sourceOpen || fails
    ensures r.EndOfFile? <==> s.sourceOpen && !fails && s.cursor == |s.source|
    ensures r.Chunk? ==> 0 < r.readSize <= MaxPacketSize && s.cursor + r.readSize <= |s.source|
    ensures r.Chunk? ==> r.readSize == MaxPacketSize || s.cursor + r.readSize == |s.source|
  {
    if !s.sourceOpen || fails then ReadError
    else if s.cursor == |s.source| then EndOfFile
    else Chunk(Min(MaxPacketSize, |s.source| - s.cursor))
  }

  /** The packet built from the whole readData buffer after a read of `chunk`: never trimmed to readSize. */
  function DataPacket(chunk: seq<byte>): (p: Packet)
    requires |chunk| <= MaxPacketSize
    ensures |p| == MaxPacketSize
    ensures p[..|chunk|] == chunk
    ensures forall i :: |chunk| <= i < MaxPacketSize ==> p[i] == 0
  {
    chunk + Zeros(MaxPacketSize - |chunk|)
  }

  /** The five empty packets that signal the end of the transmission. */
  function EndOfStreamPackets(): (ps: seq<Packet>)
    ensures |ps| == EndOfStreamCopies
    ensures forall i :: 0 <= i < |ps| ==> ps[i] == []
  {
    [[], [], [], [], []]
  }

  /** Whether a sender tick does any work: on the very first tick, or when Receive() returned a packet. */
  predicate SenderFires(s: State, env: Environment) {
    s.packetno == 0 || env.received.Some?
  }

  /** SendData(): one sender tick. */
  function SendData(s: State, env: Environment): (r: Step)
    requires WellFormed(s)
    ensures WellFormed(r.state)
    ensures r.state.mode == s.mode && r.state.source == s.source
  {
    if !SenderFires(s, env) then Step(s, false)
    else
      var s1 := s.(packetno := s.packetno + 1);
      match Read(s1, env.readFails)
      case ReadError => Step(s1, true)
      case EndOfFile =>
        Step(s1.(transmitted := s1.transmitted + EndOfStreamPackets(), sourceOpen := false), true)
      case Chunk(n) =>
        var packet := DataPacket(s.source[s.cursor..s.cursor + n]);
        var s2 := s1.(cursor := s.cursor + n, transmitted := s1.transmitted + [packet]);
        if env.transmitResult == Failure then Step(s2, true)
        else Step(s2.(bytesSent := s2.bytesSent + n), false)
  }

  /** `if (ACK == 000) ACK = 001; else ACK = 000;` */
  function Toggle(b: byte): (t: byte)
    ensures t == 0 <==> b != 0
    ensures t == 0 || t == 1
  {
    if b == 0 then 1 else 0
  }

  /** ReceiveData(): one receiver tick. ACK is reset to 0 first, then toggled when a packet arrived. */
  function ReceiveData(s: State, env: Environment): (r: Step)
    ensures r.state.mode == s.mode && r.state.source == s.source && r.state.cursor == s.cursor
  {
    var s0 := s.(ack := 0);
    match env.received
    case None => Step(s0, false)
    case Some(data) =>
      var ack := Toggle(s0.ack);
      var s1 := s0.(ack := ack, transmitted := s0.transmitted + [[ack]]);
      if |data| == 0 then Step(s1.(sinkOpen := false), true)
      else if !s1.sinkOpen || env.writeFails then Step(s1, true)
      else Step(s1.(sink := s1.sink + data), false)
  }

  /** Tick(): dispatch on the transfer mode. */
  function Tick(s: State, env: Environment): (r: Step)
    requires WellFormed(s)
    ensures WellFormed(r.state)
    ensures r.state.mode == s.mode && r.state.source == s.source
  {
    if s.mode == Send then SendData(s, env) else ReceiveData(s, env)
  }

  /** TimeoutElapsed(tag): transmit the one-byte packet {ACK} when the tag is "ACKWait". */
  function TimeoutElapsed(s: State, tag: string): (r: State)
    ensures r.(transmitted := s.transmitted) == s
    ensures s.transmitted <= r.transmitted && |r.transmitted| <= |s.transmitted| + 1
    ensures |r.transmitted| > |s.transmitted| ==> r.transmitted[|s.transmitted|] == [s.ack]
  {
    if tag == AckWaitTag then s.(transmitted := s.transmitted + [[s.ack]]) else s
  }
}
