/**
 * BetterTransferProtocol as a class whose methods update its fields in place. The network layer,
 * the input file and the output file are abstract: `transmitted` records every packet handed to
 * Transmit, `source` and `cursor` stand for inputStream, `output` for what was written to
 * outputStream. Every method is proved to perform exactly the step the matching function of
 * module Engine describes.
 */
module Protocol {
  import opened Wrappers
  import opened Engine
  import opened EngineProperties

  class BetterTransferProtocol {
    const transferMode: TransferMode
    /** Content of the input file (Send mode). */
    const source: seq<byte>
    /** How many bytes inputStream has delivered. */
    var cursor: nat
    var inputOpen: bool
    /** Bytes written to the output file (Receive mode). */
    var output: seq<byte>
    var outputOpen: bool
    var packetno: nat
    var bytesSent: nat
    var ack: byte
    /** Every packet handed to networkLayer.Transmit, in order. */
    var transmitted: seq<Packet>

    ghost predicate Valid()
      reads this
    {
      cursor <= |source|
    }

    /** The whole state of the object as a value of Engine.State. */
    function Snapshot(): (s: State)
      reads this
      ensures s.mode == transferMode && s.source == source && s.cursor == cursor
    {
      State(transferMode, source, cursor, inputOpen, output, outputOpen, packetno, bytesSent, ack, transmitted)
    }

    /** Initialize(mode): open the input file (Send) or create the output file (Receive). */
    constructor Initialize(mode: TransferMode, file: seq<byte>)
      ensures Valid()
      ensures Snapshot() == Engine.Initial(mode, file)
    {
      transferMode := mode;
      source := if mode == Send then file else [];
      cursor := 0;
      inputOpen := mode == Send;
      output := [];
      outputOpen := mode == Receive;
      packetno := 0;
      bytesSent := 0;
      ack := 0;
      transmitted := [];
    }

    /** inputStream.read(readData): copy the next chunk into the front of the buffer, in place. */
    method Read(readData: array<byte>, fails: bool) returns (r: ReadResult)
      requires Valid() && readData.Length == MaxPacketSize
      modifies this`cursor, readData
      ensures Valid()
      ensures r == Engine.Read(old(Snapshot()), fails)
      ensures cursor == old(cursor) + (if r.Chunk? then r.readSize else 0)
      ensures r.Chunk? ==> readData[..] == source[old(cursor)..cursor] + old(readData[r.readSize..])
      ensures !r.Chunk? ==> readData[..] == old(readData[..])
    {
      r := Engine.Read(Snapshot(), fails);
      if r.Chunk? {
        var n := r.readSize;
        var i := 0;
        while i < n
          modifies readData
          invariant 0 <= i <= n
          invariant readData[..i] == source[cursor..cursor + i]
          invariant readData[i..] == old(readData[i..])
        {
          readData[i] := source[cursor + i];
          assert readData[..i + 1] == readData[..i] + [readData[i]];
          i := i + 1;
        }
        assert readData[..] == readData[..n] + readData[n..];
        cursor := cursor + n;
      }
    }

    /** Tick(): run the step of the current mode. */
    method Tick(env: Environment) returns (workDone: bool)
      requires Valid()
      modifies this
      ensures Valid()
      ensures Step(Snapshot(), workDone) == Engine.Tick(old(Snapshot()), env)
    {
      if transferMode == Send {
        workDone := SendData(env);
      } else {
        workDone := ReceiveData(env);
      }
    }

    /** End of file: transmit the empty packet five times, then close the input file. */
    method SignalEndOfStream()
      modifies this`transmitted, this`inputOpen
      ensures transmitted == old(transmitted) + [[], [], [], [], []]
      ensures !inputOpen
    {
      transmitted := transmitted + [[]];  // networkLayer.Transmit
      transmitted := transmitted + [[]];
      transmitted := transmitted + [[]];
      transmitted := transmitted + [[]];
      transmitted := transmitted + [[]];
      inputOpen := false;
    }

    /** SendData(): read and transmit the next chunk, or the end-of-stream packets. */
    method SendData(env: Environment) returns (workDone: bool)
      requires Valid()
      modifies this
      ensures Valid()
      ensures Step(Snapshot(), workDone) == Engine.SendData(old(Snapshot()), env)
    {
      ghost var before := Snapshot();
      var receivedPacket := env.received;
      // Arming the "ACKWait" timeout is left to the environment, which may call TimeoutElapsed.
      if packetno == 0 || receivedPacket.Some? {
        packetno := packetno + 1;
        var readData := new byte[MaxPacketSize](_ => 0);
        assert readData[..] == Zeros(MaxPacketSize);
        var start := cursor;
        var readResult := Read(readData, env.readFails);
        assert readResult == Engine.Read(before, env.readFails);
        match readResult
        case ReadError =>
          SendDataReadError(before, env);
          return true;
        case EndOfFile =>
          SendDataEndOfStream(before, env);
          SignalEndOfStream();
          return true;
        case Chunk(readSize) =>
          SendDataChunk(before, env);
          assert Zeros(MaxPacketSize)[readSize..] == Zeros(MaxPacketSize - readSize);
          assert readData[..] == DataPacket(source[start..start + readSize]);
          transmitted := transmitted + [readData[..]];  // networkLayer.Transmit
          if env.transmitResult == Failure {
            return true;
          }
          bytesSent := bytesSent + readSize;
      } else {
        SendDataIdle(before, env);
      }
      return false;
    }

    /** ReceiveData(): take one packet, acknowledge it, then finish or append its payload. */
    method ReceiveData(env: Environment) returns (workDone: bool)
      requires Valid()
      modifies this
      ensures Valid()
      ensures Step(Snapshot(), workDone) == Engine.ReceiveData(old(Snapshot()), env)
    {
      ack := 0;
      var receivedPacket := env.received;
      if receivedPacket.Some? {
        ack := Toggle(ack);
        var data := receivedPacket.value;
        transmitted := transmitted + [[ack]];  // networkLayer.Transmit
        if |data| == 0 {
          outputOpen := false;
          return true;
        }
        if !outputOpen || env.writeFails {
          return true;
        }
        output := output + data;
      }
      return false;
    }

    /** TimeoutElapsed(tag): transmit {ACK} when the tag is "ACKWait". */
    method TimeoutElapsed(tag: string)
      requires Valid()
      modifies this`transmitted
      ensures Valid()
      ensures Snapshot() == Engine.TimeoutElapsed(old(Snapshot()), tag)
    {
      if tag == AckWaitTag {
        transmitted := transmitted + [[ack]];  // networkLayer.Transmit
      }
    }
  }
}
