# BetterTransferProtocol, modelled in Dafny

This project models the tick-driven file transfer protocol `BetterTransferProtocol` of the
reliable-data-transfer exercise client. It also models the part of `Program.main` that drives it
and frames the checksum input.

A sender reads its input file in chunks of up to 1024 bytes and transmits each chunk in a
1024-byte packet. It moves on to the next chunk on the first tick, and on every tick on which
the network layer hands it a packet. At end of file it transmits five empty packets and closes
the file. A receiver acknowledges every packet it receives with a one-byte packet. An empty
packet ends the receive. Any other packet's payload is appended to the output file. An
"ACKWait" timeout sends the one-byte packet {ACK}.

## Layout

- `wrappers.dfy` (module `Wrappers`): `Option`.
- `java_int.dfy` (module `JavaInt`): Java's truncating `/` and `%` and the `(byte)` cast.
- `engine.dfy` (module `Engine`): the protocol's whole state as a value, `State`. Each Java
  method is one step function over it: `Initial`, `Read`, `SendData`, `ReceiveData`, `Tick` and
  `TimeoutElapsed`. What the world answers during one tick is a parameter, `Environment`:
  - the packet `networkLayer.Receive()` returns (`None` for null);
  - the result of transmitting the data packet;
  - whether the file read or the file write throws an `IOException`.
- `protocol.dfy` (module `Protocol`): class `BetterTransferProtocol`. Its fields are updated in
  place, and the read copies into a 1024-byte array buffer. Each method is proved to perform
  exactly the step of the matching `Engine` function (`Snapshot()` before and after).
- `engine_properties.dfy` (module `EngineProperties`): what one tick does and what it transmits.
  It also holds the sender's invariant between ticks, and the receiver's behaviour over a
  sequence of packets.
- `driver.dfy` (module `Driver`): the loop "tick until `Tick()` returns true", as a function over
  a finite schedule of environments and as a method on the object. It also holds the lemmas
  about a whole session over a lossless, in-order transport.
- `framing.dfy` (module `Framing`): the wait for the checksum challenge, and the buffer made of
  the challenge's four bytes followed by the file content.

## Where the code differs from the protocol's stated intent

The model follows the code as written. The following behaviours of the code differ from what a
reliable transfer is meant to guarantee. Each one is proved about the model.

- **Padding.** Every data packet is the whole 1024-byte `readData` buffer, not only the
  `readSize` bytes read. In a lossless session in which no timeout fires, the receiver's file
  is the sender's file followed by zeros, up to the next multiple of 1024 bytes. It is exactly
  the sender's file only when the file's length is already a multiple of 1024
  (`LosslessSessionPadsFile`). A one-byte file arrives as 1024 bytes (`OneByteFileArrivesPadded`).
- **Timeouts write zero bytes into the received file.** The sender arms the "ACKWait" timeout
  on every tick. In Send mode each timeout transmits {0}, and the receiver writes every
  non-empty packet as data. Over a lossless transport, every packet the sender transmitted ends
  up in the file, the timeouts' {0} packets included (`TimeoutPacketsWritten`). A one-byte
  file with one timeout between two ticks arrives as 1025 bytes whose last byte is 0
  (`TimeoutZeroWrittenToFile`).
- **No duplicate suppression.** A packet delivered twice is written twice (`DuplicateWrittenTwice`).
- **No alternating bit.** The receiver resets `ACK` to 0 at the start of every tick, so every
  acknowledgement it sends is the byte 1 (`ReceiveDataPacket`). The sender never looks at the
  packet it receives: any packet moves it on (`SenderIgnoresPacketContent`).
- **Timeout sends {0} in Send mode.** In Send mode `ACK` is never written, so it stays at its
  default 0 (`TimeoutKeepsSenderInv`).
- **The sender does not wait for the end of stream to arrive.** It transmits the five
  end-of-stream packets and returns true on the same tick (`SendDataEndOfStream`). The receiver
  acknowledges the first marker with {1} (`ReceiverTakesChunks`), but nothing waits for that
  acknowledgement.
- **`Tick` after completion is not idempotent.** A finished sender that receives a packet tries
  to read the closed stream and returns true. Without a packet it returns false
  (`TickAfterEndOfStream`). The driver never ticks again once a tick has returned true
  (`NoTickAfterWorkDone`).

## Model

| member | source | states |
|---|---|---|
| Engine.Initial | rdt/src/protocol/BetterTransferProtocol.java:12-59 | the initial state has the requested mode, nothing read, written or transmitted, and packetno, bytesSent and ACK at Java's default 0; a sender has the file open as input, and a receiver has the output file open |
| Engine.Read | rdt/src/protocol/BetterTransferProtocol.java:86-89 | a read fails exactly when the stream is closed or throws, and reports end of file exactly when the stream is open and nothing remains; otherwise it delivers 1 to 1024 bytes, a full 1024 unless the file ends there |
| Engine.DataPacket | rdt/src/protocol/BetterTransferProtocol.java:86-91 | the transmitted buffer is always 1024 bytes long: the chunk read, followed by zeros |
| Engine.EndOfStreamPackets | rdt/src/protocol/BetterTransferProtocol.java:100-104 | end of stream is five empty packets |
| Engine.SendData | rdt/src/protocol/BetterTransferProtocol.java:79-135 | a sender tick keeps the read position within the file and never changes the mode or the file |
| Engine.Toggle | rdt/src/protocol/BetterTransferProtocol.java:147-152 | the ACK flip gives 0 exactly when ACK was not 0, and always gives 0 or 1 |
| Engine.ReceiveData | rdt/src/protocol/BetterTransferProtocol.java:142-181 | a receiver tick never touches the mode, the input file or the read position |
| Engine.SenderFires | rdt/src/protocol/BetterTransferProtocol.java:82 | the guard of a sender tick; SendDataIdle shows that a tick where it is false changes nothing, and TickPacketno that packetno grows exactly on ticks where it is true |
| Engine.TimeoutElapsed | rdt/src/protocol/BetterTransferProtocol.java:21-26 | a timeout changes nothing but the transmitted packets, and adds at most one, the single byte ACK (TimeoutElapsedEffect and TimeoutKeepsSenderInv say when and what) |
| Engine.Tick | rdt/src/protocol/BetterTransferProtocol.java:63-71 | a tick keeps the state well formed and never changes the mode or the input file |
| EngineProperties.SendDataIdle | rdt/src/protocol/BetterTransferProtocol.java:82-134 | a sender tick that is not the first and has no received packet changes nothing and returns false |
| EngineProperties.SendDataChunk | rdt/src/protocol/BetterTransferProtocol.java:82-118 | after a read of n bytes: packetno grows by 1, one 1024-byte packet is transmitted (the chunk, then zeros), bytesSent grows by n only if the transmission succeeded, and the tick returns true exactly when the transmission failed |
| EngineProperties.SendDataEndOfStream | rdt/src/protocol/BetterTransferProtocol.java:95-114 | at end of file: exactly five empty packets are transmitted, the file is closed, bytesSent and the position stay unchanged, and the tick returns true |
| EngineProperties.SendDataReadError | rdt/src/protocol/BetterTransferProtocol.java:127-131 | a read that throws transmits nothing, leaves bytesSent unchanged and returns true (packetno has already grown) |
| EngineProperties.SenderIgnoresPacketContent | rdt/src/protocol/BetterTransferProtocol.java:80-83 | the sender's step is the same whatever packet it received, and any received packet advances packetno |
| EngineProperties.TickPacketno | rdt/src/protocol/BetterTransferProtocol.java:82-83 | packetno grows by exactly 1 on a Send tick that does work, and stays unchanged otherwise, in both modes |
| EngineProperties.ReceiveDataIdle | rdt/src/protocol/BetterTransferProtocol.java:144-146 | with no packet the receiver changes nothing except resetting ACK to 0, and returns false |
| EngineProperties.ReceiveDataPacket | rdt/src/protocol/BetterTransferProtocol.java:144-177 | with a packet the receiver transmits exactly {1} and leaves ACK at 1. An empty packet closes the file and returns true. A non-empty one is appended verbatim, unless the file is closed or the write throws, which returns true and writes nothing; it leaves the file open or closed as it was. Nothing else in the state changes |
| EngineProperties.TimeoutPacketsWritten | rdt/src/protocol/BetterTransferProtocol.java:21-23 | over a lossless, in-order transport, the receiver writes every packet an unfinished sender transmitted, the timeouts' {0} packets included, then completes on an empty packet, acking each packet with {1} |
| EngineProperties.TimeoutElapsedEffect | rdt/src/protocol/BetterTransferProtocol.java:21-26 | the "ACKWait" tag transmits {ACK} and changes nothing else; any other tag does nothing |
| EngineProperties.InitialSenderInv | rdt/src/protocol/BetterTransferProtocol.java:36-47 | a freshly initialized sender satisfies the sender invariant |
| EngineProperties.SendDataKeepsSenderInv | rdt/src/protocol/BetterTransferProtocol.java:79-135 | an unfinished sender tick keeps the invariant: bytesSent equals the bytes read, packetno equals the number of data packets, and the data packets carry the file read so far in order, padded only after the file's last byte |
| EngineProperties.TimeoutKeepsSenderInv | rdt/src/protocol/BetterTransferProtocol.java:21-26 | a timeout between sender ticks keeps the sender invariant, and the packet it adds is {0} |
| EngineProperties.DeliverPayloads | rdt/src/protocol/BetterTransferProtocol.java:146-177 | non-empty packets fed to an open receiver are appended in arrival order, each acknowledged with {1}, and the receiver then goes on with the packets that follow |
| EngineProperties.DuplicateWrittenTwice | rdt/src/protocol/BetterTransferProtocol.java:169-172 | the same non-empty packet delivered twice is written twice |
| EngineProperties.LosslessTransferPadsFile | rdt/src/protocol/BetterTransferProtocol.java:86-91 | once a sender in its invariant has read the whole file, its data packets followed by an empty packet leave the receiver done. The receiver's file is then the sender's file followed by zeros, with a length that is a multiple of 1024 and less than 1024 bytes longer |
| EngineProperties.TickAfterEndOfStream | rdt/src/protocol/BetterTransferProtocol.java:82-89 | a finished sender returns true on a tick with a packet (the read on the closed stream throws, so nothing is transmitted) and returns false without one |
| EngineProperties.TickAfterEndMarker | rdt/src/protocol/BetterTransferProtocol.java:142-177 | a receiver whose file is closed writes nothing, still acknowledges every packet with {1}, and returns true exactly when a packet arrived |
| Protocol.BetterTransferProtocol.Initialize | rdt/src/protocol/BetterTransferProtocol.java:36-59 | the new object's state is Engine.Initial of the mode and the file |
| Protocol.BetterTransferProtocol.Read | rdt/src/protocol/BetterTransferProtocol.java:86-89 | the read gives Engine.Read's result, advances the position by the bytes read, and copies exactly those bytes to the front of the buffer, leaving the rest as it was |
| Protocol.BetterTransferProtocol.Tick | rdt/src/protocol/BetterTransferProtocol.java:63-71 | the object's new state and its return value are Engine.Tick of its old state |
| Protocol.BetterTransferProtocol.SignalEndOfStream | rdt/src/protocol/BetterTransferProtocol.java:100-107 | five empty packets are added to the transmitted packets, then the input file is closed |
| Protocol.BetterTransferProtocol.SendData | rdt/src/protocol/BetterTransferProtocol.java:79-135 | the object's new state and its return value are Engine.SendData of its old state |
| Protocol.BetterTransferProtocol.ReceiveData | rdt/src/protocol/BetterTransferProtocol.java:142-181 | the object's new state and its return value are Engine.ReceiveData of its old state |
| Protocol.BetterTransferProtocol.TimeoutElapsed | rdt/src/protocol/BetterTransferProtocol.java:21-26 | the object's new state is Engine.TimeoutElapsed of its old state |
| Driver.Drive | rdt/src/protocol/Program.java:66-74 | a run makes at most one tick per schedule entry, at least one if it completed, and uses the whole schedule if it did not complete; the mode and the file never change (that it stops at the first true is NoTickAfterWorkDone and LastTickCompletes) |
| Driver.RunUntilWorkDone | rdt/src/protocol/Program.java:66-74 | the loop on the object ends in the state, the tick count and the result Drive gives for its old state |
| Driver.NoTickAfterWorkDone | rdt/src/protocol/Program.java:66-74 | once a tick has returned true, later schedule entries change nothing |
| Driver.LastTickCompletes | rdt/src/protocol/Program.java:66-74 | in a completed run, the ticks before the last one return false and the last one returns true |
| Driver.PacketnoMonotone | rdt/src/protocol/BetterTransferProtocol.java:82-83 | packetno never decreases over a run, and never changes in Receive mode |
| Driver.DriveKeepsSenderInv | rdt/src/protocol/BetterTransferProtocol.java:79-135 | every run that has not completed keeps the sender invariant |
| Driver.DataChunksCarryFile | rdt/src/protocol/BetterTransferProtocol.java:86-91 | the file cut into chunks and sent as 1024-byte packets gives the file, followed by less than one packet of zeros |
| Driver.SenderCompletes | rdt/src/protocol/BetterTransferProtocol.java:79-135 | if every tick is answered, the sender sends each chunk once, then the five end markers, and completes on the tick after the last chunk |
| Driver.ReceiverTakesChunks | rdt/src/protocol/BetterTransferProtocol.java:142-181 | a fresh receiver given data packets and then the end markers writes the data packets, acks each packet it took with {1}, and completes on the first marker |
| Driver.LosslessSessionPadsFile | rdt/src/protocol/BetterTransferProtocol.java:86-91 | over a lossless, in-order transport both sides complete. The received file is the sent file followed by zeros up to a multiple of 1024 bytes, and every packet the receiver took is acknowledged with {1} |
| Driver.TimeoutZeroWrittenToFile | rdt/src/protocol/BetterTransferProtocol.java:21-23 | a one-byte file sent with one timeout between its two ticks reaches the receiver as 1025 bytes: the padded data packet followed by the timeout's 0 |
| Driver.OneByteFileArrivesPadded | rdt/src/protocol/BetterTransferProtocol.java:86-91 | a one-byte file arrives as that byte followed by 1023 zeros |
| JavaInt.Div | rdt/src/protocol/Program.java:104-106 | Java's integer division by a positive divisor rounds toward zero: quotient times divisor is at most the dividend and within one divisor of it when the dividend is non-negative, and at least the dividend and within one divisor of it when it is negative |
| JavaInt.Rem | rdt/src/protocol/Program.java:103-106 | Java's remainder gives the dividend back from the quotient, takes the dividend's sign and is smaller than the divisor in absolute value |
| JavaInt.ToByte | rdt/src/protocol/Program.java:103-106 | the (byte) cast keeps the low eight bits: it is 0 to 255, congruent to its argument modulo 256, and the identity on 0 to 255 |
| Framing.ChallengePrefix | rdt/src/protocol/Program.java:103-106 | the challenge is framed as four bytes |
| Framing.ChallengePrefixDigits | rdt/src/protocol/Program.java:103-106 | for a non-negative challenge the four bytes are its base-256 digits, least significant first |
| Framing.ChallengeRoundTrip | rdt/src/protocol/Program.java:103-106 | a non-negative challenge is recovered from its four bytes |
| Framing.PrefixRoundTrip | rdt/src/protocol/Program.java:103-106 | four bytes whose last byte is below 128 are the framing of exactly one non-negative challenge |
| Framing.MinusOnePrefix | rdt/src/protocol/Program.java:103-106 | the challenge -1 is framed as 255, 0, 0, 0, not as two's complement |
| Framing.FrameContent | rdt/src/protocol/Program.java:100-106 | the buffer is fileLength + 4 bytes long: the challenge prefix, then the bytes read from index 4 on, then zeros |
| Framing.AwaitChallenge | rdt/src/protocol/Program.java:82-88 | the wait stops at the first poll that is not -1 and returns it; it returns -1 only if every poll was -1 |
| Framing.ChecksumInput | rdt/src/protocol/Program.java:82-106 | no buffer is built exactly when no challenge other than -1 arrives; otherwise the buffer frames the first such challenge with the whole file |

## Left out

- File and stream I/O is abstract. The input file is a sequence plus a read position, and the
  output file is the sequence of bytes written. A read delivers as many bytes as remain, up to
  1024, which is how `FileInputStream` behaves on a regular file. The paths `tobesent.dat` and
  `received.dat` are not modelled.
- File-open failures in `Initialize` (lines 45-47 and 55-57, `IllegalStateException`) are not
  modelled: `Initialize` always succeeds.
- `SetNetworkLayerAPI` and the network layer are not modelled. `Transmit` is modelled as
  appending to `transmitted`. Only the data packet's `TransmissionResult` is an input; the
  results of the other transmissions are ignored by the code and the model alike.
- The timer is not modelled. `SetTimeout(1000, this, "ACKWait")` (line 81) is not a step of the
  model. The asynchronous callback is `TimeoutElapsed`, which a caller may invoke between ticks.
  Timing and concurrency are left out.
- A write that throws may, in Java, leave part of the payload in the file. The model writes
  nothing in that case.
- The `IOException` that `inputStream.close()` or `outputStream.close()` may throw is caught and
  printed in the code. It has no effect on the result and is not modelled.
- Progress output is not modelled: the percentage printing (lines 120-125, including
  `File.length()` and `double`), all `println` and `printStackTrace` output, and
  `Thread.sleep`.
- `client.Tick()` inside the driver loop is not modelled. Its effect on the next tick enters
  through that tick's `Environment`.
- Program.main after the checksum buffer is built is not modelled: the CRC-32 computation
  (lines 108-110), `UploadChecksum`, the `getClosed` loop (lines 114-120), `getSuccess`,
  `Finish`, `Utils.Timeout.Start`/`Stop`, and the client connection. They are network and
  library calls outside the protocol.
- EngineProperties.LosslessTransferPadsFile: describes a run in which no "ACKWait" timeout
  fired; the receiver is given the data packets only. TimeoutPacketsWritten covers the timeouts'
  packets.
- Driver.LosslessSessionPadsFile: describes a session in which no "ACKWait" timeout fires,
  because a schedule only holds ticks. TimeoutZeroWrittenToFile shows a session with a timeout.
- Framing.AwaitChallenge: the polls are a finite sequence. If no challenge ever arrives, the Java
  loop spins forever; the model represents that only by the finite prefixes of the polling.
- Driver.Drive: a schedule is finite, so a driver loop that never ends is represented only by
  its finite prefixes.
- Protocol.BetterTransferProtocol.SendData: `packetno` and `bytesSent` are unbounded naturals.
  Java's 32-bit wrap-around after 2^31 ticks or bytes is not modelled.
- Framing.FrameContent: its `requires` demands `fileLength + 4 < 2^31`, so that the `(int)`
  cast and the array allocation stay in range. Larger files are not modelled.
- Framing.ChecksumInput: it assumes `input.read(fileContent, 4, (int) fileLength)` delivers the
  whole file in one call, and that the four calls of `getChecksumChallenge()` on lines 103-106
  return the challenge the wait found.
- Engine.byte: Java's signed `byte` is represented by its eight bits read as an unsigned number,
  0 to 255. The `(byte)` cast and the bytes written to and read from files keep exactly those
  bits.
