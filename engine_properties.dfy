/**
 * What the engine's step functions do, tick by tick and over runs: which ticks transmit, what
 * they transmit, what reaches the output file, and the invariant the sender keeps between ticks.
 */
module EngineProperties {
  import opened Wrappers
  import opened Engine

  /** The bytes of a sequence of packets, one after another. */
  function Concat(ps: seq<Packet>): seq<byte>
  {
    if ps == [] then [] else ps[0] + Concat(ps[1..])
  }

  /** The packets of full buffer length, that is, the sender's data packets. */
  function DataPackets(ps: seq<Packet>): (ds: seq<Packet>)
    ensures |ds| <= |ps|
  {
    if ps == [] then []
    else (if |ps[0]| == MaxPacketSize then [ps[0]] else []) + DataPackets(ps[1..])
  }

  lemma {:induction false} ConcatAppend(ps: seq<Packet>, p: Packet)
    ensures Concat(ps + [p]) == Concat(ps) + p
  {
    if ps == [] {
      assert [p][1..] == [];
    } else {
      assert (ps + [p])[1..] == ps[1..] + [p];
      ConcatAppend(ps[1..], p);
    }
  }

  lemma {:induction false} DataPacketsAppend(ps: seq<Packet>, p: Packet)
    ensures DataPackets(ps + [p]) == DataPackets(ps) + (if |p| == MaxPacketSize then [p] else [])
  {
    if ps == [] {
      assert [p][1..] == [];
    } else {
      assert (ps + [p])[1..] == ps[1..] + [p];
      DataPacketsAppend(ps[1..], p);
    }
  }

  // ---------------------------------------------------------------- one sender tick

  /** A sender tick that is neither the first nor has a received packet changes nothing and returns false. */
  lemma SendDataIdle(s: State, env: Environment)
    requires WellFormed(s) && !SenderFires(s, env)
    ensures SendData(s, env) == Step(s, false)
  {
  }

  /**
   * A sender tick that fires and reads a chunk: packetno grows by one, exactly one packet is
   * transmitted, it is the chunk zero-padded to 1024 bytes, and bytesSent grows by the read size
   * only when the transmission succeeded; a failed transmission ends the work. Nothing else changes.
   */
  lemma SendDataChunk(s: State, env: Environment)
    requires WellFormed(s) && SenderFires(s, env) && Read(s, env.readFails).Chunk?
    ensures var n := Read(s, env.readFails).readSize;
            var packet := DataPacket(s.source[s.cursor..s.cursor + n]);
            && |packet| == MaxPacketSize
            && SendData(s, env) ==
               Step(s.(packetno := s.packetno + 1,
                       cursor := s.cursor + n,
                       transmitted := s.transmitted + [packet],
                       bytesSent := s.bytesSent + (if env.transmitResult == Success then n else 0)),
                    env.transmitResult == Failure)
  {
  }

  /**
   * At end of file the sender transmits five empty packets and nothing else, closes the file and
   * returns true; bytesSent and the read position stay as they were.
   */
  lemma SendDataEndOfStream(s: State, env: Environment)
    requires WellFormed(s) && SenderFires(s, env) && Read(s, env.readFails).EndOfFile?
    ensures SendData(s, env) ==
            Step(s.(packetno := s.packetno + 1,
                    transmitted := s.transmitted + [[], [], [], [], []],
                    sourceOpen := false),
                 true)
  {
  }

  /** A read that throws ends the work with nothing transmitted and bytesSent unchanged. */
  lemma SendDataReadError(s: State, env: Environment)
    requires WellFormed(s) && SenderFires(s, env) && Read(s, env.readFails).ReadError?
    ensures SendData(s, env) == Step(s.(packetno := s.packetno + 1), true)
  {
  }

  /** The sender moves on whatever packet it receives: no bit or content of the packet is examined. */
  lemma SenderIgnoresPacketContent(s: State, env: Environment, p: Packet, q: Packet)
    requires WellFormed(s) && env.received == Some(p)
    ensures SendData(s, env) == SendData(s, env.(received := Some(q)))
    ensures SendData(s, env).state.packetno == s.packetno + 1
  {
  }

  /** In Send mode packetno grows by exactly one on a tick that does work, and stays put otherwise. */
  lemma TickPacketno(s: State, env: Environment)
    requires WellFormed(s)
    ensures Tick(s, env).state.packetno ==
            s.packetno + (if s.mode == Send && SenderFires(s, env) then 1 else 0)
  {
  }

  // ---------------------------------------------------------------- one receiver tick

  /** With no packet the receiver transmits and writes nothing, returns false, and leaves ACK at 0. */
  lemma ReceiveDataIdle(s: State, env: Environment)
    requires env.received.None?
    ensures ReceiveData(s, env) == Step(s.(ack := 0), false)
  {
  }

  /**
   * With a packet the receiver transmits exactly one packet, the single byte 1, whatever ACK was.
   * An empty packet closes the file and ends the work with nothing written; a non-empty one is
   * appended verbatim unless the write fails or the file is already closed, which ends the work.
   * Nothing else changes: not the sender's fields, not the input file, and a non-empty packet
   * leaves the output file open or closed as it was.
   */
  lemma ReceiveDataPacket(s: State, env: Environment, p: Packet)
    requires env.received == Some(p)
    ensures var r := ReceiveData(s, env);
            && r.state == s.(ack := 1, transmitted := s.transmitted + [[1]],
                             sink := r.state.sink, sinkOpen := r.state.sinkOpen)
            && (|p| == 0 ==> r.workDone && r.state.sink == s.sink && !r.state.sinkOpen)
            && (|p| > 0 ==> r.state.sinkOpen == s.sinkOpen)
            && (|p| > 0 ==> r.workDone == (!s.sinkOpen || env.writeFails))
            && (|p| > 0 && !r.workDone ==> r.state.sink == s.sink + p)
            && (r.workDone && |p| > 0 ==> r.state.sink == s.sink)
  {
  }

  // ---------------------------------------------------------------- the timeout

  /** TimeoutElapsed transmits the one byte {ACK} on the "ACKWait" tag and does nothing on any other tag. */
  lemma TimeoutElapsedEffect(s: State, tag: string)
    ensures tag == AckWaitTag ==> TimeoutElapsed(s, tag) == s.(transmitted := s.transmitted + [[s.ack]])
    ensures tag != AckWaitTag ==> TimeoutElapsed(s, tag) == s
  {
  }

  // ---------------------------------------------------------------- the sender's invariant

  /**
   * Between ticks of an unfinished send: ACK is still 0, every byte read has been counted in
   * bytesSent, packetno is the number of data packets sent, every packet is a 1024-byte data
   * packet or the timeout's {0}, and the data packets carry the bytes read so far, in order,
   * with zero padding only after the last byte of the file.
   */
  ghost predicate SenderInv(s: State) {
    && s.mode == Send
    && s.sourceOpen
    && s.cursor <= |s.source|
    && s.ack == 0
    && s.bytesSent == s.cursor
    && (forall i :: 0 <= i < |s.transmitted| ==>
          s.transmitted[i] == [0] || |s.transmitted[i]| == MaxPacketSize)
    && var k := |DataPackets(s.transmitted)|;
       && k == s.packetno
       && MaxPacketSize * k - MaxPacketSize < s.cursor <= MaxPacketSize * k
       && (s.cursor < MaxPacketSize * k ==> s.cursor == |s.source|)
       && Concat(DataPackets(s.transmitted)) == s.source[..s.cursor] + Zeros(MaxPacketSize * k - s.cursor)
  }

  lemma InitialSenderInv(file: seq<byte>)
    ensures SenderInv(Initial(Send, file))
  {
  }

  /** A sender tick that does not end the work keeps the invariant. */
  lemma {:induction false} SendDataKeepsSenderInv(s: State, env: Environment)
    requires SenderInv(s) && !SendData(s, env).workDone
    ensures SenderInv(SendData(s, env).state)
  {
    if SenderFires(s, env) {
      var n := Read(s, env.readFails).readSize;
      var c := s.cursor;
      var k := |DataPackets(s.transmitted)|;
      var packet := DataPacket(s.source[c..c + n]);
      var r := SendData(s, env).state;
      assert r.transmitted == s.transmitted + [packet];
      DataPacketsAppend(s.transmitted, packet);
      ConcatAppend(DataPackets(s.transmitted), packet);
      assert c == MaxPacketSize * k;
      ChunkExtendsFile(s.source, c, n, Concat(DataPackets(s.transmitted)));
      assert forall i :: 0 <= i < |r.transmitted| ==>
        r.transmitted[i] == if i < |s.transmitted| then s.transmitted[i] else packet;
    }
  }

  /** A file prefix followed by the next data packet is the longer prefix followed by its padding. */
  lemma ChunkExtendsFile(source: seq<byte>, c: nat, n: nat, sent: seq<byte>)
    requires 0 < n <= MaxPacketSize && c + n <= |source|
    requires sent == source[..c] + Zeros(0)
    ensures sent + DataPacket(source[c..c + n]) == source[..c + n] + Zeros(MaxPacketSize - n)
  {
    assert Zeros(0) == [];
    assert source[..c] + source[c..c + n] == source[..c + n];
  }

  /** A timeout that elapses between ticks keeps the invariant, and the packet it adds is {0}. */
  lemma {:induction false} TimeoutKeepsSenderInv(s: State, tag: string)
    requires SenderInv(s)
    ensures SenderInv(TimeoutElapsed(s, tag))
    ensures tag == AckWaitTag ==> TimeoutElapsed(s, tag).transmitted == s.transmitted + [[0]]
  {
    if tag == AckWaitTag {
      DataPacketsAppend(s.transmitted, [0]);
      var r := TimeoutElapsed(s, tag);
      assert DataPackets(r.transmitted) == DataPackets(s.transmitted);
      assert forall i :: 0 <= i < |r.transmitted| ==>
        r.transmitted[i] == if i < |s.transmitted| then s.transmitted[i] else [0];
    }
  }

  // ---------------------------------------------------------------- the receiver over several ticks

  /** Feed packets to the receiver one per tick, with every write succeeding, until a tick returns true. */
  function Deliver(s: State, ps: seq<Packet>): (r: Step)
    decreases |ps|
  {
    if ps == [] then Step(s, false)
    else
      var step := ReceiveData(s, Environment(Some(ps[0]), Success, false, false));
      if step.workDone then step else Deliver(step.state, ps[1..])
  }

  /** n acknowledgements, each the single byte 1. */
  function Acks(n: nat): (acks: seq<Packet>)
    ensures |acks| == n
    ensures forall i :: 0 <= i < n ==> acks[i] == [1]
  {
    seq(n, _ => [1])
  }

  /** The receiver state after it has appended and acknowledged each packet of ps. */
  function Delivered(s: State, ps: seq<Packet>): State
  {
    s.(sink := s.sink + Concat(ps),
       transmitted := s.transmitted + Acks(|ps|),
       ack := if ps == [] then s.ack else 1)
  }

  /**
   * Non-empty packets are appended to the output file in the order they arrive, each answered
   * with the ack {1}, and the receiver carries on with whatever comes next.
   */
  lemma {:induction false} DeliverPayloads(s: State, ps: seq<Packet>, rest: seq<Packet>)
    requires s.sinkOpen
    requires forall i :: 0 <= i < |ps| ==> |ps[i]| > 0
    ensures Deliver(s, ps + rest) == Deliver(Delivered(s, ps), rest)
    decreases |ps|
  {
    if ps == [] {
      assert ps + rest == rest;
      assert Delivered(s, ps) == s;
    } else {
      var s1 := ReceiveData(s, Environment(Some(ps[0]), Success, false, false)).state;
      assert (ps + rest)[0] == ps[0];
      assert (ps + rest)[1..] == ps[1..] + rest;
      DeliverPayloads(s1, ps[1..], rest);
      assert s.transmitted + [[1]] + Acks(|ps| - 1) == s.transmitted + Acks(|ps|);
      assert s.sink + ps[0] + Concat(ps[1..]) == s.sink + Concat(ps);
    }
  }

  /** Delivering the same packet twice writes its payload twice: nothing suppresses duplicates. */
  lemma DuplicateWrittenTwice(s: State, p: Packet)
    requires s.sinkOpen && |p| > 0
    ensures Deliver(s, [p, p]) == Step(Delivered(s, [p, p]), false)
    ensures Deliver(s, [p, p]).state.sink == s.sink + p + p
  {
    DeliverPayloads(s, [p, p], []);
    assert [p, p] + [] == [p, p];
    assert Concat([p, p]) == p + p by {
      assert [p, p][1..] == [p];
      assert [p][1..] == [];
      assert Concat([p]) == p + Concat([]);
    }
  }

  /**
   * Over a lossless, in-order transport, and in a run in which no "ACKWait" timeout fired, the
   * receiver's file is the sender's file followed by the zero padding of the last data packet:
   * its length is the file's length rounded up to a multiple of 1024. The receiver is given the
   * data packets only; TimeoutPacketsWritten says what happens to the timeouts' {0} packets.
   */
  lemma {:induction false} LosslessTransferPadsFile(s: State)
    requires SenderInv(s) && s.cursor == |s.source|
    ensures var r := Deliver(Initial(Receive, []), DataPackets(s.transmitted) + [[]]);
            && r.workDone
            && |s.source| <= |r.state.sink| < |s.source| + MaxPacketSize
            && |r.state.sink| % MaxPacketSize == 0
            && r.state.sink == s.source + Zeros(|r.state.sink| - |s.source|)
  {
    var ds := DataPackets(s.transmitted);
    var r0 := Initial(Receive, []);
    assert forall i :: 0 <= i < |ds| ==> |ds[i]| == MaxPacketSize by {
      DataPacketsLength(s.transmitted);
    }
    DeliverPayloads(r0, ds, [[]]);
    var k := |ds|;
    assert |Concat(ds)| == MaxPacketSize * k;
    assert s.source[..s.cursor] == s.source;
  }

  /**
   * Over a lossless, in-order transport the receiver writes every packet the sender transmitted,
   * the timeouts' one-byte {0} packets included, as file content.
   */
  lemma TimeoutPacketsWritten(s: State)
    requires SenderInv(s)
    ensures var r := Deliver(Initial(Receive, []), s.transmitted + [[]]);
            && r.workDone
            && r.state.sink == Concat(s.transmitted)
            && r.state.transmitted == Acks(|s.transmitted| + 1)
  {
    var r0 := Initial(Receive, []);
    DeliverPayloads(r0, s.transmitted, [[]]);
    assert Deliver(Delivered(r0, s.transmitted), [[]]).state.transmitted == Acks(|s.transmitted|) + [[1]];
    assert Acks(|s.transmitted|) + [[1]] == Acks(|s.transmitted| + 1);
  }

  lemma {:induction false} DataPacketsLength(ps: seq<Packet>)
    ensures forall i :: 0 <= i < |DataPackets(ps)| ==> |DataPackets(ps)[i]| == MaxPacketSize
  {
    if ps != [] {
      DataPacketsLength(ps[1..]);
    }
  }


  // ---------------------------------------------------------------- after the work is done

  /**
   * Tick is not idempotent once the sender has finished: a tick without a packet returns false,
   * and a tick with one tries to read the closed file and returns true, transmitting nothing.
   */
  lemma TickAfterEndOfStream(s: State, env: Environment)
    requires WellFormed(s) && s.mode == Send && !s.sourceOpen && s.packetno > 0
    ensures Tick(s, env) ==
            if env.received.Some? then Step(s.(packetno := s.packetno + 1), true) else Step(s, false)
  {
  }

  /**
   * Once the receiver has closed its file, a tick without a packet returns false, and a tick with
   * one still acknowledges it with {1} and returns true without writing.
   */
  lemma TickAfterEndMarker(s: State, env: Environment)
    requires WellFormed(s) && s.mode == Receive && !s.sinkOpen
    ensures var r := Tick(s, env);
            && r.state.sink == s.sink
            && r.workDone == env.received.Some?
            && r.state.transmitted == s.transmitted + (if env.received.Some? then [[1]] else [])
  {
  }
}
