/**
 * The driver loop of Program.main: tick the protocol until Tick() first returns true. The
 * environment's answers for successive ticks form a finite schedule, so a run either completes
 * or stops when the schedule runs out.
 */
module Driver {
  import opened Wrappers
  import opened Engine
  import opened EngineProperties
  import opened Protocol

  /** Where a run stopped: the state, how many ticks were made, and whether the last one returned true. */
  datatype Run = Run(state: State, ticks: nat, workDone: bool)

  /** `while (!workDone) { workDone = protocol.Tick(); }`, one schedule entry per tick. */
  function Drive(s: State, schedule: seq<Environment>): (r: Run)
    requires WellFormed(s)
    ensures WellFormed(r.state) && r.state.mode == s.mode && r.state.source == s.source
    ensures r.ticks <= |schedule|
    ensures r.workDone ==> r.ticks > 0
    ensures !r.workDone ==> r.ticks == |schedule|
    decreases |schedule|
  {
    if schedule == [] then Run(s, 0, false)
    else
      var step := Tick(s, schedule[0]);
      if step.workDone then Run(step.state, 1, true)
      else
        var rest := Drive(step.state, schedule[1..]);
        Run(rest.state, rest.ticks + 1, rest.workDone)
  }

  /** A tick that returns false is followed by the rest of the run. */
  lemma DriveContinues(s: State, schedule: seq<Environment>)
    requires WellFormed(s) && schedule != [] && !Tick(s, schedule[0]).workDone
    ensures var rest := Drive(Tick(s, schedule[0]).state, schedule[1..]);
            Drive(s, schedule) == Run(rest.state, rest.ticks + 1, rest.workDone)
  {
  }

  /** The driver loop on the object itself. */
  method RunUntilWorkDone(protocol: BetterTransferProtocol, schedule: seq<Environment>)
    returns (ticks: nat, workDone: bool)
    requires protocol.Valid()
    modifies protocol
    ensures protocol.Valid()
    ensures Drive(old(protocol.Snapshot()), schedule) == Run(protocol.Snapshot(), ticks, workDone)
  {
    ticks, workDone := 0, false;
    while !workDone && ticks < |schedule|
      invariant protocol.Valid() && ticks <= |schedule|
      invariant !workDone ==>
        var rest := Drive(protocol.Snapshot(), schedule[ticks..]);
        Drive(old(protocol.Snapshot()), schedule) == Run(rest.state, rest.ticks + ticks, rest.workDone)
      invariant workDone ==>
        ticks > 0 && Drive(old(protocol.Snapshot()), schedule) == Run(protocol.Snapshot(), ticks, true)
    {
      assert schedule[ticks..][0] == schedule[ticks];
      assert schedule[ticks..][1..] == schedule[ticks + 1..];
      workDone := protocol.Tick(schedule[ticks]);
      ticks := ticks + 1;
    }
    if !workDone {
      assert schedule[ticks..] == [];
    }
  }

  /** Once a tick has returned true the driver never ticks again: later schedule entries are never used. */
  lemma {:induction false} NoTickAfterWorkDone(s: State, schedule: seq<Environment>, more: seq<Environment>)
    requires WellFormed(s) && Drive(s, schedule).workDone
    ensures Drive(s, schedule + more) == Drive(s, schedule)
    decreases |schedule|
  {
    assert (schedule + more)[0] == schedule[0];
    if !Tick(s, schedule[0]).workDone {
      assert (schedule + more)[1..] == schedule[1..] + more;
      NoTickAfterWorkDone(Tick(s, schedule[0]).state, schedule[1..], more);
    }
  }

  /** In a completed run every tick but the last returned false, and the last returned true. */
  lemma {:induction false} LastTickCompletes(s: State, schedule: seq<Environment>)
    requires WellFormed(s) && Drive(s, schedule).workDone
    ensures var r := Drive(s, schedule);
            var before := Drive(s, schedule[..r.ticks - 1]);
            && !before.workDone
            && Tick(before.state, schedule[r.ticks - 1]) == Step(r.state, true)
    decreases |schedule|
  {
    var step := Tick(s, schedule[0]);
    var r := Drive(s, schedule);
    if step.workDone {
      assert schedule[..r.ticks - 1] == [];
    } else {
      var tail := schedule[1..];
      LastTickCompletes(step.state, tail);
      var rt := Drive(step.state, tail);
      assert schedule[..r.ticks - 1] == [schedule[0]] + tail[..rt.ticks - 1];
      assert schedule[..r.ticks - 1][1..] == tail[..rt.ticks - 1];
      assert schedule[r.ticks - 1] == tail[rt.ticks - 1];
    }
  }

  /** packetno never decreases over a run, and in Receive mode it never changes. */
  lemma {:induction false} PacketnoMonotone(s: State, schedule: seq<Environment>)
    requires WellFormed(s)
    ensures s.packetno <= Drive(s, schedule).state.packetno
    ensures s.mode == Receive ==> Drive(s, schedule).state.packetno == s.packetno
    decreases |schedule|
  {
    if schedule != [] {
      TickPacketno(s, schedule[0]);
      var step := Tick(s, schedule[0]);
      if !step.workDone {
        PacketnoMonotone(step.state, schedule[1..]);
      }
    }
  }

  /** The sender's invariant holds after every run that has not completed. */
  lemma {:induction false} DriveKeepsSenderInv(s: State, schedule: seq<Environment>)
    requires SenderInv(s) && !Drive(s, schedule).workDone
    ensures SenderInv(Drive(s, schedule).state)
    decreases |schedule|
  {
    if schedule != [] {
      SendDataKeepsSenderInv(s, schedule[0]);
      DriveKeepsSenderInv(SendData(s, schedule[0]).state, schedule[1..]);
    }
  }

  // ---------------------------------------------------------------- a lossless session

  /** The file from position c on, cut into chunks of at most 1024 bytes, each sent as a full data packet. */
  function DataChunks(source: seq<byte>, c: nat): (ps: seq<Packet>)
    requires c <= |source|
    decreases |source| - c
  {
    if c == |source| then []
    else
      var m := Min(MaxPacketSize, |source| - c);
      [DataPacket(source[c..c + m])] + DataChunks(source, c + m)
  }

  /** The chunks carry the rest of the file in order, followed by less than one packet of zero padding. */
  lemma {:induction false} DataChunksCarryFile(source: seq<byte>, c: nat)
    requires c <= |source|
    ensures var ps := DataChunks(source, c);
            && (forall i :: 0 <= i < |ps| ==> |ps[i]| == MaxPacketSize)
            && MaxPacketSize * |ps| - MaxPacketSize < |source| - c <= MaxPacketSize * |ps|
            && Concat(ps) == source[c..] + Zeros(MaxPacketSize * |ps| - (|source| - c))
    decreases |source| - c
  {
    if c < |source| {
      var m := Min(MaxPacketSize, |source| - c);
      var ps := DataChunks(source, c + m);
      DataChunksCarryFile(source, c + m);
      var p := DataPacket(source[c..c + m]);
      assert ([p] + ps)[0] == p && ([p] + ps)[1..] == ps;
      if m < MaxPacketSize {
        assert ps == [];
        assert Concat([p] + ps) == p + Concat([]);
        assert source[c..] == source[c..c + m];
      } else {
        FullChunkThenRest(source, c, Concat(ps), MaxPacketSize * |ps| - (|source| - c - m));
      }
    }
  }

  /** A full chunk of the file followed by the rest of the file is the file from that chunk on. */
  lemma FullChunkThenRest(source: seq<byte>, c: nat, rest: seq<byte>, z: nat)
    requires c + MaxPacketSize <= |source|
    requires rest == source[c + MaxPacketSize..] + Zeros(z)
    ensures DataPacket(source[c..c + MaxPacketSize]) + rest == source[c..] + Zeros(z)
  {
    assert Zeros(0) == [];
    assert source[c..] == source[c..c + MaxPacketSize] + source[c + MaxPacketSize..];
  }

  /** Every tick hears back from the receiver, and every transmission and read succeeds. */
  function LosslessTicks(n: nat): (envs: seq<Environment>)
    ensures |envs| == n
    ensures forall i :: 0 <= i < n ==> envs[i] == Environment(Some([1]), Success, false, false)
  {
    seq(n, _ => Environment(Some([1]), Success, false, false))
  }

  /**
   * Where a sender answered on every tick ends: the rest of the file read and counted in
   * bytesSent, its chunks and then the five end markers transmitted, the file closed, and one
   * packetno per tick.
   */
  function Completed(s: State): (f: State)
    requires WellFormed(s)
  {
    var chunks := DataChunks(s.source, s.cursor);
    s.(packetno := s.packetno + |chunks| + 1,
       cursor := |s.source|,
       sourceOpen := false,
       bytesSent := s.bytesSent + (|s.source| - s.cursor),
       transmitted := s.transmitted + chunks + EndOfStreamPackets())
  }

  /** The tick that sends the next chunk of the file when the receiver has answered. */
  lemma AnsweredChunkTick(s: State)
    requires WellFormed(s) && s.mode == Send && s.sourceOpen && s.cursor < |s.source|
    ensures var m := Min(MaxPacketSize, |s.source| - s.cursor);
            var p := DataPacket(s.source[s.cursor..s.cursor + m]);
            && DataChunks(s.source, s.cursor) == [p] + DataChunks(s.source, s.cursor + m)
            && Tick(s, Environment(Some([1]), Success, false, false)) ==
               Step(s.(packetno := s.packetno + 1, cursor := s.cursor + m,
                       bytesSent := s.bytesSent + m, transmitted := s.transmitted + [p]), false)
  {
    assert Read(s, false) == Chunk(Min(MaxPacketSize, |s.source| - s.cursor));
  }

  /** Sending one chunk does not change where the sender ends up. */
  lemma CompletedAfterChunk(s: State)
    requires WellFormed(s) && s.cursor < |s.source|
    ensures var m := Min(MaxPacketSize, |s.source| - s.cursor);
            var p := DataPacket(s.source[s.cursor..s.cursor + m]);
            Completed(s.(packetno := s.packetno + 1, cursor := s.cursor + m,
                         bytesSent := s.bytesSent + m, transmitted := s.transmitted + [p])) == Completed(s)
  {
    var m := Min(MaxPacketSize, |s.source| - s.cursor);
    var p := DataPacket(s.source[s.cursor..s.cursor + m]);
    var chunks := DataChunks(s.source, s.cursor + m);
    assert DataChunks(s.source, s.cursor) == [p] + chunks;
    assert s.transmitted + [p] + chunks == s.transmitted + ([p] + chunks);
  }

  /** With every tick answered, the sender completes on the tick after its last chunk, in the state Completed(s). */
  lemma {:induction false} SenderCompletes(s: State, n: nat)
    requires WellFormed(s) && s.mode == Send && s.sourceOpen
    requires n > |DataChunks(s.source, s.cursor)|
    ensures Drive(s, LosslessTicks(n)) == Run(Completed(s), |DataChunks(s.source, s.cursor)| + 1, true)
    decreases |s.source| - s.cursor
  {
    var env := Environment(Some([1]), Success, false, false);
    var schedule := LosslessTicks(n);
    assert schedule[0] == env;
    if s.cursor == |s.source| {
      SendDataEndOfStream(s, env);
      assert DataChunks(s.source, s.cursor) == [];
      assert Tick(s, env) == Step(Completed(s), true);
    } else {
      var m := Min(MaxPacketSize, |s.source| - s.cursor);
      var p := DataPacket(s.source[s.cursor..s.cursor + m]);
      AnsweredChunkTick(s);
      CompletedAfterChunk(s);
      var s1 := Tick(s, env).state;
      assert schedule[1..] == LosslessTicks(n - 1);
      SenderCompletes(s1, n - 1);
      DriveContinues(s, schedule);
    }
  }

  /** The receiver takes the data chunks and then the end markers: it writes the chunks and stops at the first marker. */
  lemma ReceiverTakesChunks(ps: seq<Packet>)
    requires forall i :: 0 <= i < |ps| ==> |ps[i]| == MaxPacketSize
    ensures var got := Deliver(Initial(Receive, []), ps + EndOfStreamPackets());
            got.workDone && got.state.sink == Concat(ps) && got.state.transmitted == Acks(|ps| + 1)
  {
    var r0 := Initial(Receive, []);
    DeliverPayloads(r0, ps, EndOfStreamPackets());
    var r1 := Delivered(r0, ps);
    assert EndOfStreamPackets()[0] == [];
    assert Deliver(r1, EndOfStreamPackets()).state.transmitted == Acks(|ps|) + [[1]];
    assert Acks(|ps|) + [[1]] == Acks(|ps| + 1);
  }

  /**
   * A whole session over a lossless, in-order transport in which no "ACKWait" timeout fires: the
   * receiver, given exactly what the sender transmitted, writes the file followed by zero padding
   * up to a multiple of 1024 bytes, acks every packet with {1} and completes on the first end
   * marker. TimeoutZeroWrittenToFile shows a session in which a timeout fires.
   */
  lemma {:induction false} LosslessSessionPadsFile(file: seq<byte>)
    ensures var sent := Drive(Initial(Send, file), LosslessTicks(|file| / MaxPacketSize + 2));
            var got := Deliver(Initial(Receive, []), sent.state.transmitted);
            && sent.workDone
            && got.workDone
            && |file| <= |got.state.sink| < |file| + MaxPacketSize
            && |got.state.sink| % MaxPacketSize == 0
            && got.state.sink == file + Zeros(|got.state.sink| - |file|)
            && got.state.transmitted == Acks(|DataChunks(file, 0)| + 1)
  {
    var s0 := Initial(Send, file);
    var ps := DataChunks(file, 0);
    DataChunksCarryFile(file, 0);
    assert file[0..] == file;
    SenderCompletes(s0, |file| / MaxPacketSize + 2);
    assert Drive(s0, LosslessTicks(|file| / MaxPacketSize + 2)).state.transmitted == ps + EndOfStreamPackets();
    ReceiverTakesChunks(ps);
  }

  /** A one-byte file arrives as 1024 bytes. */
  lemma OneByteFileArrivesPadded(b: byte)
    ensures var sent := Drive(Initial(Send, [b]), LosslessTicks(2));
            var got := Deliver(Initial(Receive, []), sent.state.transmitted);
            got.workDone && got.state.sink == [b] + Zeros(MaxPacketSize - 1)
  {
    LosslessSessionPadsFile([b]);
  }

  /**
   * A timeout between the sender's ticks puts a zero byte into the received file: a one-byte file,
   * a tick, the "ACKWait" timeout, a second tick, and every packet delivered in order, leave the
   * receiver with 1025 bytes, the last of them the timeout's {0}.
   */
  lemma TimeoutZeroWrittenToFile(b: byte)
    ensures var env := Environment(Some([1]), Success, false, false);
            var s1 := Tick(Initial(Send, [b]), env).state;
            var s2 := TimeoutElapsed(s1, AckWaitTag);
            var s3 := Tick(s2, env);
            var got := Deliver(Initial(Receive, []), s3.state.transmitted);
            && s3.workDone
            && s3.state.transmitted == [DataPacket([b]), [0]] + EndOfStreamPackets()
            && got.workDone
            && |got.state.sink| == MaxPacketSize + 1
            && got.state.sink == DataPacket([b]) + [0]
            && got.state.sink[MaxPacketSize] == 0
  {
    var env := Environment(Some([1]), Success, false, false);
    var s0 := Initial(Send, [b]);
    SendDataChunk(s0, env);
    assert s0.source[0..1] == [b];
    var s1 := Tick(s0, env).state;
    var s2 := TimeoutElapsed(s1, AckWaitTag);
    SendDataEndOfStream(s2, env);
    var s3 := Tick(s2, env);
    assert s3.state.transmitted == [DataPacket([b]), [0]] + EndOfStreamPackets();
    var ps := [DataPacket([b]), [0]];
    DeliverPayloads(Initial(Receive, []), ps, EndOfStreamPackets());
    assert Concat(ps) == DataPacket([b]) + [0] by {
      assert ps[1..] == [[0]];
      assert [[0]][1..] == [];
      assert Concat([[0]]) == [0] + Concat([]);
    }
    assert EndOfStreamPackets()[0] == [];
  }
}
