/**
 What a transfer session guarantees, for every payload and every receiver
 script, derived from the reference description of the session.
 */
module TransferProperties {
  import opened Wrappers
  import opened BigEndian
  import opened Chunking
  import opened Protocol
  import opened TransferSpec

  /** The first `m` reads all return the acknowledgment byte. */
  predicate AllAcked(script: seq<Reply>, m: nat)
  {
    forall j :: 0 <= j < m ==> IsAck(ReplyAt(script, j))
  }

  /** A run of `AckRun` leading acknowledgments covers the first `m` reads exactly when m <= the run. */
  lemma AckRunCovers(script: seq<Reply>, limit: nat, m: nat)
    requires m <= limit
    ensures AllAcked(script, m) <==> m <= AckRun(script, 0, limit)
  {
    var a := AckRun(script, 0, limit);
    if m > a {
      assert !IsAck(ReplyAt(script, a));
    }
  }

  /** Dropping the header from the header followed by all chunks leaves the chunks. */
  lemma DropHeader(h: seq<byte>, cs: seq<seq<byte>>, m: nat)
    requires m == |cs|
    ensures ([h] + cs[..m])[1..] == cs
  {
    assert cs[..m] == cs;
  }

  /** A payload too large for the header ends the session before anything is written. */
  lemma TransferOverflow(data: seq<byte>, script: seq<Reply>)
    requires |data| >= Two32
    ensures Transfer(data, script) == Session([], [], SizeOverflow)
  {
    Pow256Four();
  }

  /**
   What is observable of a session whose size fits the header, in terms of
   the run `a` of leading acknowledgments: the outcome, the progress
   values, the units written, the replies read, and the lock-step shape.
   */
  ghost predicate Describes(s: Session, data: seq<byte>, script: seq<Reply>)
  {
    && |data| < Two32
    && var N := NumChunks(|data|);
       var a := AckRun(script, 0, N + 2);
       && s.outcome == OutcomeFor(a, N)
       && s.progress == Progress(|data|, 0, AckedChunks(a, N))
       && Sent(s.trace) == [Header(|data|)] + Chunks(data)[..Min(a, N)]
       && Received(s.trace) == Replies(script, 0, Min(a + 1, N + 2))
       && |s.trace| >= 2 && s.trace[0] == Wrote(Header(|data|))
       && LockStep(s.trace)
  }

  /** The units written by a session whose size fits the header. */
  lemma TransferSent(data: seq<byte>, script: seq<Reply>)
    requires |data| < Two32
    ensures
      var N := NumChunks(|data|);
      var a := AckRun(script, 0, N + 2);
      Sent(Transfer(data, script).trace) == [Header(|data|)] + Chunks(data)[..Min(a, N)]
  {
    var N := NumChunks(|data|);
    var a := AckRun(script, 0, N + 2);
    TransferTrace(data, script);
    InterleaveSent([Header(|data|)] + Chunks(data)[..Min(a, N)], Replies(script, 0, Min(a + 1, N + 2)));
  }

  /** The replies read by a session whose size fits the header. */
  lemma TransferReceived(data: seq<byte>, script: seq<Reply>)
    requires |data| < Two32
    ensures
      var N := NumChunks(|data|);
      var a := AckRun(script, 0, N + 2);
      Received(Transfer(data, script).trace) == Replies(script, 0, Min(a + 1, N + 2))
  {
    var N := NumChunks(|data|);
    var a := AckRun(script, 0, N + 2);
    TransferTrace(data, script);
    InterleaveReceived([Header(|data|)] + Chunks(data)[..Min(a, N)], Replies(script, 0, Min(a + 1, N + 2)));
  }

  /** A session whose size fits the header opens by writing the header. */
  lemma TransferFirstWrite(data: seq<byte>, script: seq<Reply>)
    requires |data| < Two32
    ensures var t := Transfer(data, script).trace; |t| >= 2 && t[0] == Wrote(Header(|data|))
  {
    var s := Transfer(data, script);
    var rest := SendChunks(data, script, 0, SentAfter(|data|, 0));
    TransferOpens(data, script);
    if IsAck(ReplyAt(script, 0)) {
      assert s.trace == [Wrote(Header(|data|)), Heard(ReplyAt(script, 0))] + rest.trace;
    }
  }

  /** A session whose size fits the header alternates writes and reads. */
  lemma TransferLockStep(data: seq<byte>, script: seq<Reply>)
    requires |data| < Two32
    ensures LockStep(Transfer(data, script).trace)
  {
    var N := NumChunks(|data|);
    var a := AckRun(script, 0, N + 2);
    TransferTrace(data, script);
    InterleaveLockStep([Header(|data|)] + Chunks(data)[..Min(a, N)], Replies(script, 0, Min(a + 1, N + 2)));
  }

  /** Every session whose size fits the header is described by its run of acknowledgments. */
  lemma TransferDescribed(data: seq<byte>, script: seq<Reply>)
    requires |data| < Two32
    ensures Describes(Transfer(data, script), data, script)
  {
    TransferOutcome(data, script);
    TransferProgress(data, script);
    TransferSent(data, script);
    TransferReceived(data, script);
    TransferFirstWrite(data, script);
    TransferLockStep(data, script);
  }

  /**
   The header is four bytes that decode to the payload size; a size that
   does not fit makes the session fail before anything is written.
   */
  lemma HeaderRoundTrip(data: seq<byte>, script: seq<Reply>)
    ensures var s := Transfer(data, script);
      && (s.outcome == SizeOverflow <==> |data| >= Two32)
      && (|data| >= Two32 ==> s.trace == [] && s.progress == [])
      && (|data| < Two32 ==>
            && |Sent(s.trace)| >= 1
            && s.trace[0] == Wrote(Sent(s.trace)[0])
            && |Sent(s.trace)[0]| == 4
            && FromBytes(Sent(s.trace)[0]) == |data|)
  {
    if |data| >= Two32 {
      TransferOverflow(data, script);
    } else {
      TransferDescribed(data, script);
      HeaderOf(Transfer(data, script), data, script);
    }
  }

  /** The session-level half of `HeaderRoundTrip`: any session the reference describes opens with the 4-byte size header. */
  lemma HeaderOf(s: Session, data: seq<byte>, script: seq<Reply>)
    requires Describes(s, data, script)
    ensures s.outcome != SizeOverflow
    ensures |Sent(s.trace)| >= 1 && s.trace[0] == Wrote(Sent(s.trace)[0])
    ensures |Sent(s.trace)[0]| == 4 && FromBytes(Sent(s.trace)[0]) == |data|
  {
  }

  /**
   The header is refused exactly when its reply is not an acknowledgment;
   then the header is the only write, no chunk follows, and one reply is read.
   */
  lemma HeaderRejected(data: seq<byte>, script: seq<Reply>)
    ensures var s := Transfer(data, script);
      && (s.outcome == HeaderNotAcked <==> |data| < Two32 && !IsAck(ReplyAt(script, 0)))
      && (s.outcome == HeaderNotAcked ==>
            && |Sent(s.trace)| == 1
            && Received(s.trace) == [ReplyAt(script, 0)]
            && s.progress == [])
  {
    if |data| >= Two32 {
      TransferOverflow(data, script);
    } else {
      TransferDescribed(data, script);
      HeaderRejectedOf(Transfer(data, script), data, script);
    }
  }

  /** The session-level half of `HeaderRejected`. */
  lemma HeaderRejectedOf(s: Session, data: seq<byte>, script: seq<Reply>)
    requires Describes(s, data, script)
    ensures s.outcome == HeaderNotAcked <==> !IsAck(ReplyAt(script, 0))
    ensures s.outcome == HeaderNotAcked ==>
      |Sent(s.trace)| == 1 && Received(s.trace) == [ReplyAt(script, 0)] && s.progress == []
  {
    var N := NumChunks(|data|);
    if !IsAck(ReplyAt(script, 0)) {
      assert AckRun(script, 0, N + 2) == 0;
      assert Replies(script, 0, 1) == [ReplyAt(script, 0)];
    }
  }

  /**
   The chunk at offset k * ChunkSize is refused exactly when the header and
   every earlier chunk were acknowledged and its own reply was not. Then the
   header and chunks 0..k, and nothing after, were written, and k + 2
   replies were read.
   */
  lemma ChunkRejected(data: seq<byte>, script: seq<Reply>, k: nat)
    ensures var s := Transfer(data, script);
      && (s.outcome == ChunkNotAcked(k * ChunkSize) <==>
            && |data| < Two32
            && k < NumChunks(|data|)
            && AllAcked(script, k + 1)
            && !IsAck(ReplyAt(script, k + 1)))
      && (s.outcome == ChunkNotAcked(k * ChunkSize) ==>
            && Sent(s.trace)[1..] == Chunks(data)[..k + 1]
            && Received(s.trace) == Replies(script, 0, k + 2))
  {
    if |data| >= Two32 {
      TransferOverflow(data, script);
    } else {
      TransferDescribed(data, script);
      var s := Transfer(data, script);
      ChunkRefusalCondition(s, data, script, k);
      if s.outcome == ChunkNotAcked(k * ChunkSize) {
        ChunkRefusalExchange(s, data, script, k);
      }
    }
  }

  /** The session-level half of `ChunkRejected`: when chunk `k` is the one refused. */
  lemma ChunkRefusalCondition(s: Session, data: seq<byte>, script: seq<Reply>, k: nat)
    requires Describes(s, data, script)
    ensures s.outcome == ChunkNotAcked(k * ChunkSize) <==>
      k < NumChunks(|data|) && AllAcked(script, k + 1) && !IsAck(ReplyAt(script, k + 1))
  {
    var N := NumChunks(|data|);
    var a := AckRun(script, 0, N + 2);
    assert s.outcome == ChunkNotAcked(k * ChunkSize) <==> k < N && a == k + 1;
    if k < N {
      AckRunCovers(script, N + 2, k + 1);
      AckRunCovers(script, N + 2, k + 2);
    }
  }

  /** The session-level half of `ChunkRejected`: what was written and read when chunk `k` is refused. */
  lemma ChunkRefusalExchange(s: Session, data: seq<byte>, script: seq<Reply>, k: nat)
    requires Describes(s, data, script)
    requires s.outcome == ChunkNotAcked(k * ChunkSize)
    ensures Sent(s.trace)[1..] == Chunks(data)[..k + 1]
    ensures Received(s.trace) == Replies(script, 0, k + 2)
  {
    var N := NumChunks(|data|);
    var a := AckRun(script, 0, N + 2);
    assert a == k + 1 && k < N;
    assert Min(a, N) == k + 1 && Min(a + 1, N + 2) == k + 2;
    assert ([Header(|data|)] + Chunks(data)[..k + 1])[1..] == Chunks(data)[..k + 1];
  }

  /**
   `total_sent` after the j-th acknowledged chunk is Min((j + 1) * ChunkSize, |data|):
   it stays within the payload, grows strictly with each chunk, and equals
   the payload size once the loop runs to completion.
   */
  lemma ProgressCounter(data: seq<byte>, script: seq<Reply>)
    ensures var s := Transfer(data, script); var p := s.progress; var N := NumChunks(|data|);
      && |p| <= N
      && (forall j :: 0 <= j < |p| ==> p[j] == Min((j + 1) * ChunkSize, |data|))
      && (forall j :: 0 <= j < |p| ==> 0 < p[j] <= |data|)
      && (forall i, j :: 0 <= i < j < |p| ==> p[i] < p[j])
      && ((s.outcome.Done? || s.outcome.FinalNotAcked?) ==> |p| == N && (N > 0 ==> p[N - 1] == |data|))
      && (s.outcome.ChunkNotAcked? ==> |p| * ChunkSize == s.outcome.offset)
  {
    if |data| >= Two32 {
      TransferOverflow(data, script);
    } else {
      TransferDescribed(data, script);
      ProgressOf(Transfer(data, script), data, script);
    }
  }

  /** The session-level half of `ProgressCounter`. */
  lemma ProgressOf(s: Session, data: seq<byte>, script: seq<Reply>)
    requires Describes(s, data, script)
    ensures var p := s.progress; var N := NumChunks(|data|);
      && |p| <= N
      && (forall j :: 0 <= j < |p| ==> p[j] == Min((j + 1) * ChunkSize, |data|))
      && (forall j :: 0 <= j < |p| ==> 0 < p[j] <= |data|)
      && (forall i, j :: 0 <= i < j < |p| ==> p[i] < p[j])
      && ((s.outcome.Done? || s.outcome.FinalNotAcked?) ==> |p| == N && (N > 0 ==> p[N - 1] == |data|))
      && (s.outcome.ChunkNotAcked? ==> |p| * ChunkSize == s.outcome.offset)
  {
    var p := s.progress;
    var N := NumChunks(|data|);
    forall i, j | 0 <= i < j < |p|
      ensures p[i] < p[j]
    {
      NumChunksBound(|data|, j);
    }
    forall j | 0 <= j < |p|
      ensures 0 < p[j] <= |data|
    {
      NumChunksBound(|data|, j);
    }
    if N > 0 {
      NumChunksBound(|data|, N);
    }
  }

  /**
   A session succeeds exactly when the header reply, every chunk reply and
   the final reply are all acknowledgments. Then every chunk was written in
   order, exactly NumChunks + 2 replies were read, and the summary reports
   NumChunks chunks.
   */
  lemma SuccessIffAllAcked(data: seq<byte>, script: seq<Reply>)
    ensures var s := Transfer(data, script); var N := NumChunks(|data|);
      && (s.outcome.Done? <==> |data| < Two32 && AllAcked(script, N + 2))
      && (s.outcome.Done? ==>
            && s.outcome.chunkCount == N
            && Sent(s.trace)[1..] == Chunks(data)
            && Received(s.trace) == Replies(script, 0, N + 2))
  {
    if |data| >= Two32 {
      TransferOverflow(data, script);
    } else {
      TransferDescribed(data, script);
      SuccessOf(Transfer(data, script), data, script);
    }
  }

  /** The session-level half of `SuccessIffAllAcked`. */
  lemma SuccessOf(s: Session, data: seq<byte>, script: seq<Reply>)
    requires Describes(s, data, script)
    ensures var N := NumChunks(|data|);
      && (s.outcome.Done? <==> AllAcked(script, N + 2))
      && (s.outcome.Done? ==>
            && s.outcome.chunkCount == N
            && Sent(s.trace)[1..] == Chunks(data)
            && Received(s.trace) == Replies(script, 0, N + 2))
  {
    var N := NumChunks(|data|);
    AckRunCovers(script, N + 2, N + 2);
    if s.outcome.Done? {
      DropHeader(Header(|data|), Chunks(data), N);
    }
  }

  /**
   The final acknowledgment is refused exactly when everything before it
   was acknowledged and it was not; it is read only after every chunk.
   */
  lemma FinalRejected(data: seq<byte>, script: seq<Reply>)
    ensures var s := Transfer(data, script); var N := NumChunks(|data|);
      && (s.outcome == FinalNotAcked <==>
            |data| < Two32 && AllAcked(script, N + 1) && !IsAck(ReplyAt(script, N + 1)))
      && (s.outcome == FinalNotAcked ==>
            && Sent(s.trace)[1..] == Chunks(data)
            && Received(s.trace) == Replies(script, 0, N + 2))
  {
    if |data| >= Two32 {
      TransferOverflow(data, script);
    } else {
      TransferDescribed(data, script);
      FinalRejectedOf(Transfer(data, script), data, script);
    }
  }

  /** The session-level half of `FinalRejected`. */
  lemma FinalRejectedOf(s: Session, data: seq<byte>, script: seq<Reply>)
    requires Describes(s, data, script)
    ensures var N := NumChunks(|data|);
      && (s.outcome == FinalNotAcked <==> AllAcked(script, N + 1) && !IsAck(ReplyAt(script, N + 1)))
      && (s.outcome == FinalNotAcked ==>
            && Sent(s.trace)[1..] == Chunks(data)
            && Received(s.trace) == Replies(script, 0, N + 2))
  {
    var N := NumChunks(|data|);
    AckRunCovers(script, N + 2, N + 1);
    AckRunCovers(script, N + 2, N + 2);
    assert AllAcked(script, N + 2) <==> AllAcked(script, N + 1) && IsAck(ReplyAt(script, N + 1));
    if s.outcome == FinalNotAcked {
      DropHeader(Header(|data|), Chunks(data), N);
    }
  }

  /**
   Writes and reads alternate strictly, the replies read are the script's
   first replies in order, and there is one reply per write plus at most one
   (the final acknowledgment).
   */
  lemma LockStepExchange(data: seq<byte>, script: seq<Reply>)
    ensures var s := Transfer(data, script);
      && LockStep(s.trace)
      && Received(s.trace) == Replies(script, 0, |Received(s.trace)|)
      && |Sent(s.trace)| <= |Received(s.trace)| <= |Sent(s.trace)| + 1
  {
    if |data| >= Two32 {
      TransferOverflow(data, script);
    } else {
      TransferDescribed(data, script);
      LockStepOf(Transfer(data, script), data, script);
    }
  }

  /** The session-level half of `LockStepExchange`. */
  lemma LockStepOf(s: Session, data: seq<byte>, script: seq<Reply>)
    requires Describes(s, data, script)
    ensures LockStep(s.trace)
    ensures Received(s.trace) == Replies(script, 0, |Received(s.trace)|)
    ensures |Sent(s.trace)| <= |Received(s.trace)| <= |Sent(s.trace)| + 1
  {
  }

  /**
   An empty payload still sends the header (four zero bytes) and waits for
   its acknowledgment; no chunk is written and the next read is the final
   acknowledgment.
   */
  lemma EmptyPayload(script: seq<Reply>)
    ensures var r0, r1 := ReplyAt(script, 0), ReplyAt(script, 1);
      Transfer([], script)
        == if !IsAck(r0) then Session([Wrote([0, 0, 0, 0]), Heard(r0)], [], HeaderNotAcked)
           else Session([Wrote([0, 0, 0, 0]), Heard(r0), Heard(r1)], [], if IsAck(r1) then Done(0) else FinalNotAcked)
  {
    assert Header(0) == [0, 0, 0, 0];
    if IsAck(ReplyAt(script, 0)) {
      EmptyPayloadLoop(script);
    } else {
      TransferOpens([], script);
    }
  }

  /** After an acknowledged header, an empty payload goes straight to the final acknowledgment. */
  lemma EmptyPayloadLoop(script: seq<Reply>)
    requires IsAck(ReplyAt(script, 0))
    ensures var r1 := ReplyAt(script, 1);
      Transfer([], script) == Session([Wrote(Header(0)), Heard(ReplyAt(script, 0)), Heard(r1)], [], if IsAck(r1) then Done(0) else FinalNotAcked)
  {
    var r1 := ReplyAt(script, 1);
    assert NumChunks(0) == 0;
    assert SendChunks([], script, 0, 0) == Session([Heard(r1)], [], if IsAck(r1) then Done(0) else FinalNotAcked);
    TransferOpens([], script);
  }

  /** A 2500-byte payload against a receiver that always acknowledges: three chunks of 1024, 1024 and 452 bytes. */
  lemma AllAckedExample(data: seq<byte>)
    requires |data| == 2500
    ensures var s := Transfer(data, seq(5, _ => Byte(Ack)));
      && s.outcome == Done(3)
      && |Sent(s.trace)| == 4
      && |Sent(s.trace)[1]| == 1024 && |Sent(s.trace)[2]| == 1024 && |Sent(s.trace)[3]| == 452
      && s.progress == [1024, 2048, 2500]
  {
    var script := seq(5, _ => Byte(Ack));
    assert NumChunks(2500) == 3;
    assert AllAcked(script, 5);
    SuccessIffAllAcked(data, script);
    ProgressCounter(data, script);
    ChunkLengths(data);
    ChunksAreSlices(data, 2);
    var s := Transfer(data, script);
    assert Sent(s.trace)[1..] == Chunks(data);
  }

  /**
   A 2500-byte payload whose second chunk is answered with 0x15: the
   session fails at offset 1024 and the third chunk is never written.
   */
  lemma SecondChunkRefusedExample(data: seq<byte>)
    requires |data| == 2500
    ensures var s := Transfer(data, [Byte(Ack), Byte(Ack), Byte(0x15)]);
      && s.outcome == ChunkNotAcked(1024)
      && |Sent(s.trace)| == 3
      && s.progress == [1024]
  {
    var script := [Byte(Ack), Byte(Ack), Byte(0x15)];
    assert NumChunks(2500) == 3;
    assert AllAcked(script, 2);
    ChunkRejected(data, script, 1);
    ProgressCounter(data, script);
    var s := Transfer(data, script);
    assert |Sent(s.trace)[1..]| == 2;
  }
}
