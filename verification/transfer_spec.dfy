/**
 A non-recursive reference description of a transfer session, in terms of
 how many replies in a row are acknowledgments, and the theorem that the
 protocol function meets it on every payload and every receiver script.
 */
module TransferSpec {
  import opened Wrappers
  import opened BigEndian
  import opened Chunking
  import opened Protocol

  /**
   How many consecutive acknowledgments the script holds from read `from` on,
   looking no further than read `limit - 1`.
   */
  function AckRun(script: seq<Reply>, from: nat, limit: nat): (a: nat)
    requires from <= limit
    ensures from + a <= limit
    ensures forall j :: from <= j < from + a ==> IsAck(ReplyAt(script, j))
    ensures from + a < limit ==> !IsAck(ReplyAt(script, from + a))
    decreases limit - from
  {
    if from == limit || !IsAck(ReplyAt(script, from)) then 0
    else 1 + AckRun(script, from + 1, limit)
  }

  /** The `count` replies of reads `from`, `from + 1`, … */
  function Replies(script: seq<Reply>, from: nat, count: nat): seq<Reply>
  {
    seq(count, j requires 0 <= j => ReplyAt(script, from + j))
  }

  /**
   The trace of a strictly synchronous exchange: each unit written is
   followed by one read; reads left over once the units run out come last.
   */
  function Interleave(units: seq<seq<byte>>, replies: seq<Reply>): seq<Event>
    requires |units| <= |replies|
    decreases |replies|
  {
    if |replies| == 0 then []
    else if |units| == 0 then [Heard(replies[0])] + Interleave(units, replies[1..])
    else [Wrote(units[0]), Heard(replies[0])] + Interleave(units[1..], replies[1..])
  }

  /**
   Writes and reads alternate strictly, starting with a write; only the very
   last event may be a second read in a row (the final acknowledgment).
   */
  ghost predicate LockStep(t: seq<Event>)
  {
    forall j :: 0 <= j < |t| ==> (t[j].Wrote? <==> j % 2 == 0 && j + 1 < |t|)
  }

  /** Bytes of an `n`-byte payload covered by its first `chunks` chunks. */
  function SentAfter(n: nat, chunks: nat): nat
  {
    Min(chunks * ChunkSize, n)
  }

  /**
   The `total_sent` values after chunks `k`, `k + 1`, … are acknowledged,
   `count` of them, for a payload of `n` bytes.
   */
  function Progress(n: nat, k: nat, count: nat): (p: seq<nat>)
    ensures |p| == count
    ensures forall j :: 0 <= j < count ==> p[j] == SentAfter(n, k + j + 1)
    decreases count
  {
    if count == 0 then [] else [SentAfter(n, k + 1)] + Progress(n, k + 1, count - 1)
  }

  /** Chunks acknowledged when `a` replies in a row are acknowledgments, the header's first. */
  function AckedChunks(a: nat, N: nat): nat
  {
    if a == 0 then 0 else Min(a - 1, N)
  }

  /**
   How a session over `N` chunks ends when its first `a` replies are
   acknowledgments: the first refused reply names the stage that fails.
   */
  function OutcomeFor(a: nat, N: nat): Outcome
  {
    if a == 0 then HeaderNotAcked
    else if a <= N then ChunkNotAcked((a - 1) * ChunkSize)
    else if a == N + 1 then FinalNotAcked
    else Done(N)
  }

  /**
   The session described directly by `a`, the number of leading
   acknowledgments among the at most NumChunks + 2 replies the protocol can
   read: a header plus `Min(a, N)` chunks are written, `Min(a + 1, N + 2)`
   replies are read, and the first refused reply names the failure.
   */
  function Reference(data: seq<byte>, script: seq<Reply>): Session
  {
    var n := |data|;
    match ToBytes(n, HeaderWidth)
    case None => Session([], [], SizeOverflow)
    case Some(header) =>
      var N := NumChunks(n);
      var a := AckRun(script, 0, N + 2);
      var units := [header] + Chunks(data)[..Min(a, N)];
      var replies := Replies(script, 0, Min(a + 1, N + 2));
      Session(Interleave(units, replies), Progress(n, 0, AckedChunks(a, N)), OutcomeFor(a, N))
  }

  /** An interleaving holds one event per unit and one per reply. */
  lemma {:induction false} InterleaveLength(units: seq<seq<byte>>, replies: seq<Reply>)
    requires |units| <= |replies|
    ensures |Interleave(units, replies)| == |units| + |replies|
    decreases |replies|
  {
    if |replies| > 0 {
      if |units| == 0 {
        InterleaveLength(units, replies[1..]);
      } else {
        InterleaveLength(units[1..], replies[1..]);
      }
    }
  }

  /** The units written are recovered from an interleaving. */
  lemma {:induction false} InterleaveSent(units: seq<seq<byte>>, replies: seq<Reply>)
    requires |units| <= |replies|
    ensures Sent(Interleave(units, replies)) == units
    decreases |replies|
  {
    if |replies| > 0 {
      if |units| == 0 {
        InterleaveSent(units, replies[1..]);
      } else {
        InterleaveSent(units[1..], replies[1..]);
        assert units == [units[0]] + units[1..];
      }
    }
  }

  /** The replies read are recovered from an interleaving. */
  lemma {:induction false} InterleaveReceived(units: seq<seq<byte>>, replies: seq<Reply>)
    requires |units| <= |replies|
    ensures Received(Interleave(units, replies)) == replies
    decreases |replies|
  {
    if |replies| > 0 {
      if |units| == 0 {
        InterleaveReceived(units, replies[1..]);
      } else {
        InterleaveReceived(units[1..], replies[1..]);
      }
      assert replies == [replies[0]] + replies[1..];
    }
  }

  /** The writes of `t` sit exactly at its even positions 0, 2, ..., 2 * (w - 1). */
  ghost predicate WritesAtEvens(t: seq<Event>, w: nat)
  {
    forall j :: 0 <= j < |t| ==> (t[j].Wrote? <==> j % 2 == 0 && j / 2 < w)
  }

  /** In an interleaving the writes sit exactly at the even positions, one per unit. */
  lemma {:induction false} InterleaveAlternates(units: seq<seq<byte>>, replies: seq<Reply>)
    requires |units| <= |replies|
    ensures WritesAtEvens(Interleave(units, replies), |units|)
    decreases |replies|
  {
    var t := Interleave(units, replies);
    if |replies| > 0 {
      if |units| == 0 {
        InterleaveAlternates(units, replies[1..]);
        assert t[1..] == Interleave(units, replies[1..]);
      } else {
        var rest := Interleave(units[1..], replies[1..]);
        InterleaveAlternates(units[1..], replies[1..]);
        assert t == [Wrote(units[0]), Heard(replies[0])] + rest;
        forall j | 2 <= j < |t|
          ensures t[j].Wrote? <==> j % 2 == 0 && j / 2 < |units|
        {
          assert t[j] == rest[j - 2];
          assert (j - 2) % 2 == j % 2 && (j - 2) / 2 == j / 2 - 1;
        }
      }
    }
  }

  /** With one read per unit, plus at most one final read, the interleaving is lock-step. */
  lemma InterleaveLockStep(units: seq<seq<byte>>, replies: seq<Reply>)
    requires |units| <= |replies| <= |units| + 1
    ensures LockStep(Interleave(units, replies))
  {
    InterleaveLength(units, replies);
    InterleaveAlternates(units, replies);
  }

  /** Prepending one unit and its reply to an interleaving. */
  lemma InterleaveCons(u: seq<byte>, r: Reply, units: seq<seq<byte>>, replies: seq<Reply>)
    requires |units| <= |replies|
    ensures Interleave([u] + units, [r] + replies) == [Wrote(u), Heard(r)] + Interleave(units, replies)
  {
    assert ([u] + units)[1..] == units;
    assert ([r] + replies)[1..] == replies;
  }

  /** A slice of `m` elements at `k` is its first element followed by the `m - 1` elements after it. */
  lemma SliceShift<T>(xs: seq<T>, k: nat, m: nat, c: nat)
    requires k + m <= |xs| && m == c + 1
    ensures xs[k .. k + m] == [xs[k]] + xs[k + 1 .. k + 1 + c]
  {
  }

  /** `count + 1` replies are the first one followed by the next `count`. */
  lemma RepliesCons(script: seq<Reply>, from: nat, count: nat)
    ensures Replies(script, from, count + 1) == [ReplyAt(script, from)] + Replies(script, from + 1, count)
  {
  }

  /** One acknowledged iteration of the chunk loop. */
  lemma SendChunksStep(data: seq<byte>, script: seq<Reply>, k: nat, sent: nat)
    requires k < NumChunks(|data|)
    requires IsAck(ReplyAt(script, k + 1))
    ensures
      var chunk := ChunkAt(data, k);
      var rest := SendChunks(data, script, k + 1, sent + |chunk|);
      SendChunks(data, script, k, sent)
        == Session([Wrote(chunk), Heard(ReplyAt(script, k + 1))] + rest.trace, [sent + |chunk|] + rest.progress, rest.outcome)
  {
    NumChunksBound(|data|, k);
  }

  /** How the chunk loop from iteration `k` on ends, given the acknowledgments that follow. */
  lemma {:induction false} SendChunksOutcome(data: seq<byte>, script: seq<Reply>, k: nat)
    requires k <= NumChunks(|data|)
    ensures
      var N := NumChunks(|data|);
      var a := AckRun(script, k + 1, N + 2);
      SendChunks(data, script, k, SentAfter(|data|, k)).outcome
        == if a < N - k then ChunkNotAcked((k + a) * ChunkSize)
           else if a == N - k then FinalNotAcked
           else Done(N)
    decreases NumChunks(|data|) - k
  {
    var n := |data|;
    var N := NumChunks(n);
    NumChunksBound(n, k);
    if k < N && IsAck(ReplyAt(script, k + 1)) {
      assert SentAfter(n, k) + |ChunkAt(data, k)| == SentAfter(n, k + 1);
      SendChunksStep(data, script, k, SentAfter(n, k));
      SendChunksOutcome(data, script, k + 1);
    }
  }

  /** The `total_sent` values the chunk loop reports from iteration `k` on. */
  lemma {:induction false} SendChunksProgress(data: seq<byte>, script: seq<Reply>, k: nat)
    requires k <= NumChunks(|data|)
    ensures
      var N := NumChunks(|data|);
      var a := AckRun(script, k + 1, N + 2);
      SendChunks(data, script, k, SentAfter(|data|, k)).progress == Progress(|data|, k, Min(a, N - k))
    decreases NumChunks(|data|) - k
  {
    var n := |data|;
    var N := NumChunks(n);
    NumChunksBound(n, k);
    if k < N && IsAck(ReplyAt(script, k + 1)) {
      assert SentAfter(n, k) + |ChunkAt(data, k)| == SentAfter(n, k + 1);
      SendChunksStep(data, script, k, SentAfter(n, k));
      SendChunksProgress(data, script, k + 1);
    }
  }

  /** An iteration of the chunk loop whose chunk is refused ends the session after that chunk and its reply. */
  lemma SendChunksRefused(data: seq<byte>, script: seq<Reply>, k: nat, sent: nat)
    requires k < NumChunks(|data|)
    requires !IsAck(ReplyAt(script, k + 1))
    ensures SendChunks(data, script, k, sent).trace == LoopTrace(Chunks(data), script, k)
  {
    var cs, ack := Chunks(data), ReplyAt(script, k + 1);
    NumChunksBound(|data|, k);
    ChunksAreSlices(data, k);
    assert SendChunks(data, script, k, sent).trace == [Wrote(cs[k]), Heard(ack)];
    assert LoopAcks(cs, script, k) == 0;
    SliceShift(cs, k, 1, 0);
    RepliesCons(script, k + 1, 0);
    InterleaveCons(cs[k], ack, [], []);
  }

  /** Once the offsets run out only the final acknowledgment is read. */
  lemma SendChunksFinal(data: seq<byte>, script: seq<Reply>, k: nat, sent: nat)
    requires k == NumChunks(|data|)
    ensures SendChunks(data, script, k, sent).trace == LoopTrace(Chunks(data), script, k)
  {
    var ack := ReplyAt(script, k + 1);
    NumChunksBound(|data|, k);
    assert SendChunks(data, script, k, sent).trace == [Heard(ack)];
    RepliesCons(script, k + 1, 0);
    assert Interleave([], [ack]) == [Heard(ack)];
  }

  /**
   Leading acknowledgments among the replies the chunk loop can read from
   iteration `k` on, over a payload cut into the chunks `cs`.
   */
  function LoopAcks(cs: seq<seq<byte>>, script: seq<Reply>, k: nat): nat
    requires k <= |cs|
  {
    AckRun(script, k + 1, |cs| + 2)
  }

  /** How many chunks the loop writes from iteration `k` on: up to and including the first refused one. */
  function LoopCount(cs: seq<seq<byte>>, script: seq<Reply>, k: nat): nat
    requires k <= |cs|
  {
    Min(LoopAcks(cs, script, k) + 1, |cs| - k)
  }

  /** The chunks the loop writes from iteration `k` on. */
  function LoopUnits(cs: seq<seq<byte>>, script: seq<Reply>, k: nat): seq<seq<byte>>
    requires k <= |cs|
  {
    cs[k .. k + LoopCount(cs, script, k)]
  }

  /** The replies the loop reads from iteration `k` on, the final acknowledgment included. */
  function LoopReplies(cs: seq<seq<byte>>, script: seq<Reply>, k: nat): seq<Reply>
    requires k <= |cs|
  {
    Replies(script, k + 1, Min(LoopAcks(cs, script, k) + 1, |cs| + 1 - k))
  }

  /** The writes and reads expected from the chunk loop from iteration `k` on. */
  function LoopTrace(cs: seq<seq<byte>>, script: seq<Reply>, k: nat): seq<Event>
    requires k <= |cs|
  {
    Interleave(LoopUnits(cs, script, k), LoopReplies(cs, script, k))
  }

  /** An acknowledged chunk adds one to the run of acknowledgments the loop sees. */
  lemma LoopAcksStep(cs: seq<seq<byte>>, script: seq<Reply>, k: nat)
    requires k < |cs|
    requires IsAck(ReplyAt(script, k + 1))
    ensures LoopAcks(cs, script, k) == LoopAcks(cs, script, k + 1) + 1
  {
  }

  /** An acknowledged chunk makes the loop write one more unit. */
  lemma LoopCountGrow(cs: seq<seq<byte>>, script: seq<Reply>, k: nat)
    requires k < |cs|
    requires IsAck(ReplyAt(script, k + 1))
    ensures LoopCount(cs, script, k) == LoopCount(cs, script, k + 1) + 1
  {
    LoopAcksStep(cs, script, k);
  }

  /** An acknowledged chunk is written ahead of the rest of the loop's chunks. */
  lemma LoopUnitsStep(cs: seq<seq<byte>>, script: seq<Reply>, k: nat)
    requires k < |cs|
    requires IsAck(ReplyAt(script, k + 1))
    ensures LoopUnits(cs, script, k) == [cs[k]] + LoopUnits(cs, script, k + 1)
  {
    LoopCountGrow(cs, script, k);
    SliceShift(cs, k, LoopCount(cs, script, k), LoopCount(cs, script, k + 1));
  }

  /** An acknowledged chunk's reply is read ahead of the rest of the loop's replies. */
  lemma LoopRepliesStep(cs: seq<seq<byte>>, script: seq<Reply>, k: nat)
    requires k < |cs|
    requires IsAck(ReplyAt(script, k + 1))
    ensures LoopReplies(cs, script, k) == [ReplyAt(script, k + 1)] + LoopReplies(cs, script, k + 1)
  {
    LoopAcksStep(cs, script, k);
    var r' := |LoopReplies(cs, script, k + 1)|;
    RepliesCons(script, k + 1, r');
  }

  /** An acknowledged chunk contributes its write and its reply ahead of the rest of the loop. */
  lemma LoopTraceStep(cs: seq<seq<byte>>, script: seq<Reply>, k: nat)
    requires k < |cs|
    requires IsAck(ReplyAt(script, k + 1))
    ensures LoopTrace(cs, script, k)
              == [Wrote(cs[k]), Heard(ReplyAt(script, k + 1))] + LoopTrace(cs, script, k + 1)
  {
    LoopUnitsStep(cs, script, k);
    LoopRepliesStep(cs, script, k);
    InterleaveCons(cs[k], ReplyAt(script, k + 1), LoopUnits(cs, script, k + 1), LoopReplies(cs, script, k + 1));
  }

  /** The writes and reads of the chunk loop from iteration `k` on. */
  lemma {:induction false} SendChunksTrace(data: seq<byte>, script: seq<Reply>, k: nat)
    requires k <= NumChunks(|data|)
    ensures SendChunks(data, script, k, SentAfter(|data|, k)).trace == LoopTrace(Chunks(data), script, k)
    decreases NumChunks(|data|) - k
  {
    var n := |data|;
    var N := NumChunks(n);
    if k < N && IsAck(ReplyAt(script, k + 1)) {
      NumChunksBound(n, k);
      ChunksAreSlices(data, k);
      assert SentAfter(n, k) + |ChunkAt(data, k)| == SentAfter(n, k + 1);
      SendChunksStep(data, script, k, SentAfter(n, k));
      SendChunksTrace(data, script, k + 1);
      LoopTraceStep(Chunks(data), script, k);
    } else if k < N {
      SendChunksRefused(data, script, k, SentAfter(n, k));
    } else {
      SendChunksFinal(data, script, k, SentAfter(n, k));
    }
  }

  /** The size header of an `n`-byte payload, when the size fits four bytes. */
  function Header(n: nat): (h: seq<byte>)
    requires n < Two32
    ensures ToBytes(n, HeaderWidth) == Some(h)
  {
    Pow256Four();
    ToBytes(n, HeaderWidth).value
  }

  /** The session opens with the header and its reply, and goes on to the chunk loop only on an acknowledgment. */
  lemma TransferOpens(data: seq<byte>, script: seq<Reply>)
    requires |data| < Two32
    ensures
      var s := Transfer(data, script);
      var r0 := ReplyAt(script, 0);
      var rest := SendChunks(data, script, 0, SentAfter(|data|, 0));
      var opening := [Wrote(Header(|data|)), Heard(r0)];
      && (!IsAck(r0) ==> s == Session(opening, [], HeaderNotAcked))
      && (IsAck(r0) ==> s == Session(opening + rest.trace, rest.progress, rest.outcome))
  {
    assert SentAfter(|data|, 0) == 0;
  }

  /** How a session whose size fits the header ends. */
  lemma TransferOutcome(data: seq<byte>, script: seq<Reply>)
    requires |data| < Two32
    ensures
      var N := NumChunks(|data|);
      Transfer(data, script).outcome == OutcomeFor(AckRun(script, 0, N + 2), N)
  {
    TransferOpens(data, script);
    if IsAck(ReplyAt(script, 0)) {
      SendChunksOutcome(data, script, 0);
    }
  }

  /** The `total_sent` values a session whose size fits the header reports. */
  lemma TransferProgress(data: seq<byte>, script: seq<Reply>)
    requires |data| < Two32
    ensures
      var N := NumChunks(|data|);
      Transfer(data, script).progress == Progress(|data|, 0, AckedChunks(AckRun(script, 0, N + 2), N))
  {
    TransferOpens(data, script);
    if IsAck(ReplyAt(script, 0)) {
      SendChunksProgress(data, script, 0);
    }
  }

  /** The writes and reads of a session whose size fits the header. */
  lemma TransferTrace(data: seq<byte>, script: seq<Reply>)
    requires |data| < Two32
    ensures
      var N := NumChunks(|data|);
      var a := AckRun(script, 0, N + 2);
      Transfer(data, script).trace
        == Interleave([Header(|data|)] + Chunks(data)[..Min(a, N)], Replies(script, 0, Min(a + 1, N + 2)))
  {
    var N := NumChunks(|data|);
    var a := AckRun(script, 0, N + 2);
    if IsAck(ReplyAt(script, 0)) {
      TransferTraceAcked(data, script, N, a);
    } else {
      TransferTraceRefused(data, script, N, a);
    }
  }

  /** A refused header is the whole exchange. */
  lemma TransferTraceRefused(data: seq<byte>, script: seq<Reply>, N: nat, a: nat)
    requires |data| < Two32
    requires N == NumChunks(|data|) && a == AckRun(script, 0, N + 2)
    requires !IsAck(ReplyAt(script, 0))
    ensures Transfer(data, script).trace
      == Interleave([Header(|data|)] + Chunks(data)[..Min(a, N)], Replies(script, 0, Min(a + 1, N + 2)))
  {
    var h, r0 := Header(|data|), ReplyAt(script, 0);
    assert a == 0;
    assert [h] + Chunks(data)[..Min(a, N)] == [h] by { assert Min(a, N) == 0; }
    assert Replies(script, 0, Min(a + 1, N + 2)) == [r0] by { assert Min(a + 1, N + 2) == 1; }
    assert Transfer(data, script).trace == [Wrote(h), Heard(r0)] by { TransferOpens(data, script); }
    InterleaveCons(h, r0, [], []);
    assert [h] + [] == [h] && [r0] + [] == [r0];
  }

  /** An acknowledged header is followed by the chunk loop's exchange. */
  lemma TransferTraceAcked(data: seq<byte>, script: seq<Reply>, N: nat, a: nat)
    requires |data| < Two32
    requires N == NumChunks(|data|) && a == AckRun(script, 0, N + 2)
    requires IsAck(ReplyAt(script, 0))
    ensures Transfer(data, script).trace
      == Interleave([Header(|data|)] + Chunks(data)[..Min(a, N)], Replies(script, 0, Min(a + 1, N + 2)))
  {
    var h, cs := Header(|data|), Chunks(data);
    var start := [Wrote(h), Heard(ReplyAt(script, 0))] + LoopTrace(cs, script, 0);
    assert Transfer(data, script).trace == start by { TransferAckedOpening(data, script); }
    assert start == Interleave([h] + cs[..Min(a, N)], Replies(script, 0, Min(a + 1, N + 2))) by {
      AckedExchange(h, cs, N, a, script);
    }
  }

  /** After an acknowledged header the trace is the header exchange followed by the loop's. */
  lemma TransferAckedOpening(data: seq<byte>, script: seq<Reply>)
    requires |data| < Two32
    requires IsAck(ReplyAt(script, 0))
    ensures Transfer(data, script).trace
      == [Wrote(Header(|data|)), Heard(ReplyAt(script, 0))] + LoopTrace(Chunks(data), script, 0)
  {
    TransferOpens(data, script);
    SendChunksTrace(data, script, 0);
  }

  /**
   The header exchange followed by the loop's is the lock-step interleaving
   of the header and the written chunks with the replies read.
   */
  lemma AckedExchange(h: seq<byte>, cs: seq<seq<byte>>, N: nat, a: nat, script: seq<Reply>)
    requires N == |cs| && a == AckRun(script, 0, N + 2)
    requires IsAck(ReplyAt(script, 0))
    ensures
      [Wrote(h), Heard(ReplyAt(script, 0))] + LoopTrace(cs, script, 0)
        == Interleave([h] + cs[..Min(a, N)], Replies(script, 0, Min(a + 1, N + 2)))
  {
    var r0 := ReplyAt(script, 0);
    var units, replies := LoopUnits(cs, script, 0), LoopReplies(cs, script, 0);
    assert a == LoopAcks(cs, script, 0) + 1;
    assert cs[..Min(a, N)] == units;
    assert Replies(script, 0, Min(a + 1, N + 2)) == [r0] + replies by {
      RepliesCons(script, 0, |replies|);
    }
    InterleaveCons(h, r0, units, replies);
  }

  /** The protocol function agrees with the reference description on every payload and script. */
  lemma TransferMatchesReference(data: seq<byte>, script: seq<Reply>)
    ensures Transfer(data, script) == Reference(data, script)
  {
    Pow256Four();
    if |data| < Two32 {
      TransferOutcome(data, script);
      TransferProgress(data, script);
      TransferTrace(data, script);
    }
  }
}
