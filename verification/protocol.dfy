/**
 The lock-step send protocol of `transfer_binary`: a 4-byte big-endian size
 header, then the payload in chunks of at most 1024 bytes, each write answered
 by one acknowledgment byte, then one final acknowledgment.

 The serial port is abstracted away. The receiver is a script of replies, one
 per `ser.read(1)`; the session records what was written and read, in order.
 */
module Protocol {
  import opened Wrappers
  import opened BigEndian
  import opened Chunking

  /** Width of the size header in bytes. */
  const HeaderWidth: nat := 4

  /** The acknowledgment byte. */
  const Ack: byte := 0x06

  /** What one `ser.read(1)` returns: nothing after the timeout, or one byte. */
  datatype Reply = Timeout | Byte(value: byte)

  /** One step on the line, as seen by the sender. */
  datatype Event = Wrote(unit: seq<byte>) | Heard(reply: Reply)

  /** How the session ends. `Done` carries the number of chunks sent. */
  datatype Outcome =
    | Done(chunkCount: nat)
    | HeaderNotAcked
    | ChunkNotAcked(offset: nat)
    | FinalNotAcked
    | SizeOverflow

  /**
   A finished session: every write and read in order, the value of the
   `total_sent` counter after each acknowledged chunk, and the outcome.
   */
  datatype Session = Session(trace: seq<Event>, progress: seq<nat>, outcome: Outcome)

  /** The source compares the read bytes with `b'\x06'`; an empty read never matches. */
  predicate IsAck(r: Reply)
  {
    r == Byte(Ack)
  }

  /**
   The reply to the `m`-th read. A receiver that has nothing more to say lets
   every further read time out.
   */
  function ReplyAt(script: seq<Reply>, m: nat): Reply
  {
    if m < |script| then script[m] else Timeout
  }

  /** The units written, in order. */
  function Sent(t: seq<Event>): seq<seq<byte>>
  {
    if |t| == 0 then []
    else (if t[0].Wrote? then [t[0].unit] else []) + Sent(t[1..])
  }

  /** The replies read, in order. */
  function Received(t: seq<Event>): seq<Reply>
  {
    if |t| == 0 then []
    else (if t[0].Heard? then [t[0].reply] else []) + Received(t[1..])
  }

  /**
   One full session for payload `data` against the receiver `script`.
   `to_bytes` raises before anything is written when the size needs more than
   four bytes; otherwise the header is written and its acknowledgment read.
   */
  function Transfer(data: seq<byte>, script: seq<Reply>): Session
  {
    match ToBytes(|data|, HeaderWidth)
    case None => Session([], [], SizeOverflow)
    case Some(header) =>
      var ack := ReplyAt(script, 0);
      var opening := [Wrote(header), Heard(ack)];
      if !IsAck(ack) then Session(opening, [], HeaderNotAcked)
      else
        var rest := SendChunks(data, script, 0, 0);
        Session(opening + rest.trace, rest.progress, rest.outcome)
  }

  /**
   The chunk loop from iteration `k` on (offset k * ChunkSize), with
   `sent` bytes counted so far, followed by the final acknowledgment. The reply
   to chunk `k` is the (k + 1)-th read of the session, the header's being the
   0-th.
   */
  function SendChunks(data: seq<byte>, script: seq<Reply>, k: nat, sent: nat): (s: Session)
    requires k <= NumChunks(|data|)
    ensures s.outcome.Done? || s.outcome.FinalNotAcked? || s.outcome.ChunkNotAcked?
    ensures s.outcome.Done? ==> s.outcome.chunkCount == NumChunks(|data|)
    ensures s.outcome.ChunkNotAcked? ==>
              && k * ChunkSize <= s.outcome.offset < |data|
              && s.outcome.offset % ChunkSize == 0
    ensures |s.progress| <= NumChunks(|data|) - k
    decreases NumChunks(|data|) - k
  {
    var i := k * ChunkSize;
    var ack := ReplyAt(script, k + 1);
    NumChunksBound(|data|, k);
    if i < |data| then
      var chunk := ChunkAt(data, k);
      var step := [Wrote(chunk), Heard(ack)];
      if !IsAck(ack) then Session(step, [], ChunkNotAcked(i))
      else
        var sent' := sent + |chunk|;
        var rest := SendChunks(data, script, k + 1, sent');
        Session(step + rest.trace, [sent'] + rest.progress, rest.outcome)
    else
      Session([Heard(ack)], [], if IsAck(ack) then Done(k) else FinalNotAcked)
  }
}
