/** ReceiveStringAsync, the frame assembler shared by the canonical listener
    (Services/WsListener.cs) and the prototype one (ClientMessages/ClientMessageHandler.cs):
    receives into a 4 KiB buffer until a chunk ends the message, checking the token before
    every receive, and decodes the collected bytes when the last chunk is text. A receive
    that raises because the peer dropped the connection escapes it. */
module Receiving {
  import opened Wrappers
  import opened Text
  import opened Json
  import opened Lists
  import opened Transport

  /** How a receive ends: cancellation raised, the connection dropped (WebSocketException
      raised), null (the message was not text), or a string. */
  datatype Received = Cancelled | Failed | NullString | Message(text: string)

  /** How many receives the message at the head of the script takes. */
  function ChunkCount(frames: seq<Frame>): (c: nat)
    ensures c >= 1
    decreases Weight(frames)
  {
    NextChunkBounded(frames, BufferSize);
    var (r, rest) := NextChunk(frames, BufferSize);
    if r.endOfMessage then 1 else 1 + ChunkCount(rest)
  }

  /** The script left after k receives. */
  function AfterChunks(frames: seq<Frame>, k: nat): seq<Frame> {
    if k == 0 then frames else NextChunk(AfterChunks(frames, k - 1), BufferSize).1
  }

  /** Assembling a message consumes at least one frame of a non-empty script. */
  lemma {:induction false} AssembleShrinks(frames: seq<Frame>)
    requires frames != []
    ensures Weight(Assemble(frames).2) < Weight(frames)
  {
    if frames[0].kind != CloseMessage && !frames[0].endOfMessage && frames[1..] != [] {
      AssembleShrinks(frames[1..]);
    }
  }

  /** The texts a listener on an Open socket passes on, in order: each message of the
      script up to the first close (or up to a message the script does not finish),
      decoded, leaving out the messages that are not text and those that decode to the
      empty string. */
  function Messages(frames: seq<Frame>, codec: Codec): seq<string>
    decreases Weight(frames)
  {
    if frames == [] then []
    else
      AssembleShrinks(frames);
      var (bytes, kind, rest) := Assemble(frames);
      if kind == CloseMessage then []
      else (if kind == TextMessage && codec.utf8(bytes) != "" then [codec.utf8(bytes)] else [])
           + Messages(rest, codec)
  }

  /** Why the assembly loop stopped: a poll read cancelled, a receive raised because the
      script had run out, or a chunk ended the message. */
  datatype Stop = StopCancelled | StopDropped | StopEnded

  /** Where the assembly loop stops: why, the bytes collected, the type of the last chunk,
      the script left, the number of the next poll and the chunks received. */
  datatype LoopEnd = LoopEnd(stop: Stop, bytes: seq<byte>, kind: MessageType, rest: seq<Frame>,
                             polls: nat, chunks: seq<seq<byte>>)

  /** The assembly loop of ReceiveStringAsync from poll number `poll`, on the script `cur`,
      with `bytes` collected so far in `chunks`: poll the token, then receive one chunk of
      at most BufferSize bytes, until a chunk ends the message. */
  function AssemblyLoop(cur: seq<Frame>, ct: CancellationToken, poll: nat, bytes: seq<byte>,
                        chunks: seq<seq<byte>>): LoopEnd
    decreases Weight(cur)
  {
    if ct.RequestedAt(poll) then LoopEnd(StopCancelled, bytes, CloseMessage, cur, poll + 1, chunks)
    else if cur == [] then LoopEnd(StopDropped, bytes, CloseMessage, [], poll + 1, chunks)
    else
      NextChunkBounded(cur, BufferSize);
      var (r, next) := NextChunk(cur, BufferSize);
      if r.endOfMessage then LoopEnd(StopEnded, bytes + r.bytes, r.messageType, next, poll + 1, chunks + [r.bytes])
      else AssemblyLoop(next, ct, poll + 1, bytes + r.bytes, chunks + [r.bytes])
  }

  /** A poll that reads false adds one to the polls that read false before the first true. */
  lemma FirstRequestedNext(ct: CancellationToken, poll: nat, m: nat)
    requires !ct.RequestedAt(poll)
    ensures ct.FirstRequested(poll, m + 1) == 1 + ct.FirstRequested(poll + 1, m)
  {
  }

  /** Receiving k + 1 chunks is receiving one, then k of what it leaves. */
  lemma {:induction false} AfterChunksTail(frames: seq<Frame>, k: nat)
    ensures AfterChunks(frames, k + 1) == AfterChunks(NextChunk(frames, BufferSize).1, k)
  {
    if k > 0 {
      AfterChunksTail(frames, k - 1);
    }
  }

  /** When a poll reads true before the message's last receive, the loop stops there, after
      k chunks, with the script as those k receives leave it. */
  lemma {:induction false} LoopCancelled(cur: seq<Frame>, ct: CancellationToken, poll: nat,
                                         bytes: seq<byte>, chunks: seq<seq<byte>>)
    requires ct.FirstRequested(poll, ChunkCount(cur)) < ChunkCount(cur)
    ensures var k := ct.FirstRequested(poll, ChunkCount(cur));
      var e := AssemblyLoop(cur, ct, poll, bytes, chunks);
      e.stop == StopCancelled && e.rest == AfterChunks(cur, k) && e.polls == poll + k + 1
    decreases Weight(cur)
  {
    if !ct.RequestedAt(poll) {
      NextChunkBounded(cur, BufferSize);
      var (r, next) := NextChunk(cur, BufferSize);
      FirstRequestedNext(ct, poll, ChunkCount(next));
      LoopCancelled(next, ct, poll + 1, bytes + r.bytes, chunks + [r.bytes]);
      AfterChunksTail(cur, ct.FirstRequested(poll + 1, ChunkCount(next)));
    }
  }

  /** When no poll reads true, the loop takes the whole message at the head of the script,
      in ChunkCount receives; it ends with the message when the script holds all of it, and
      otherwise the last of those receives raises, one chunk short. */
  lemma {:induction false} LoopFinished(cur: seq<Frame>, ct: CancellationToken, poll: nat,
                                        bytes: seq<byte>, chunks: seq<seq<byte>>)
    requires ct.FirstRequested(poll, ChunkCount(cur)) == ChunkCount(cur)
    ensures var n := ChunkCount(cur);
      var e := AssemblyLoop(cur, ct, poll, bytes, chunks);
      && e.bytes == bytes + Assemble(cur).0 && e.rest == Assemble(cur).2 && e.polls == poll + n
      && (Complete(cur) ==> e.stop == StopEnded && e.kind == Assemble(cur).1 && |e.chunks| == |chunks| + n)
      && (!Complete(cur) ==> e.stop == StopDropped && |e.chunks| == |chunks| + n - 1)
    decreases Weight(cur)
  {
    assert !ct.RequestedAt(poll);
    if cur != [] {
      NextChunkBounded(cur, BufferSize);
      NextChunkAssembles(cur, BufferSize);
      NextChunkComplete(cur, BufferSize);
      var (r, next) := NextChunk(cur, BufferSize);
      if !r.endOfMessage {
        FirstRequestedNext(ct, poll, ChunkCount(next));
        LoopFinished(next, ct, poll + 1, bytes + r.bytes, chunks + [r.bytes]);
        assert (bytes + r.bytes) + Assemble(next).0 == bytes + (r.bytes + Assemble(next).0);
      }
    }
  }

  /** Every chunk the loop receives is at most BufferSize bytes, and together they are the
      bytes it collects. */
  lemma {:induction false} LoopChunks(cur: seq<Frame>, ct: CancellationToken, poll: nat,
                                      bytes: seq<byte>, chunks: seq<seq<byte>>)
    requires Flatten(chunks) == bytes && forall j :: 0 <= j < |chunks| ==> |chunks[j]| <= BufferSize
    ensures var e := AssemblyLoop(cur, ct, poll, bytes, chunks);
      Flatten(e.chunks) == e.bytes && forall j :: 0 <= j < |e.chunks| ==> |e.chunks[j]| <= BufferSize
    decreases Weight(cur)
  {
    if !ct.RequestedAt(poll) && cur != [] {
      NextChunkBounded(cur, BufferSize);
      var (r, next) := NextChunk(cur, BufferSize);
      FlattenSnoc(chunks, r.bytes);
      LoopChunks(next, ct, poll + 1, bytes + r.bytes, chunks + [r.bytes]);
    }
  }

  /** What one receive that did not time out means for the texts a listener hands on: a
      close or a dropped connection ends them; any other message shrinks the script and,
      when it is non-empty text, is the next text handed on. */
  lemma ReceivedStep(cur: seq<Frame>, codec: Codec, r: Received)
    requires r == if !Complete(cur) then Failed
                  else if Assemble(cur).1 == TextMessage then Message(codec.utf8(Assemble(cur).0)) else NullString
    ensures r.Failed? || Assemble(cur).1 == CloseMessage ==> Messages(cur, codec) == []
    ensures Assemble(cur).1 == CloseMessage ==> r.Failed? || r.NullString?
    ensures Assemble(cur).1 != CloseMessage ==> !r.Failed? && cur != [] && Weight(Assemble(cur).2) < Weight(cur)
    ensures Assemble(cur).1 != CloseMessage && (r.NullString? || (r.Message? && r.text == "")) ==>
      Messages(cur, codec) == Messages(Assemble(cur).2, codec)
    ensures r.Message? && r.text != "" ==> Messages(cur, codec) == [r.text] + Messages(Assemble(cur).2, codec)
  {
    if !Complete(cur) {
      IncompleteAssembles(cur);
    }
    if cur != [] {
      AssembleShrinks(cur);
      var rest := Assemble(cur).2;
      assert [] + Messages(rest, codec) == Messages(rest, codec);
    }
  }

  /** The assembly loop of ReceiveStringAsync: what it does to the socket's script, the
      token's polls and what it returns are what AssemblyLoop says; a receive that raises
      leaves the socket Aborted and a close chunk leaves it CloseReceived. */
  method ReceiveChunks(socket: Socket, ct: CancellationToken, net: Network)
    returns (stop: Stop, bytes: seq<byte>, kind: MessageType, ghost chunks: seq<seq<byte>>)
    modifies ct, net
    ensures var e := AssemblyLoop(old(net.InboxOf(socket)), ct, old(ct.polls), [], []);
      && stop == e.stop && bytes == e.bytes && kind == e.kind && chunks == e.chunks
      && net.InboxOf(socket) == e.rest && ct.polls == e.polls
    ensures net.state == if stop == StopDropped then old(net.state)[socket := Aborted]
                         else if stop == StopEnded && kind == CloseMessage then old(net.state)[socket := CloseReceived]
                         else old(net.state)
    ensures forall t :: t != socket ==> net.InboxOf(t) == old(net.InboxOf(t))
    ensures net.outbox == old(net.outbox) && net.log == old(net.log)
  {
    ghost var frames := net.InboxOf(socket);
    ghost var e := AssemblyLoop(frames, ct, ct.polls, [], []);
    bytes := [];
    chunks := [];
    ghost var cur := frames;
    while true
      invariant AssemblyLoop(cur, ct, ct.polls, bytes, chunks) == e
      invariant net.InboxOf(socket) == cur
      invariant forall t :: t != socket ==> net.InboxOf(t) == old(net.InboxOf(t))
      invariant net.state == old(net.state) && net.outbox == old(net.outbox) && net.log == old(net.log)
      decreases Weight(cur)
    {
      var cancelled := ct.IsCancellationRequested();
      if cancelled {
        return StopCancelled, bytes, CloseMessage, chunks;
      }
      var received, result := net.ReceiveAsync(socket, BufferSize);
      if !received {
        return StopDropped, bytes, CloseMessage, chunks;
      }
      NextChunkBounded(cur, BufferSize);
      bytes := bytes + result.bytes;
      chunks := chunks + [result.bytes];
      if result.endOfMessage {
        return StopEnded, bytes, result.messageType, chunks;
      }
      cur := net.InboxOf(socket);
    }
  }

  /** ReceiveStringAsync. With k the number of polls that read false among the ChunkCount
      the message needs: if one reads true first, the receive is cancelled after k chunks;
      otherwise the message is taken off the script, each chunk at most BufferSize bytes
      and their concatenation the message's bytes. If the script finishes the message, the
      result is their decoding exactly when the chunk that ended it was text; if it does
      not, the last receive fails and leaves the socket Aborted. */
  method ReceiveStringAsync(socket: Socket, ct: CancellationToken, codec: Codec, net: Network)
    returns (r: Received, ghost chunks: seq<seq<byte>>)
    modifies ct, net
    ensures var frames := old(net.InboxOf(socket));
      var k := ct.FirstRequested(old(ct.polls), ChunkCount(frames));
      k < ChunkCount(frames) ==>
        && r == Cancelled
        && net.InboxOf(socket) == AfterChunks(frames, k)
        && ct.polls == old(ct.polls) + k + 1
        && net.state == old(net.state)
    ensures var frames := old(net.InboxOf(socket));
      var k := ct.FirstRequested(old(ct.polls), ChunkCount(frames));
      k == ChunkCount(frames) ==>
        var (bytes, kind, rest) := Assemble(frames);
        && net.InboxOf(socket) == rest
        && ct.polls == old(ct.polls) + k
        && Flatten(chunks) == bytes
        && (forall i :: 0 <= i < |chunks| ==> |chunks[i]| <= BufferSize)
    ensures var frames := old(net.InboxOf(socket));
      var k := ct.FirstRequested(old(ct.polls), ChunkCount(frames));
      k == ChunkCount(frames) && Complete(frames) ==>
        var (bytes, kind, rest) := Assemble(frames);
        && r == (if kind == TextMessage then Message(codec.utf8(bytes)) else NullString)
        && net.state == (if kind == CloseMessage then old(net.state)[socket := CloseReceived] else old(net.state))
        && |chunks| == k
    ensures var frames := old(net.InboxOf(socket));
      var k := ct.FirstRequested(old(ct.polls), ChunkCount(frames));
      k == ChunkCount(frames) && !Complete(frames) ==>
        && r == Failed
        && net.state == old(net.state)[socket := Aborted]
        && |chunks| == k - 1
    ensures forall t :: t != socket ==> net.InboxOf(t) == old(net.InboxOf(t))
    ensures net.outbox == old(net.outbox) && net.log == old(net.log)
  {
    ghost var frames := net.InboxOf(socket);
    ghost var from := ct.polls;
    ghost var n := ChunkCount(frames);
    if ct.FirstRequested(from, n) < n {
      LoopCancelled(frames, ct, from, [], []);
    } else {
      LoopFinished(frames, ct, from, [], []);
    }
    LoopChunks(frames, ct, from, [], []);
    var stop, bytes, kind;
    stop, bytes, kind, chunks := ReceiveChunks(socket, ct, net);
    r := match stop
      case StopCancelled => Cancelled
      case StopDropped => Failed
      case StopEnded => if kind == TextMessage then Message(codec.utf8(bytes)) else NullString;
  }
}
