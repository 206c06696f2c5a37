/** The WebSocket transport as the gateway sees it (System.Net.WebSockets): opaque socket
    handles with a state, a script of incoming frames per socket, an outbox of the text
    messages written to each socket, and a log of close and dispose calls. Frames and
    message types follow sections 5.2 and 5.4 of RFC 6455 (fragmentation, text, binary
    and close frames). A cancellation token is a poll counter with a fixed point from
    which every poll reads "requested". */
module Transport {
  import opened Wrappers
  import opened Text
  import opened Lists

  /** An accepted WebSocket, compared by reference. */
  datatype Socket = Socket(handle: nat)

  /** WebSocketState (its reserved None member is never observed here). */
  datatype WsState = Connecting | Open | CloseSent | CloseReceived | Closed | Aborted

  /** WebSocketMessageType as reported for each received chunk. */
  datatype MessageType = TextMessage | BinaryMessage | CloseMessage

  datatype CloseStatus = NormalClosure

  /** One frame the peer sends: its payload, its FIN bit and the type of its message
      (a continuation frame carries the type of the message it continues). */
  datatype Frame = Frame(payload: seq<byte>, endOfMessage: bool, kind: MessageType)

  /** WebSocketReceiveResult, with the received bytes in place of Count. */
  datatype ReceiveResult = ReceiveResult(bytes: seq<byte>, endOfMessage: bool, messageType: MessageType)

  datatype TransportEvent = Closing(socket: Socket, status: CloseStatus) | Disposed(socket: Socket)

  /** The receive buffer of ReceiveStringAsync: new byte[1024 * 4]. */
  const BufferSize: nat := 1024 * 4

  /** A handle the transport does not know reads as Closed with an empty outbox. */
  function StateIn(state: map<Socket, WsState>, s: Socket): WsState {
    if s in state then state[s] else Closed
  }

  function OutboxIn(outbox: map<Socket, seq<string>>, s: Socket): seq<string> {
    if s in outbox then outbox[s] else []
  }

  function Repeat(data: string, n: nat): (r: seq<string>)
    ensures |r| == n && forall i :: 0 <= i < n ==> r[i] == data
  {
    seq(n, _ => data)
  }

  /** One receive into a buffer of n bytes. A close frame ends the message with no bytes;
      a frame longer than the buffer is delivered in buffer-sized pieces, only the last
      one carrying its FIN bit. On a script that has run out the receive fails (see
      Network.ReceiveAsync); it is given as a final empty chunk, so that ChunkCount
      counts the failing receive too. */
  function NextChunk(frames: seq<Frame>, n: nat): (res: (ReceiveResult, seq<Frame>))
    requires n > 0
    ensures res.0.messageType == CloseMessage ==> res.0.endOfMessage && res.0.bytes == []
    ensures frames == [] ==> res.0.messageType == CloseMessage && res.1 == []
  {
    if frames == [] then (ReceiveResult([], true, CloseMessage), [])
    else
      var f := frames[0];
      if f.kind == CloseMessage then (ReceiveResult([], true, CloseMessage), frames[1..])
      else if |f.payload| <= n then (ReceiveResult(f.payload, f.endOfMessage, f.kind), frames[1..])
      else (ReceiveResult(f.payload[..n], false, f.kind),
            [Frame(f.payload[n..], f.endOfMessage, f.kind)] + frames[1..])
  }

  /** Whether the script holds the whole of its head message: a close frame, or frames up
      to one that carries FIN. A script that runs out before that is a peer that dropped
      the connection without a close handshake. */
  predicate Complete(frames: seq<Frame>) {
    frames != [] && (frames[0].kind == CloseMessage || frames[0].endOfMessage || Complete(frames[1..]))
  }

  /** What remains to be received, in bytes plus one per frame. */
  function Weight(frames: seq<Frame>): nat {
    if frames == [] then 0 else |frames[0].payload| + 1 + Weight(frames[1..])
  }

  /** The message at the head of a frame script: the concatenated payloads up to and
      including the first frame that ends a message, the type that frame reports, and
      the frames after it. */
  function Assemble(frames: seq<Frame>): (seq<byte>, MessageType, seq<Frame>) {
    if frames == [] then ([], CloseMessage, [])
    else if frames[0].kind == CloseMessage then ([], CloseMessage, frames[1..])
    else if frames[0].endOfMessage then (frames[0].payload, frames[0].kind, frames[1..])
    else
      var (bytes, kind, rest) := Assemble(frames[1..]);
      (frames[0].payload + bytes, kind, rest)
  }

  /** A receive never yields more than the buffer holds, and consumes some weight unless it ends the message. */
  lemma NextChunkBounded(frames: seq<Frame>, n: nat)
    requires n > 0
    ensures |NextChunk(frames, n).0.bytes| <= n
    ensures NextChunk(frames, n).0.endOfMessage ==> Weight(NextChunk(frames, n).1) <= Weight(frames)
    ensures !NextChunk(frames, n).0.endOfMessage ==> Weight(NextChunk(frames, n).1) < Weight(frames)
  {
    if frames != [] {
      var f := frames[0];
      if f.kind != CloseMessage && |f.payload| > n {
        var f' := Frame(f.payload[n..], f.endOfMessage, f.kind);
        assert ([f'] + frames[1..])[1..] == frames[1..];
      }
    }
  }

  /** An unfinished message assembles like a close with nothing after it. */
  lemma {:induction false} IncompleteAssembles(frames: seq<Frame>)
    requires !Complete(frames)
    ensures Assemble(frames).1 == CloseMessage && Assemble(frames).2 == []
  {
    if frames != [] {
      IncompleteAssembles(frames[1..]);
    }
  }

  /** A chunk that ends the message shows that the message was whole; any other chunk
      leaves the question to what remains. */
  lemma NextChunkComplete(frames: seq<Frame>, n: nat)
    requires n > 0 && frames != []
    ensures var (r, rest) := NextChunk(frames, n);
      && (r.endOfMessage ==> Complete(frames))
      && (!r.endOfMessage ==> (Complete(frames) <==> Complete(rest)))
  {
    var f := frames[0];
    if f.kind != CloseMessage && |f.payload| > n {
      var rest := [Frame(f.payload[n..], f.endOfMessage, f.kind)] + frames[1..];
      assert rest[1..] == frames[1..];
    }
  }

  /** Receiving one chunk and assembling the rest assembles the same message:
      buffer-sized pieces are invisible in the assembled bytes. */
  lemma NextChunkAssembles(frames: seq<Frame>, n: nat)
    requires n > 0
    ensures var (r, rest) := NextChunk(frames, n);
      if r.endOfMessage then Assemble(frames) == (r.bytes, r.messageType, rest)
      else Assemble(frames) == (r.bytes + Assemble(rest).0, Assemble(rest).1, Assemble(rest).2)
  {
    if frames != [] && frames[0].kind != CloseMessage && |frames[0].payload| > n {
      SplitFrameAssembles(frames, n);
    }
  }

  /** A frame longer than the buffer, split after n bytes, assembles to the same message. */
  lemma SplitFrameAssembles(frames: seq<Frame>, n: nat)
    requires frames != [] && frames[0].kind != CloseMessage && |frames[0].payload| > n
    ensures var f := frames[0];
      var rest := [Frame(f.payload[n..], f.endOfMessage, f.kind)] + frames[1..];
      Assemble(frames) == (f.payload[..n] + Assemble(rest).0, Assemble(rest).1, Assemble(rest).2)
  {
    var f := frames[0];
    var f' := Frame(f.payload[n..], f.endOfMessage, f.kind);
    var rest := [f'] + frames[1..];
    assert rest[0] == f' && rest[1..] == frames[1..];
    assert f.payload == f.payload[..n] + f.payload[n..];
    if !f.endOfMessage {
      var (b, k, r) := Assemble(frames[1..]);
      assert Assemble(rest) == (f.payload[n..] + b, k, r);
      assert f.payload[..n] + (f.payload[n..] + b) == f.payload + b;
    }
  }

  /** Whether WebSocket.SendAsync accepts a socket in this state: Open, or CloseReceived
      (the peer has sent its close and this side has not yet sent its own). A write in
      any other state raises. */
  predicate Writable(st: WsState) {
    st == Open || st == CloseReceived
  }

  /** The sequential fan-out: one text message written to each target in turn. A write to
      a socket that is not Writable raises and leaves its outbox alone. */
  function Send1(outbox: map<Socket, seq<string>>, state: map<Socket, WsState>, s: Socket, data: string)
    : map<Socket, seq<string>>
  {
    if Writable(StateIn(state, s)) then outbox[s := OutboxIn(outbox, s) + [data]] else outbox
  }

  function Deliver(outbox: map<Socket, seq<string>>, state: map<Socket, WsState>, targets: seq<Socket>, data: string)
    : map<Socket, seq<string>>
    decreases |targets|
  {
    if targets == [] then outbox
    else Send1(Deliver(outbox, state, targets[..|targets| - 1], data), state, targets[|targets| - 1], data)
  }

  /** Whether every write of a fan-out succeeds (Task.WhenAll raises otherwise). */
  predicate AllWritable(state: map<Socket, WsState>, targets: seq<Socket>) {
    forall i :: 0 <= i < |targets| ==> Writable(StateIn(state, targets[i]))
  }

  /** After a fan-out each socket holds one more copy of the message per time it was
      targeted, if it is Writable, and nothing new otherwise. */
  lemma {:induction false} DeliverOutbox(outbox: map<Socket, seq<string>>, state: map<Socket, WsState>,
                                         targets: seq<Socket>, data: string, s: Socket)
    ensures OutboxIn(Deliver(outbox, state, targets, data), s)
         == OutboxIn(outbox, s) + Repeat(data, if Writable(StateIn(state, s)) then Count(targets, s) else 0)
    decreases |targets|
  {
    if targets == [] {
      assert OutboxIn(outbox, s) + Repeat(data, 0) == OutboxIn(outbox, s);
    } else {
      var init, last := targets[..|targets| - 1], targets[|targets| - 1];
      DeliverOutbox(outbox, state, init, data, s);
      assert targets == init + [last];
      CountAppend(init, [last], s);
      var k := if Writable(StateIn(state, s)) then Count(init, s) else 0;
      if last == s && Writable(StateIn(state, s)) {
        assert Repeat(data, k) + [data] == Repeat(data, k + 1);
      }
    }
  }

  /** Nothing but outboxes changes in a fan-out, and only the targets' outboxes. */
  lemma {:induction false} DeliverUntargeted(outbox: map<Socket, seq<string>>, state: map<Socket, WsState>,
                                             targets: seq<Socket>, data: string, s: Socket)
    requires s !in targets
    ensures OutboxIn(Deliver(outbox, state, targets, data), s) == OutboxIn(outbox, s)
  {
    DeliverOutbox(outbox, state, targets, data, s);
    CountMembership(targets, s);
  }

  /** CancellationToken. Polls before the cancellation point read false, every later poll true;
      a token without a cancellation point (default(CancellationToken)) is never cancelled. */
  class CancellationToken {
    const cancelAfter: Option<nat>
    var polls: nat

    constructor (cancelAfter: Option<nat>)
      ensures this.cancelAfter == cancelAfter && polls == 0
    {
      this.cancelAfter := cancelAfter;
      polls := 0;
    }

    predicate RequestedAt(k: nat) {
      cancelAfter.Some? && cancelAfter.value <= k
    }

    /** How many of n polls, starting at poll number from, read false before the first
        one that reads true (n if none does). */
    function FirstRequested(from: nat, n: nat): (k: nat)
      ensures k <= n
      ensures forall i :: from <= i < from + k ==> !RequestedAt(i)
      ensures k < n ==> RequestedAt(from + k)
    {
      if cancelAfter.None? || cancelAfter.value >= from + n then n
      else if cancelAfter.value <= from then 0
      else cancelAfter.value - from
    }

    /** IsCancellationRequested: once it reads true it stays true. */
    method IsCancellationRequested() returns (b: bool)
      modifies this
      ensures polls == old(polls) + 1
      ensures b == RequestedAt(old(polls))
    {
      b := RequestedAt(polls);
      polls := polls + 1;
    }
  }

  class Network {
    var state: map<Socket, WsState>
    var inbox: map<Socket, seq<Frame>>
    var outbox: map<Socket, seq<string>>
    var log: seq<TransportEvent>

    constructor (state: map<Socket, WsState>, inbox: map<Socket, seq<Frame>>)
      ensures this.state == state && this.inbox == inbox && outbox == map[] && log == []
    {
      this.state := state;
      this.inbox := inbox;
      outbox := map[];
      log := [];
    }

    function StateOf(s: Socket): WsState reads this {
      StateIn(state, s)
    }

    function InboxOf(s: Socket): seq<Frame> reads this {
      if s in inbox then inbox[s] else []
    }

    function OutboxOf(s: Socket): seq<string> reads this {
      OutboxIn(outbox, s)
    }

    /** WebSocket.ReceiveAsync into a buffer of n bytes; a close frame moves the socket to
        CloseReceived. When the script has run out, the peer has dropped the connection
        without a close handshake: the call raises (WebSocketException, ok false) and the
        socket is Aborted. */
    method ReceiveAsync(s: Socket, n: nat) returns (ok: bool, r: ReceiveResult)
      requires n > 0
      modifies this
      ensures ok <==> old(InboxOf(s)) != []
      ensures ok ==>
        && (r, InboxOf(s)) == NextChunk(old(InboxOf(s)), n) && inbox == old(inbox)[s := InboxOf(s)]
        && state == if r.messageType == CloseMessage then old(state)[s := CloseReceived] else old(state)
      ensures !ok ==> inbox == old(inbox) && state == old(state)[s := Aborted]
      ensures outbox == old(outbox) && log == old(log)
    {
      if InboxOf(s) == [] {
        ok, r := false, ReceiveResult([], true, CloseMessage);
        state := state[s := Aborted];
        return;
      }
      ok := true;
      var rest;
      r, rest := NextChunk(InboxOf(s), n).0, NextChunk(InboxOf(s), n).1;
      inbox := inbox[s := rest];
      if r.messageType == CloseMessage {
        state := state[s := CloseReceived];
      }
    }

    /** WebSocket.SendAsync of one complete text message; it fails on a socket that is not Writable. */
    method SendAsync(s: Socket, data: string) returns (ok: bool)
      modifies this
      ensures ok <==> Writable(old(StateOf(s)))
      ensures outbox == Send1(old(outbox), old(state), s, data)
      ensures state == old(state) && inbox == old(inbox) && log == old(log)
    {
      ok := Writable(StateOf(s));
      if ok {
        outbox := outbox[s := OutboxOf(s) + [data]];
      }
    }

    /** WebSocket.CloseAsync(status, description, ct): the close handshake is not modelled,
        only its outcome. The token is honoured before anything is sent: when it has been
        requested the socket is aborted and OperationCanceledException is raised (ok false),
        with nothing logged. */
    method CloseAsync(s: Socket, status: CloseStatus, ct: CancellationToken) returns (ok: bool)
      modifies this, ct
      ensures ct.polls == old(ct.polls) + 1
      ensures ok <==> !ct.RequestedAt(old(ct.polls))
      ensures state == old(state)[s := if ok then Closed else Aborted]
      ensures log == if ok then old(log) + [Closing(s, status)] else old(log)
      ensures inbox == old(inbox) && outbox == old(outbox)
    {
      var cancelled := ct.IsCancellationRequested();
      if cancelled {
        state := state[s := Aborted];
        return false;
      }
      state := state[s := Closed];
      log := log + [Closing(s, status)];
      ok := true;
    }

    method Dispose(s: Socket)
      modifies this
      ensures log == old(log) + [Disposed(s)]
      ensures state == old(state) && inbox == old(inbox) && outbox == old(outbox)
    {
      log := log + [Disposed(s)];
    }
  }
}
