/** The receive loop of a connected front end (Services/WsListener.cs, and its copy in
    ClientMessages/ClientMessageHandler.cs): poll the token, receive one message, skip
    empty ones while the socket stays Open, hand the others to the handler, and on leaving
    the loop normally tear the connection down once. */
module Listener {
  import opened Wrappers
  import opened Text
  import opened Json
  import opened Lists
  import opened Transport
  import opened Registry
  import opened Services
  import opened Receiving
  import WsHandlers
  import ClientHandlers

  /** A listener: the canonical WsClient with its handler and manager, or the prototype
      ClientMessageHandler, which listens itself and tears down through its own manager. */
  datatype WsClient =
    | Canonical(handler: WsHandlers.WsMessageHandler, wsManager: WebsocketManager)
    | Prototype(clientHandler: ClientHandlers.ClientMessageHandler)
  {
    function Manager(): WebsocketManager {
      if Canonical? then wsManager else clientHandler.wsm
    }
  }

  /** Why Listen returned. The loop was left because the peer closed (PeerLeft) or because
      the token fired at the top of the loop (CancelledAtTop); both lead to teardown, which
      unregisters the socket and then closes it under the same token. The close completes
      only if the token still has not fired (PeerLeft(true)); otherwise it raises
      (PeerLeft(false), and CancelledAtTop always). Or an exception escaped from the receive
      (cancellation, or the connection dropped) or from the handler. */
  datatype ListenEnd = PeerLeft(closed: bool) | CancelledAtTop | CancelledInReceive | ReceiveFailed | HandlerFailed

  /** KillSocket: unregister, then close with NormalClosure under the loop's own token,
      then dispose. A requested token makes the close raise after the removal, so the
      socket is aborted and never disposed (closed false). */
  method KillSocket(wsManager: WebsocketManager, socket: Socket, ct: CancellationToken, net: Network)
    returns (closed: bool)
    requires wsManager.Consistent()
    modifies wsManager, ct, net
    ensures wsManager.Consistent()
    ensures wsManager.Model() == Remove(old(wsManager.Model()), socket).1
    ensures OwnerOf(wsManager.Model(), socket) == None
    ensures ct.polls == old(ct.polls) + 1
    ensures closed <==> !ct.RequestedAt(old(ct.polls))
    ensures net.log == if closed then old(net.log) + [Closing(socket, NormalClosure), Disposed(socket)] else old(net.log)
    ensures net.state == old(net.state)[socket := if closed then Closed else Aborted]
    ensures net.inbox == old(net.inbox) && net.outbox == old(net.outbox)
  {
    var removed := wsManager.RemoveSocket(socket);
    closed := net.CloseAsync(socket, NormalClosure, ct);
    if !closed {
      return;
    }
    net.Dispose(socket);
  }

  /** The handler's ProcessMessage, whichever handler it is. */
  method Dispatch(client: WsClient, message: string, socket: Socket, codec: Codec, net: Network) returns (ok: bool)
    modifies net
    ensures net.state == old(net.state) && net.inbox == old(net.inbox) && net.log == old(net.log)
  {
    if client.Canonical? {
      ok := client.handler.ProcessMessage(message, socket, codec, net);
    } else {
      ok := client.clientHandler.ProcessMessage(message, socket, codec, net);
    }
  }

  /** Listen. Teardown runs exactly when the loop is left (the peer closed, or the token
      read at the top of the loop fired), and then exactly once, removing the socket from
      the manager; since the close is given the same token, it closes and disposes the
      socket only when no poll of the token has read true, and after a cancellation at the
      top of the loop it never does. An exception from the receive or the handler leaves
      everything registered, and a dropped connection leaves the socket Aborted. On a
      socket that starts Open, the texts handed to the handler are, in order, the non-empty
      text messages the peer sent before the remaining ones, and all of them when the peer
      closed or dropped. */
  method Listen(client: WsClient, socket: Socket, ct: CancellationToken, codec: Codec, net: Network)
    returns (outcome: ListenEnd, ghost handled: seq<string>)
    requires client.Manager().Consistent()
    modifies ct, net, client.Manager()
    ensures client.Manager().Consistent()
    ensures outcome.PeerLeft? || outcome.CancelledAtTop? ==>
      client.Manager().Model() == Remove(old(client.Manager().Model()), socket).1
    ensures outcome.PeerLeft? && outcome.closed ==>
      && net.log == old(net.log) + [Closing(socket, NormalClosure), Disposed(socket)]
      && net.StateOf(socket) == Closed
      && ct.polls > old(ct.polls) && !ct.RequestedAt(ct.polls - 1)
    ensures (outcome.PeerLeft? && !outcome.closed) || outcome.CancelledAtTop? ==>
      && net.log == old(net.log) && net.StateOf(socket) == Aborted
      && ct.polls > old(ct.polls) && ct.RequestedAt(ct.polls - 1)
    ensures outcome.CancelledInReceive? || outcome.ReceiveFailed? || outcome.HandlerFailed? ==>
      client.Manager().Model() == old(client.Manager().Model()) && net.log == old(net.log)
    ensures outcome.ReceiveFailed? ==> net.StateOf(socket) == Aborted
    ensures old(net.StateOf(socket)) == Open && (outcome.CancelledAtTop? || outcome.HandlerFailed?) ==>
      handled + Messages(net.InboxOf(socket), codec) == Messages(old(net.InboxOf(socket)), codec)
    ensures old(net.StateOf(socket)) == Open && (outcome.PeerLeft? || outcome.ReceiveFailed?) ==>
      handled == Messages(old(net.InboxOf(socket)), codec)
  {
    var wsm := client.Manager();
    ghost var m0 := wsm.Model();
    ghost var log0 := net.log;
    ghost var frames0 := net.InboxOf(socket);
    ghost var open0 := net.StateOf(socket) == Open;
    handled := [];
    assert handled + Messages(frames0, codec) == Messages(frames0, codec);
    while true
      invariant wsm.Consistent() && wsm.Model() == m0
      invariant net.log == log0
      invariant ct.polls >= old(ct.polls)
      invariant open0 ==> net.StateOf(socket) == Open
      invariant open0 ==> handled + Messages(net.InboxOf(socket), codec) == Messages(frames0, codec)
      decreases Weight(net.InboxOf(socket))
    {
      var cancelled := ct.IsCancellationRequested();
      if cancelled {
        outcome := CancelledAtTop;
        break;
      }
      ghost var cur := net.InboxOf(socket);
      ghost var (bytes, kind, rest) := Assemble(cur);
      var r, chunks := ReceiveStringAsync(socket, ct, codec, net);
      if r.Cancelled? {
        return CancelledInReceive, handled;
      }
      assert r == if !Complete(cur) then Failed
                  else if kind == TextMessage then Message(codec.utf8(bytes)) else NullString;
      ReceivedStep(cur, codec, r);
      if r.Failed? {
        assert handled + [] == handled;
        return ReceiveFailed, handled;
      }
      if r.NullString? || r.text == "" {
        if net.StateOf(socket) != Open {
          outcome := PeerLeft(true);
          break;
        }
        continue;
      }
      AppendAssoc(handled, [r.text], Messages(rest, codec));
      handled := handled + [r.text];
      var ok := Dispatch(client, r.text, socket, codec, net);
      if !ok {
        return HandlerFailed, handled;
      }
    }
    var closed := KillSocket(wsm, socket, ct, net);
    if outcome.PeerLeft? {
      outcome := PeerLeft(closed);
    }
  }
}
