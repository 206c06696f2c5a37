/** The client dispatcher of the canonical listener (WsListener/WsMessageHandler.cs): a
    decision function from one received text to the broadcast it asks for, and the
    handler object that carries that broadcast out through the manager. */
module WsHandlers {
  import opened Wrappers
  import opened Text
  import opened Json
  import opened Lists
  import opened Transport
  import opened Registry
  import opened Services
  import WsMessages
  import ChatMessages

  /** What one client message leads to: nothing, a broadcast, or an exception that escapes
      the handler (a chat payload that cannot be bound). */
  datatype ChatAction =
    | Ignore
    | Relay(data: string, recipients: seq<Owner>, exceptSockets: seq<Socket>)
    | Raise(error: ParseError)

  /** ProcessFrontendChatMessage: Data is written out and read back as a ChatMsgFE; a valid
      one is relayed as {Type: "chat", Data} to its sender and receiver, except the socket
      it came from. */
  function RouteChat(codec: Codec, socket: Socket, msg: WsMessages.WsMesage): (a: ChatAction)
    ensures a.Relay? ==> |a.recipients| == 2 && a.exceptSockets == [socket]
  {
    match codec.parse(codec.serialize(msg.Data))
    case None => Raise(NotJson)
    case Some(j) =>
      match ChatMessages.FromJson(j)
      case Err(e) => Raise(BindFailed(e))
      case Ok(None) => Ignore
      case Ok(Some(chat)) =>
        if !ChatMessages.IsValid(chat) then Ignore
        else Relay(WsMessages.ToString(codec, WsMessages.WsMesage(Some("chat"), msg.Data)),
                   [chat.From.value, chat.To.value], [socket])
  }

  /** ProcessMessage: a text that does not parse, a null or invalid envelope and a type
      other than chat_from_merchant (in any letter case) lead to nothing. */
  function Route(codec: Codec, message: string, socket: Socket): (a: ChatAction)
    ensures !WsMessages.Parse(codec, message).Ok? ==> a == Ignore
    ensures WsMessages.Parse(codec, message) == Ok(None) ==> a == Ignore
    ensures a != Ignore ==>
      var p := WsMessages.Parse(codec, message);
      p.Ok? && p.value.Some? && WsMessages.IsValid(p.value.value)
      && EqualsIgnoreCase(p.value.value.Type.value, "chat_from_merchant")
  {
    assert ToLower("chat_from_merchant") == "chat_from_merchant";
    match WsMessages.Parse(codec, message)
    case Err(_) => Ignore
    case Ok(None) => Ignore
    case Ok(Some(msg)) =>
      if !WsMessages.IsValid(msg) then Ignore
      else if ToLower(msg.Type.value) == "chat_from_merchant" then RouteChat(codec, socket, msg)
      else Ignore
  }

  /** The type switch: a valid envelope reaches the chat handler exactly when its type is
      chat_from_merchant ignoring case. */
  lemma RouteDispatch(codec: Codec, message: string, socket: Socket, msg: WsMessages.WsMesage)
    requires WsMessages.Parse(codec, message) == Ok(Some(msg))
    ensures Route(codec, message, socket)
         == if WsMessages.IsValid(msg) && EqualsIgnoreCase(msg.Type.value, "chat_from_merchant")
            then RouteChat(codec, socket, msg) else Ignore
  {
    assert ToLower("chat_from_merchant") == "chat_from_merchant";
  }

  /** For a codec that round-trips JSON: a payload that cannot be bound raises, a null one
      is ignored, and a bound one is relayed exactly when it is valid, to [From, To], with
      the originating socket excluded, carrying an envelope that parses back to
      {Type: "chat", Data} with Data unchanged. */
  lemma RouteChatMeans(codec: Codec, socket: Socket, msg: WsMessages.WsMesage)
    requires Lawful(codec)
    ensures ChatMessages.FromJson(msg.Data).Err?
        ==> RouteChat(codec, socket, msg) == Raise(BindFailed(ChatMessages.FromJson(msg.Data).error))
    ensures ChatMessages.FromJson(msg.Data) == Ok(None) ==> RouteChat(codec, socket, msg) == Ignore
    ensures ChatMessages.FromJson(msg.Data).Ok? && ChatMessages.FromJson(msg.Data).value.Some? ==>
      var chat := ChatMessages.FromJson(msg.Data).value.value;
      var a := RouteChat(codec, socket, msg);
      && (a.Relay? <==> ChatMessages.IsValid(chat))
      && (a.Relay? ==>
            && a.recipients == [chat.From.value, chat.To.value]
            && a.exceptSockets == [socket]
            && WsMessages.Parse(codec, a.data) == Ok(Some(WsMessages.WsMesage(Some("chat"), msg.Data))))
  {
    assert codec.parse(codec.serialize(msg.Data)) == Some(msg.Data);
    WsMessages.ParseToString(codec, WsMessages.WsMesage(Some("chat"), msg.Data));
  }

  /** The relay reaches the sockets of sender and receiver: exactly the registered
      sockets of those two owners other than the originating one, each once. */
  lemma RelayTargets(codec: Codec, m: Registry, message: string, socket: Socket, s: Socket)
    requires Valid(m) && Route(codec, message, socket).Relay?
    ensures var a := Route(codec, message, socket);
      && (s in BroadcastTargets(m, a.recipients, a.exceptSockets)
          <==> OwnerOf(m, s).Some? && OwnerOf(m, s).value in a.recipients && s != socket)
      && NoDup(BroadcastTargets(m, a.recipients, a.exceptSockets))
  {
    var a := Route(codec, message, socket);
    BroadcastTargetsMeans(m, a.recipients, a.exceptSockets, s);
  }

  class WsMessageHandler {
    const wsManager: WebsocketManager

    constructor (wsManager: WebsocketManager)
      ensures this.wsManager == wsManager
    {
      this.wsManager := wsManager;
    }

    /** ProcessMessage and ProcessFrontendChatMessage: the broadcast goes out with the
        default token, which is never cancelled, so every target is written to. ok is false
        when an exception escapes (an unbindable payload or a failed write). */
    method ProcessMessage(message: string, socket: Socket, codec: Codec, net: Network) returns (ok: bool)
      modifies net
      ensures match Route(codec, message, socket)
        case Relay(data, recipients, exceptSockets) =>
          var t := BroadcastTargets(wsManager.Model(), recipients, exceptSockets);
          net.outbox == Deliver(old(net.outbox), old(net.state), t, data) && ok == AllWritable(old(net.state), t)
        case Ignore => net.outbox == old(net.outbox) && ok
        case Raise(_) => net.outbox == old(net.outbox) && !ok
      ensures net.state == old(net.state) && net.inbox == old(net.inbox) && net.log == old(net.log)
    {
      var a := Route(codec, message, socket);
      if a.Ignore? {
        ok := true;
      } else if a.Raise? {
        ok := false;
      } else {
        ghost var t := BroadcastTargets(wsManager.Model(), a.recipients, a.exceptSockets);
        var ct := new CancellationToken(None);
        ok := wsManager.BroadcastAsync(a.data, a.recipients, a.exceptSockets, ct, net);
        assert ct.FirstRequested(0, |t|) == |t|;
        assert t[..|t|] == t;
      }
    }
  }
}
