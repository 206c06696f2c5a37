/** The prototype client handler (ClientMessages/ClientMessageHandler.cs): the same type
    switch as the canonical dispatcher, but its chat relay collects the Open sockets of
    receiver and sender itself and writes the chat payload, not an envelope, to each. Its
    Listen, ReceiveStringAsync and KillSocket are modelled with the canonical ones. */
module ClientHandlers {
  import opened Wrappers
  import opened Text
  import opened Json
  import opened Lists
  import opened Transport
  import opened Registry
  import opened Services
  import ClientMessages
  import ChatMessages

  /** What one client message leads to in the prototype: nothing (a parse failure is
      caught and logged) or the chat relay of its Data. */
  datatype ClientAction = Ignore | ChatFromMerchant(msg: ClientMessages.ClientMesage)

  /** ProcessMessage's decision. */
  function Route(codec: Codec, message: string): (a: ClientAction)
    ensures a.ChatFromMerchant? <==>
      && ClientMessages.Parse(codec, message).Ok?
      && ClientMessages.Parse(codec, message).value.Some?
      && ClientMessages.IsValid(ClientMessages.Parse(codec, message).value.value)
      && EqualsIgnoreCase(ClientMessages.Parse(codec, message).value.value.Type.value, "chat_from_merchant")
    ensures a.ChatFromMerchant? ==> Some(a.msg) == ClientMessages.Parse(codec, message).value
  {
    assert ToLower("chat_from_merchant") == "chat_from_merchant";
    match ClientMessages.Parse(codec, message)
    case Err(_) => Ignore
    case Ok(None) => Ignore
    case Ok(Some(msg)) =>
      if ClientMessages.IsValid(msg) && ToLower(msg.Type.value) == "chat_from_merchant" then ChatFromMerchant(msg)
      else Ignore
  }

  /** The chat payload ProcessFrontendChatMessage binds from Data: an exception when it
      cannot be bound, nothing when it is null or invalid. */
  function ChatOf(codec: Codec, msg: ClientMessages.ClientMesage): (r: Result<Option<ChatMessages.ChatMsgFE>, ParseError>)
    ensures r.Ok? && r.value.Some? ==> ChatMessages.IsValid(r.value.value)
  {
    match codec.parse(codec.serialize(msg.Data))
    case None => Err(NotJson)
    case Some(j) =>
      match ChatMessages.FromJson(j)
      case Err(e) => Err(BindFailed(e))
      case Ok(None) => Ok(None)
      case Ok(Some(chat)) => if ChatMessages.IsValid(chat) then Ok(Some(chat)) else Ok(None)
  }

  /** The sockets the prototype relay writes to: the receiver's Open sockets followed by
      the sender's Open sockets less the source socket, or none at all when the source is
      not among the sender's Open sockets. */
  function PrototypeTargets(m: Registry, state: map<Socket, WsState>, chat: ChatMessages.ChatMsgFE, socket: Socket)
    : seq<Socket>
    requires ChatMessages.IsValid(chat)
  {
    var to := OpenSocketsOf(m, state, chat.To.value);
    var from := OpenSocketsOf(m, state, chat.From.value);
    if socket !in from then [] else to + RemoveFirst(from, socket)
  }

  /** The prototype relay reaches, when the source is an Open socket of the sender, every
      Open socket of the receiver and every other Open socket of the sender; otherwise
      nobody. */
  lemma PrototypeTargetsMeans(m: Registry, state: map<Socket, WsState>, chat: ChatMessages.ChatMsgFE,
                              socket: Socket, s: Socket)
    requires Valid(m) && ChatMessages.IsValid(chat)
    ensures s in PrototypeTargets(m, state, chat, socket) <==>
      && OwnerOf(m, socket) == chat.From && StateIn(state, socket) == Open
      && StateIn(state, s) == Open
      && (OwnerOf(m, s) == chat.To || (OwnerOf(m, s) == chat.From && s != socket))
  {
    var from := OpenSocketsOf(m, state, chat.From.value);
    OpenSocketsOfMeans(m, state, chat.From.value);
    OpenSocketsOfMeans(m, state, chat.To.value);
    RemoveFirstNoDup(from, socket);
  }

  /** Only the sender's list loses the source socket: when sender and receiver are the
      same owner, the source is still written to, once; otherwise it is not written to. */
  lemma PrototypeEchoesToSource(m: Registry, state: map<Socket, WsState>, chat: ChatMessages.ChatMsgFE, socket: Socket)
    requires Valid(m) && ChatMessages.IsValid(chat)
    requires OwnerOf(m, socket) == chat.From && StateIn(state, socket) == Open
    ensures chat.From == chat.To ==> Count(PrototypeTargets(m, state, chat, socket), socket) == 1
    ensures chat.From != chat.To ==> socket !in PrototypeTargets(m, state, chat, socket)
  {
    var to := OpenSocketsOf(m, state, chat.To.value);
    var from := OpenSocketsOf(m, state, chat.From.value);
    OpenSocketsOfMeans(m, state, chat.From.value);
    OpenSocketsOfMeans(m, state, chat.To.value);
    RemoveFirstNoDup(from, socket);
    CountAppend(to, RemoveFirst(from, socket), socket);
    CountMembership(RemoveFirst(from, socket), socket);
    CountNoDup(to, socket);
    PrototypeTargetsMeans(m, state, chat, socket, socket);
  }

  /** How often the prototype relay writes to each socket: once per list it is in, so
      when sender and receiver are the same owner, each of that owner's other Open
      sockets is written to twice. */
  lemma PrototypeTargetsCount(m: Registry, state: map<Socket, WsState>, chat: ChatMessages.ChatMsgFE,
                              socket: Socket, s: Socket)
    requires Valid(m) && ChatMessages.IsValid(chat)
    requires OwnerOf(m, socket) == chat.From && StateIn(state, socket) == Open
    ensures Count(PrototypeTargets(m, state, chat, socket), s) ==
      if StateIn(state, s) != Open then 0
      else (if OwnerOf(m, s) == chat.To then 1 else 0)
           + (if OwnerOf(m, s) == chat.From && s != socket then 1 else 0)
    ensures chat.From == chat.To && OwnerOf(m, s) == chat.From && StateIn(state, s) == Open && s != socket ==>
      Count(PrototypeTargets(m, state, chat, socket), s) == 2
  {
    var to := OpenSocketsOf(m, state, chat.To.value);
    var from := OpenSocketsOf(m, state, chat.From.value);
    OpenSocketsOfMeans(m, state, chat.From.value);
    OpenSocketsOfMeans(m, state, chat.To.value);
    RemoveFirstNoDup(from, socket);
    CountAppend(to, RemoveFirst(from, socket), s);
    CountNoDup(to, s);
    CountNoDup(RemoveFirst(from, socket), s);
  }

  class ClientMessageHandler {
    const wsm: WebsocketManager

    constructor (wsm: WebsocketManager)
      ensures this.wsm == wsm
    {
      this.wsm := wsm;
    }

    /** ProcessFrontendChatMessage of the prototype. ok is false when the payload cannot be
        bound or a write fails (both escape as exceptions). */
    method ProcessFrontendChatMessage(socket: Socket, msg: ClientMessages.ClientMesage, codec: Codec, net: Network)
      returns (ok: bool)
      modifies net
      ensures match ChatOf(codec, msg)
        case Err(_) => net.outbox == old(net.outbox) && !ok
        case Ok(None) => net.outbox == old(net.outbox) && ok
        case Ok(Some(chat)) =>
          var t := PrototypeTargets(wsm.Model(), old(net.state), chat, socket);
          net.outbox == Deliver(old(net.outbox), old(net.state), t, ChatMessages.ToString(codec, chat))
          && ok == AllWritable(old(net.state), t)
      ensures net.state == old(net.state) && net.inbox == old(net.inbox) && net.log == old(net.log)
    {
      var c := ChatOf(codec, msg);
      if c.Err? {
        return false;
      }
      if c.value.None? {
        return true;
      }
      var chat := c.value.value;
      var to := wsm.GetSockets(chat.To.value, net);
      var from := wsm.GetSockets(chat.From.value, net);
      if socket !in from {
        return true;
      }
      from := RemoveFirst(from, socket);
      to := to + from;
      ok := wsm.SendToEach(ChatMessages.ToString(codec, chat), to, net);
    }

    /** ProcessMessage of the prototype: a chat_from_merchant message in any letter case
        goes to the relay; everything else, including text that does not parse, is only
        logged. */
    method ProcessMessage(message: string, socket: Socket, codec: Codec, net: Network) returns (ok: bool)
      modifies net
      ensures Route(codec, message).Ignore? ==> net.outbox == old(net.outbox) && ok
      ensures Route(codec, message).ChatFromMerchant? ==>
        match ChatOf(codec, Route(codec, message).msg)
        case Err(_) => net.outbox == old(net.outbox) && !ok
        case Ok(None) => net.outbox == old(net.outbox) && ok
        case Ok(Some(chat)) =>
          var t := PrototypeTargets(wsm.Model(), old(net.state), chat, socket);
          net.outbox == Deliver(old(net.outbox), old(net.state), t, ChatMessages.ToString(codec, chat))
          && ok == AllWritable(old(net.state), t)
      ensures net.state == old(net.state) && net.inbox == old(net.inbox) && net.log == old(net.log)
    {
      var a := Route(codec, message);
      if a.Ignore? {
        return true;
      }
      ok := ProcessFrontendChatMessage(socket, a.msg, codec, net);
    }
  }
}
