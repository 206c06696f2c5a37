/** The upstream dispatcher (RmqListener/RmqMessageHandler.cs): a decision function from
    one queue text to the notification or error report it asks for, and the handler object
    that sends it through the manager. */
module RmqHandlers {
  import opened Wrappers
  import opened Text
  import opened Json
  import opened Lists
  import opened Transport
  import opened Registry
  import opened Services
  import WsMessages
  import RmqMessages

  /** What one queue message leads to: nothing, a notification to one recipient, an error
      report to every connected owner, or an exception from deserialization. */
  datatype RmqAction =
    | Ignore
    | Notify(data: string, recipient: Option<string>)
    | ReportToAll(data: string)
    | Raise(error: ParseError)

  /** The text of the error report for an unknown type. */
  function UnknownTypeText(t: string): (text: string)
    ensures |text| > |t| && text[|text| - |t| - 1..|text| - 1] == t && text[|text| - 1] == '\''
  {
    "Couldn't find match action for message type '" + t + "'"
  }

  /** The payload of the error report: {Message: text, Data: the original Data}. */
  function ErrorPayload(text: string, data: Json): Json {
    JObj([("Message", JStr(text)), ("Data", data)])
  }

  /** ProcessRmqMessage: the message is re-enveloped as {Type: "notification", Data} for
      its Recipient. The validity re-check inside it cannot fail for a message that has
      already passed the one in ProcessMessage. */
  function Notification(codec: Codec, msg: RmqMessages.RmqMessage): RmqAction {
    Notify(WsMessages.ToString(codec, WsMessages.WsMesage(Some("notification"), msg.Data)), msg.Recipient)
  }

  /** BroadcastErrorMsgToAll: {Type: "error", Data: {Message, Data}} for everyone; its
      validity re-check cannot fail either. */
  function ErrorReport(codec: Codec, msg: RmqMessages.RmqMessage, text: string): RmqAction {
    ReportToAll(WsMessages.ToString(codec, WsMessages.WsMesage(Some("error"), ErrorPayload(text, msg.Data))))
  }

  /** ProcessMessage: a deserialization failure escapes, a null or invalid message leads
      to nothing, "notification" in any letter case is forwarded, and any other type is
      reported to all. */
  function Route(codec: Codec, message: string): (a: RmqAction)
    ensures RmqMessages.Parse(codec, message).Err? <==> a.Raise?
    ensures a.Raise? ==> a.error == RmqMessages.Parse(codec, message).error
    ensures a.Ignore? <==>
      RmqMessages.Parse(codec, message).Ok?
      && (RmqMessages.Parse(codec, message).value.None?
          || !RmqMessages.IsValid(RmqMessages.Parse(codec, message).value.value))
  {
    match RmqMessages.Parse(codec, message)
    case Err(e) => Raise(e)
    case Ok(None) => Ignore
    case Ok(Some(msg)) =>
      if !RmqMessages.IsValid(msg) then Ignore
      else if ToLower(msg.Type.value) == "notification" then Notification(codec, msg)
      else ErrorReport(codec, msg, UnknownTypeText(msg.Type.value))
  }

  /** For a valid message and a codec that round-trips JSON: the type decides between a
      notification and an error report exactly as a case-insensitive comparison with
      "notification" does, the notification goes to the message's own Recipient and both
      envelopes parse back to what was meant, the original Data unchanged inside. */
  lemma RouteValid(codec: Codec, message: string, msg: RmqMessages.RmqMessage)
    requires Lawful(codec)
    requires RmqMessages.Parse(codec, message) == Ok(Some(msg)) && RmqMessages.IsValid(msg)
    ensures Route(codec, message).Notify? <==> EqualsIgnoreCase(msg.Type.value, "notification")
    ensures Route(codec, message).Notify? || Route(codec, message).ReportToAll?
    ensures Route(codec, message).Notify? ==>
      && Route(codec, message).recipient == msg.Recipient
      && WsMessages.Parse(codec, Route(codec, message).data)
         == Ok(Some(WsMessages.WsMesage(Some("notification"), msg.Data)))
    ensures Route(codec, message).ReportToAll? ==>
      WsMessages.Parse(codec, Route(codec, message).data)
      == Ok(Some(WsMessages.WsMesage(Some("error"),
                                     ErrorPayload(UnknownTypeText(msg.Type.value), msg.Data))))
  {
    assert ToLower("notification") == "notification";
    var a := Route(codec, message);
    if ToLower(msg.Type.value) == "notification" {
      assert a == Notification(codec, msg);
      WsMessages.ParseToString(codec, WsMessages.WsMesage(Some("notification"), msg.Data));
    } else {
      var text := UnknownTypeText(msg.Type.value);
      assert a == ErrorReport(codec, msg, text);
      WsMessages.ParseToString(codec, WsMessages.WsMesage(Some("error"), ErrorPayload(text, msg.Data)));
    }
  }

  class RmqMessageHandler {
    const wsManager: WebsocketManager

    constructor (wsManager: WebsocketManager)
      ensures this.wsManager == wsManager
    {
      this.wsManager := wsManager;
    }

    /** ProcessMessage: the call into the manager uses the default token, so nothing is
        cancelled and every target of the decision is written to; ok is false when an
        exception escapes. order is the enumeration order of the owners dictionary, which
        the error report follows. */
    method ProcessMessage(message: string, codec: Codec, net: Network) returns (ok: bool, ghost order: seq<Owner>)
      modifies net
      ensures var a := Route(codec, message);
        && (a.Notify? ==>
              var t := RecipientTargets(wsManager.Model(), a.data, a.recipient);
              net.outbox == Deliver(old(net.outbox), old(net.state), t, a.data) && ok == AllWritable(old(net.state), t))
        && (a.ReportToAll? ==>
              && NoDup(order) && (forall o :: o in order <==> o in wsManager.owners)
              && var t := BroadcastAllTargets(wsManager.Model(), order, [], []);
              net.outbox == Deliver(old(net.outbox), old(net.state), t, a.data) && ok == AllWritable(old(net.state), t))
        && (a.Ignore? ==> net.outbox == old(net.outbox) && ok)
        && (a.Raise? ==> net.outbox == old(net.outbox) && !ok)
      ensures net.state == old(net.state) && net.inbox == old(net.inbox) && net.log == old(net.log)
    {
      order := [];
      var a := Route(codec, message);
      if a.Ignore? {
        ok := true;
      } else if a.Raise? {
        ok := false;
      } else if a.Notify? {
        ghost var t := RecipientTargets(wsManager.Model(), a.data, a.recipient);
        var ct := new CancellationToken(None);
        ok := wsManager.SendAsyncToRecipient(a.data, a.recipient, ct, net);
        assert ct.FirstRequested(0, |t|) == |t|;
        TakeAll(t);
      } else {
        var ct := new CancellationToken(None);
        ok, order := wsManager.BroadcastToAllAsync(a.data, [], [], ct, net);
        ghost var t := BroadcastAllTargets(wsManager.Model(), order, [], []);
        assert ct.FirstRequested(0, |t|) == |t|;
        TakeAll(t);
      }
    }
  }

  /** The error report reaches every registered socket exactly once. */
  lemma ReportReachesEveryone(m: Registry, order: seq<Owner>, s: Socket)
    requires Valid(m) && NoDup(order) && forall o :: o in order <==> o in m.owners
    ensures Count(BroadcastAllTargets(m, order, [], []), s) == if IsRegistered(m, s) then 1 else 0
  {
    BroadcastAllTargetsMeans(m, order, [], [], s);
    CountMembership(BroadcastAllTargets(m, order, [], []), s);
    if IsRegistered(m, s) {
      RegisteredHasOwner(m, s);
    }
  }
}
