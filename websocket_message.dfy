/** The base envelope WebsocketMessage (WebsocketMessage.cs) and its subclass Msg
    (Messages/Msg.cs), which adds a Recipient and overrides IsValid. */
module WebsocketMessages {
  import opened Wrappers
  import opened Text
  import opened Json

  /** An object whose run-time class is WebsocketMessage, or one whose run-time class is Msg. */
  datatype WebsocketMessage =
    | WebsocketMessage(Type: Option<string>, Data: Json)
    | Msg(Type: Option<string>, Data: Json, Recipient: Option<string>)

  /** WebsocketMessage.IsValid: Type is not null or blank; Data is never looked at. */
  predicate BaseIsValid(m: WebsocketMessage) {
    !IsNullOrWhiteSpace(m.Type)
  }

  /** The virtual IsValid, dispatched on the run-time class. */
  predicate IsValid(m: WebsocketMessage) {
    match m
    case WebsocketMessage(_, _) => BaseIsValid(m)
    case Msg(_, _, recipient) => BaseIsValid(m) && !IsNullOrWhiteSpace(recipient) && IsGuid(recipient.value)
  }

  /** ToString copies Type and Data into a fresh WebsocketMessage and serialises that,
      so a subclass's fields are never written; IsValid carries [JsonIgnore]. */
  function ToJson(m: WebsocketMessage): Json {
    var copy := WebsocketMessage(m.Type, m.Data);
    JObj([("Type", StringToken(copy.Type)), ("Data", copy.Data)])
  }

  function ToString(c: Codec, m: WebsocketMessage): string {
    c.serialize(ToJson(m))
  }

  /** The base rule: valid iff Type has a non-white-space char, whatever Data holds. */
  lemma BaseIsValidMeans(t: Option<string>, d1: Json, d2: Json)
    ensures IsValid(WebsocketMessage(t, d1)) <==> t.Some? && exists i :: 0 <= i < |t.value| && !IsWhiteSpace(t.value[i])
    ensures IsValid(WebsocketMessage(t, d1)) == IsValid(WebsocketMessage(t, d2))
  {
  }

  /** Msg.IsValid holds iff the base rule holds and Recipient is an identifier
      (an identifier is never blank); Data is unconstrained. */
  lemma MsgIsValidMeans(t: Option<string>, d: Json, r: Option<string>)
    ensures IsValid(Msg(t, d, r)) <==> BaseIsValid(WebsocketMessage(t, d)) && r.Some? && IsGuid(r.value)
    ensures IsValid(Msg(t, d, r)) ==> IsValid(WebsocketMessage(t, d))
  {
    if r.Some? && IsGuid(r.value) {
      GuidIsNotWhiteSpace(r.value);
    }
  }

  /** A Msg serialises exactly as the base message with its Type and Data: Recipient
      never reaches the wire. Serialising returns a value and leaves the message as it was. */
  lemma ToStringDropsRecipient(c: Codec, t: Option<string>, d: Json, r: Option<string>)
    ensures ToString(c, Msg(t, d, r)) == ToString(c, WebsocketMessage(t, d))
    ensures forall i :: 0 <= i < |ToJson(Msg(t, d, r)).fields| ==> ToJson(Msg(t, d, r)).fields[i].0 != "Recipient"
  {
    var fs := ToJson(Msg(t, d, r)).fields;
    assert fs[0].0 == "Type" && fs[1].0 == "Data";
    assert "Type"[0] != "Recipient"[0] && "Data"[0] != "Recipient"[0];
  }
}
