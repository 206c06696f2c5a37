/** The chat payload a merchant front end sends (WsListener/ChatMsgFE.cs). */
module ChatMessages {
  import opened Wrappers
  import opened Text
  import opened Json

  /** Created is a DateTime in the source; it is kept as the JSON token it was bound from. */
  datatype ChatMsgFE = ChatMsgFE(From: Option<string>, To: Option<string>, Body: Option<string>, Created: Json)

  /** IsValid: From and To are non-blank identifiers, Body is non-empty. */
  predicate IsValid(c: ChatMsgFE) {
    && !IsNullOrWhiteSpace(c.From) && IsGuid(c.From.value)
    && !IsNullOrWhiteSpace(c.To) && IsGuid(c.To.value)
    && !IsNullOrEmpty(c.Body)
  }

  /** ToString serialises every public property, IsValid included (it has no [JsonIgnore]). */
  function ToJson(c: ChatMsgFE): Json {
    JObj([("From", StringToken(c.From)), ("To", StringToken(c.To)), ("Body", StringToken(c.Body)),
          ("Created", c.Created), ("IsValid", JBool(IsValid(c)))])
  }

  function ToString(codec: Codec, c: ChatMsgFE): string {
    codec.serialize(ToJson(c))
  }

  /** DeserializeObject<ChatMsgFE> on a token; a non-object raises. */
  function FromJson(j: Json): Result<Option<ChatMsgFE>, BindError> {
    match j
    case JNull => Ok(None)
    case JObj(fields) =>
      (match (StringProperty(fields, "From"), StringProperty(fields, "To"), StringProperty(fields, "Body"))
       case (Err(e), _, _) => Err(e)
       case (_, Err(e), _) => Err(e)
       case (_, _, Err(e)) => Err(e)
       case (Ok(f), Ok(t), Ok(b)) => Ok(Some(ChatMsgFE(f, t, b, DynamicProperty(fields, "Created")))))
    case _ => Err(NotAnObject)
  }

  /** The three ways a chat payload is refused, and nothing else: a blank or
      non-identifier From, the same for To, a null or empty Body. */
  lemma IsValidMeans(c: ChatMsgFE)
    ensures IsValid(c) <==>
      && c.From.Some? && IsGuid(c.From.value)
      && c.To.Some? && IsGuid(c.To.value)
      && c.Body.Some? && |c.Body.value| > 0
  {
    if c.From.Some? && IsGuid(c.From.value) {
      GuidIsNotWhiteSpace(c.From.value);
    }
    if c.To.Some? && IsGuid(c.To.value) {
      GuidIsNotWhiteSpace(c.To.value);
    }
  }

  /** A white-space-only body is accepted (only emptiness is checked), a valid message
      stays valid with the sender as its receiver, and Created plays no part in validity. */
  lemma WhatValidityIgnores(c: ChatMsgFE, created: Json)
    ensures (&& c.From.Some? && IsGuid(c.From.value) && c.To.Some? && IsGuid(c.To.value)
             && c.Body.Some? && c.Body.value != "" && AllWhiteSpace(c.Body.value)) ==> IsValid(c)
    ensures IsValid(c) ==> IsValid(c.(To := c.From))
    ensures IsValid(c) == IsValid(c.(Created := created))
  {
    IsValidMeans(c);
    IsValidMeans(c.(To := c.From));
  }
}
