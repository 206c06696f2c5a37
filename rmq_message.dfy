/** The upstream queue event {Type, Recipient, Data} (RmqListener/RmqMessage.cs). */
module RmqMessages {
  import opened Wrappers
  import opened Text
  import opened Json

  datatype RmqMessage = RmqMessage(Type: Option<string>, Recipient: Option<string>, Data: Json)

  /** IsValid looks at Type and Data only; Recipient is never checked. */
  predicate IsValid(m: RmqMessage) {
    !IsNullOrWhiteSpace(m.Type) && m.Data != JNull
  }

  function FromJson(j: Json): Result<Option<RmqMessage>, BindError> {
    match j
    case JNull => Ok(None)
    case JObj(fields) =>
      (match (StringProperty(fields, "Type"), StringProperty(fields, "Recipient"))
       case (Err(e), _) => Err(e)
       case (_, Err(e)) => Err(e)
       case (Ok(t), Ok(r)) => Ok(Some(RmqMessage(t, r, DynamicProperty(fields, "Data")))))
    case _ => Err(NotAnObject)
  }

  /** Parse: a plain DeserializeObject call (TryParse is only a TODO), so malformed
      input is an exception for the caller: text that is not JSON, and JSON that is
      neither null nor an object. */
  function Parse(c: Codec, message: string): (r: Result<Option<RmqMessage>, ParseError>)
    ensures c.parse(message).None? ==> r == Err(NotJson)
    ensures c.parse(message) == Some(JNull) ==> r == Ok(None)
    ensures c.parse(message).Some? && !c.parse(message).value.JNull? && !c.parse(message).value.JObj? ==>
      r == Err(BindFailed(NotAnObject))
  {
    match c.parse(message)
    case None => Err(NotJson)
    case Some(j) =>
      (match FromJson(j)
       case Err(e) => Err(BindFailed(e))
       case Ok(m) => Ok(m))
  }

  /** IsValid is false for a null or blank Type and for null Data, true otherwise,
      whatever the Recipient. */
  lemma IsValidMeans(m: RmqMessage, recipient: Option<string>)
    ensures IsValid(m) <==> m.Type.Some? && !AllWhiteSpace(m.Type.value) && m.Data != JNull
    ensures IsValid(m) == IsValid(m.(Recipient := recipient))
  {
  }
}
