/** The envelope of the prototype client handler (ClientMessages/ClientMesage.cs): the same
    {Type, Data} shape and rules as WsMesage, without a ToString. */
module ClientMessages {
  import opened Wrappers
  import opened Text
  import opened Json
  import WsMessages

  datatype ClientMesage = ClientMesage(Type: Option<string>, Data: Json)

  predicate IsValid(m: ClientMesage) {
    !IsNullOrWhiteSpace(m.Type) && m.Data != JNull
  }

  function FromJson(j: Json): Result<Option<ClientMesage>, BindError> {
    match j
    case JNull => Ok(None)
    case JObj(fields) =>
      (match StringProperty(fields, "Type")
       case Err(e) => Err(e)
       case Ok(t) => Ok(Some(ClientMesage(t, DynamicProperty(fields, "Data")))))
    case _ => Err(NotAnObject)
  }

  /** Parse: raises on a string it cannot turn into a ClientMesage: text that is not
      JSON, and JSON that is neither null nor an object. It repeats WsMessages.Parse
      because ClientMesage repeats the WsMesage class. */
  function Parse(c: Codec, message: string): (r: Result<Option<ClientMesage>, ParseError>)
    ensures c.parse(message).None? ==> r == Err(NotJson)
    ensures c.parse(message) == Some(JNull) ==> r == Ok(None)
    ensures c.parse(message).Some? && !c.parse(message).value.JNull? && !c.parse(message).value.JObj? ==>
      r == Err(BindFailed(NotAnObject))
  {
    match c.parse(message)
    case None => Err(NotJson)
    case Some(j) =>
      (match FromJson(j)
       case Err(e) => Err(BindFailed(e))
       case Ok(m) => Ok(m))
  }

  function AsWsMesage(m: ClientMesage): WsMessages.WsMesage {
    WsMessages.WsMesage(m.Type, m.Data)
  }

  /** The prototype envelope parses and validates exactly as the canonical one. */
  lemma AgreesWithWsMesage(c: Codec, message: string, m: ClientMesage)
    ensures Parse(c, message).Err? <==> WsMessages.Parse(c, message).Err?
    ensures Parse(c, message) == Ok(None) <==> WsMessages.Parse(c, message) == Ok(None)
    ensures Parse(c, message).Ok? && Parse(c, message).value.Some? ==>
      WsMessages.Parse(c, message) == Ok(Some(AsWsMesage(Parse(c, message).value.value)))
    ensures IsValid(m) <==> WsMessages.IsValid(AsWsMesage(m))
  {
  }
}
