/** The client envelope {Type, Data} of the canonical listener (WsListener/WsMesage.cs). */
module WsMessages {
  import opened Wrappers
  import opened Text
  import opened Json

  /** new WsMesage(type, data) and the object initialiser both store exactly the two
      fields; the parameterless constructor leaves both null. Data is dynamic JSON. */
  datatype WsMesage = WsMesage(Type: Option<string>, Data: Json)

  /** IsValid: a type that is not null or blank, and data that is not null. */
  predicate IsValid(m: WsMesage) {
    !IsNullOrWhiteSpace(m.Type) && m.Data != JNull
  }

  /** ToString: IsValid carries [JsonIgnore], so only Type and Data are written. */
  function ToJson(m: WsMesage): Json {
    JObj([("Type", StringToken(m.Type)), ("Data", m.Data)])
  }

  function ToString(c: Codec, m: WsMesage): string {
    c.serialize(ToJson(m))
  }

  /** DeserializeObject<WsMesage> on a parsed token: null gives a null object, an object
      binds Type and Data (missing ones stay null), anything else raises. */
  function FromJson(j: Json): Result<Option<WsMesage>, BindError> {
    match j
    case JNull => Ok(None)
    case JObj(fields) =>
      (match StringProperty(fields, "Type")
       case Err(e) => Err(e)
       case Ok(t) => Ok(Some(WsMesage(t, DynamicProperty(fields, "Data")))))
    case _ => Err(NotAnObject)
  }

  /** Parse: per its doc comment it raises on a string it cannot turn into a WsMesage:
      text that is not JSON, and JSON that is neither null nor an object. The prototype's
      ClientMessages.Parse is the same definition, as its class is the same code. */
  function Parse(c: Codec, message: string): (r: Result<Option<WsMesage>, ParseError>)
    ensures c.parse(message).None? ==> r == Err(NotJson)
    ensures c.parse(message) == Some(JNull) ==> r == Ok(None)
    ensures c.parse(message).Some? && !c.parse(message).value.JNull? && !c.parse(message).value.JObj? ==>
      r == Err(BindFailed(NotAnObject))
  {
    match c.parse(message)
    case None => Err(NotJson)
    case Some(j) =>
      (match FromJson(j)
       case Err(e) => Err(BindFailed(e))
       case Ok(m) => Ok(m))
  }

  /** IsValid in terms of the characters of Type: some char is not white space. */
  lemma IsValidMeans(m: WsMesage)
    ensures IsValid(m) <==>
      && m.Type.Some?
      && (exists i :: 0 <= i < |m.Type.value| && !IsWhiteSpace(m.Type.value[i]))
      && m.Data != JNull
  {
  }

  /** The emitted object names its properties "Type" and "Data" and nothing else. */
  lemma ToJsonFields(m: WsMesage)
    ensures ToJson(m).JObj? && |ToJson(m).fields| == 2
    ensures Property(ToJson(m).fields, "Type") == Some(StringToken(m.Type))
    ensures Property(ToJson(m).fields, "Data") == Some(m.Data)
    ensures Property(ToJson(m).fields, "IsValid") == None
  {
    var fields := ToJson(m).fields;
    assert ToLower("Data") == "data";
    assert ToLower("Type") == "type";
    assert ToLower("IsValid") == "isvalid";
    assert fields[..1] == [("Type", StringToken(m.Type))];
    assert fields[..1][..0] == [];
    assert !EqualsIgnoreCase("Data", "Type") by { assert ToLower("Data")[0] != ToLower("Type")[0]; }
    assert Property(fields, "Type") == Property(fields[..1], "Type");
  }

  /** Parse(ToString(m)) gives back m, for a codec that round-trips JSON values. */
  lemma ParseToString(c: Codec, m: WsMesage)
    requires Lawful(c)
    ensures Parse(c, ToString(c, m)) == Ok(Some(m))
  {
    var j := ToJson(m);
    assert c.parse(c.serialize(j)) == Some(j);
    ToJsonFields(m);
    StringTokenRoundTrip(m.Type);
    assert StringProperty(j.fields, "Type") == Ok(m.Type);
    assert DynamicProperty(j.fields, "Data") == m.Data;
    assert FromJson(j) == Ok(Some(m));
  }
}
