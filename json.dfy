/** The JSON values that Newtonsoft.Json produces and consumes, and the text codec around them.
    The JSON grammar and UTF-8 are not modelled: a Codec bundles the three library calls
    (JsonConvert.DeserializeObject on text, JsonConvert.SerializeObject, Encoding.UTF8 decoding)
    as functions, and Lawful states the one law the gateway depends on. */
module Json {
  import opened Wrappers
  import opened Text

  datatype Json =
    | JNull
    | JBool(b: bool)
    | JNum(n: int)
    | JStr(s: string)
    | JArr(items: seq<Json>)
    | JObj(fields: seq<(string, Json)>)

  datatype Codec = Codec(
    parse: string -> Option<Json>,      // None: the text is not JSON (JsonReaderException)
    serialize: Json -> string,
    utf8: seq<byte> -> string)

  /** Serialising a value and parsing the text back gives the same value. */
  ghost predicate Lawful(c: Codec) {
    forall j :: c.parse(c.serialize(j)) == Some(j)
  }

  /** The conversion failures of Newtonsoft.Json's object binding (JsonSerializationException). */
  datatype BindError = NotAnObject | NotAString

  /** Why JsonConvert.DeserializeObject raised: the text is not JSON, or it does not bind. */
  datatype ParseError = NotJson | BindFailed(error: BindError)

  /** The value bound to a property: names match case-insensitively and a later duplicate wins. */
  function Property(fields: seq<(string, Json)>, name: string): (v: Option<Json>)
    ensures v.Some? <==> exists i :: 0 <= i < |fields| && EqualsIgnoreCase(fields[i].0, name)
  {
    if fields == [] then None
    else
      var last := fields[|fields| - 1];
      if EqualsIgnoreCase(last.0, name) then Some(last.1)
      else
        var v := Property(fields[..|fields| - 1], name);
        assert forall i :: 0 <= i < |fields| - 1 ==> fields[..|fields| - 1][i] == fields[i];
        v
  }

  /** Binding a JSON token to a C# string property: null stays null, primitives are
      converted with their invariant-culture text, arrays and objects are an error. */
  function StringOf(j: Json): Result<Option<string>, BindError> {
    match j
    case JNull => Ok(None)
    case JStr(s) => Ok(Some(s))
    case JNum(n) => Ok(Some(IntToString(n)))
    case JBool(b) => Ok(Some(if b then "True" else "False"))
    case _ => Err(NotAString)
  }

  /** A string property of an object; a missing property reads as null. */
  function StringProperty(fields: seq<(string, Json)>, name: string): Result<Option<string>, BindError> {
    match Property(fields, name)
    case None => Ok(None)
    case Some(j) => StringOf(j)
  }

  /** A dynamic property of an object; a missing property reads as null. */
  function DynamicProperty(fields: seq<(string, Json)>, name: string): Json {
    Property(fields, name).GetOr(JNull)
  }

  /** How a C# string property is written out. */
  function StringToken(s: Option<string>): Json {
    match s
    case None => JNull
    case Some(v) => JStr(v)
  }

  lemma StringTokenRoundTrip(s: Option<string>)
    ensures StringOf(StringToken(s)) == Ok(s)
  {
  }
}
