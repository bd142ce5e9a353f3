/** The JSON values that notebooks, parameters and schemas are made of. */
module Json {

  /** A JSON value. Numbers with a fraction are kept as mathematical reals; the rounding of
      IEEE doubles is not modelled. */
  datatype Value =
    | JNull
    | JBool(b: bool)
    | JInt(i: int)
    | JFloat(f: real)
    | JStr(s: string)
    | JArray(elems: seq<Value>)
    | JObject(fields: map<string, Value>)
}
