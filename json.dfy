/**
 * The JSON vocabulary the client sees through System.Text.Json.
 *
 * Deserialising into `Dictionary<string, object>` yields, for every property,
 * either a C# null (the JSON literal `null`) or a `JsonElement`. The only thing
 * the client ever does with such an element is call `ToString()` on it, so an
 * element is represented by that rendering.
 */
module Json {
  /** A property value of a deserialised dictionary. */
  datatype JVal =
    | JNull               // C# null: calling ToString() on it throws
    | JElem(text: string) // a JsonElement, given by its ToString() rendering

  /** A JSON object as a dictionary from property names to values. */
  type JObject = map<string, JVal>

  /** What `JsonSerializer.Deserialize<Dictionary<string, object>>(text)` does. */
  datatype DecodeResult =
    | Malformed            // throws JsonException
    | NullDocument         // returns null (the text is the JSON literal null)
    | Object(fields: JObject)

  /** The serializer itself is not modelled: every operation takes it as a parameter. */
  type Decoder = string -> DecodeResult

}
