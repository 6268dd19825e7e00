/**
 * The response patch of `SubmitQuery` in sync mode: the single JSON response
 * is deserialised, and when it has a `data` property, that property is
 * deserialised again, gets the context metadata under `contextMetadata`, and
 * is put back. Nothing here catches: an exception ends the program.
 */
module SyncPatch {
  import opened Wrappers
  import opened Json

  const DataKey := "data"
  const ContextMetadataKey := "contextMetadata"

  /** A value of the patched dictionaries, as it will be serialised. */
  datatype Field =
    | Json(element: JVal)                           // left as deserialised
    | Dict(entries: map<string, Field>)             // the re-deserialised `data` dictionary
    | ContextList(items: seq<map<string, string>>)  // the context metadata list

  /** The exceptions that escape the patch. */
  datatype Exception = NullReference | JsonError

  /** A deserialised dictionary whose values are all left as they are. */
  function Lift(o: JObject): (r: map<string, Field>)
    ensures r.Keys == o.Keys
    ensures forall k :: k in o ==> r[k] == Json(o[k])
  {
    map k | k in o :: Json(o[k])
  }

  method PatchSyncResponse(decode: Decoder, responseBody: string, contextMetadata: seq<map<string, string>>)
    returns (r: Result<map<string, Field>, Exception>)
    // the response does not deserialise, or deserialises to null
    ensures decode(responseBody).Malformed? ==> r == Failure(JsonError)
    ensures decode(responseBody).NullDocument? ==> r == Failure(NullReference)
    // without `data` the response is untouched
    ensures decode(responseBody).Object? && DataKey !in decode(responseBody).fields
            ==> r == Success(Lift(decode(responseBody).fields))
    // `data` is null, is not an object, or deserialises to null
    ensures decode(responseBody).Object? && DataKey in decode(responseBody).fields ==>
              var value := decode(responseBody).fields[DataKey];
              && (value.JNull? ==> r == Failure(NullReference))
              && (value.JElem? && decode(value.text).Malformed? ==> r == Failure(JsonError))
              && (value.JElem? && decode(value.text).NullDocument? ==> r == Failure(NullReference))
    // `data` gains `contextMetadata`; every other property, inside and outside `data`, is kept
    ensures decode(responseBody).Object? && DataKey in decode(responseBody).fields
            && decode(responseBody).fields[DataKey].JElem?
            && decode(decode(responseBody).fields[DataKey].text).Object? ==>
              var original := decode(responseBody).fields;
              var data := decode(original[DataKey].text).fields;
              && r.Success?
              && r.value.Keys == original.Keys
              && (forall k :: k in original && k != DataKey ==> r.value[k] == Json(original[k]))
              && r.value[DataKey].Dict?
              && r.value[DataKey].entries.Keys == data.Keys + {ContextMetadataKey}
              && r.value[DataKey].entries[ContextMetadataKey] == ContextList(contextMetadata)
              && (forall k :: k in data && k != ContextMetadataKey ==> r.value[DataKey].entries[k] == Json(data[k]))
  {
    var parsed := decode(responseBody);
    if parsed.Malformed? {
      return Failure(JsonError);
    }
    if parsed.NullDocument? {
      return Failure(NullReference);  // original.ContainsKey on null
    }
    var original := Lift(parsed.fields);
    if DataKey in original {
      var value := parsed.fields[DataKey];
      if value.JNull? {
        return Failure(NullReference);  // original["data"].ToString() on null
      }
      var reparsed := decode(value.text);
      if reparsed.Malformed? {
        return Failure(JsonError);
      }
      if reparsed.NullDocument? {
        return Failure(NullReference);  // data["contextMetadata"] = ... on null
      }
      var data := Lift(reparsed.fields);
      data := data[ContextMetadataKey := ContextList(contextMetadata)];
      original := original[DataKey := Dict(data)];
    }
    return Success(original);
  }
}
