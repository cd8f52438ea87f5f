/** `ImmutableKeyValue`: one physical (key, value) slot of a document. */
module KeyValues {
  import opened Wrappers
  import opened Values

  /** One slot. The key is never null; the value may be `Null`. There are no setters. */
  datatype KeyValue = KeyValue(key: string, value: Value)

  /** The constructor: a null key is rejected, the value is kept exactly as given. */
  function NewKeyValue(key: Option<string>, value: Value): (r: Result<KeyValue, Error>)
    ensures r.Failure? <==> key.None?
    ensures r.Failure? ==> r.error == NullArgument
    ensures r.Success? ==> GetKey(r.value) == key.value && GetValue(r.value) == value
  {
    if key.None? then Failure(NullArgument) else Success(KeyValue(key.value, value))
  }

  function GetKey(kv: KeyValue): string
  {
    kv.key
  }

  function GetValue(kv: KeyValue): Value
  {
    kv.value
  }
}
