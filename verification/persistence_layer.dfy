/** `PersistenceLayer`: the layer over a raw datastore that stores documents
    as strings. The datastore is a map from the fingerprint argument to the
    stored value (absent keys read as `null`); `DocMetas.serialize` and
    `DocMetas.deserialize` are parameters. */
module PersistenceLayers {

  import opened Wrappers
  import opened JsValues

  type Store = map<JsValue, JsValue>

  type Serialize = (JsValue, string) -> string

  type Deserialize = string -> JsValue

  /** The indentation argument every write passes to the serializer. */
  const Indent := "  "

  /** `getDocMeta(fingerprint)`: null when nothing or a falsy value is
      stored, an error when a non-string is stored, and the deserialized
      document otherwise. */
  function GetDocMeta(store: Store, fingerprint: JsValue, deserialize: Deserialize): (r: Result<Option<JsValue>>)
    ensures r == Ok(None) <==> fingerprint !in store || !Truthy(store[fingerprint])
    ensures r.Err? <==> fingerprint in store && Truthy(store[fingerprint]) && !store[fingerprint].Str?
    ensures r.Err? ==> r.message == "Expected string and received: " + TypeOf(store[fingerprint])
    ensures r.Ok? && r.value.Some? ==> fingerprint in store && store[fingerprint].Str? &&
                                       r.value.value == deserialize(store[fingerprint].s)
  {
    var data := if fingerprint in store then store[fingerprint] else Null;
    if !Truthy(data) then Ok(None)
    else if !data.Str? then Err("Expected string and received: " + TypeOf(data))
    else Ok(Some(deserialize(data.s)))
  }

  /** `sync(fingerprint, docMeta)`: the guard written to reject non-documents
      never fires, so every value is serialized and written under the given
      fingerprint, whatever it is. */
  function Sync(store: Store, fingerprint: JsValue, docMeta: JsValue, isDocMeta: Props -> bool, serialize: Serialize): (r: Store)
    ensures fingerprint in r && r[fingerprint] == Str(serialize(docMeta, Indent))
    ensures forall f :: f in store && f != fingerprint ==> f in r && r[f] == store[f]
    ensures r.Keys == store.Keys + {fingerprint}
  {
    if NegatedInstanceOfGuard(docMeta, isDocMeta) then assert false; store
    else store[fingerprint := Str(serialize(docMeta, Indent))]
  }

  /** `syncDocMeta(docMeta)`: `sync` under the document's own `fingerprint`
      property, which throws for a null or undefined document. */
  function SyncDocMeta(store: Store, docMeta: JsValue, isDocMeta: Props -> bool, serialize: Serialize): (r: Result<Store>)
    ensures r.Err? <==> !IsPresent(docMeta)
    ensures r.Ok? ==> r.value == Sync(store, Prop(docMeta, "fingerprint").value, docMeta, isDocMeta, serialize)
    ensures docMeta.Obj? && !Dicts.HasKey(docMeta.props, "fingerprint") ==>
              r.Ok? && Undefined in r.value
  {
    var fingerprint :- Prop(docMeta, "fingerprint");
    Ok(Sync(store, fingerprint, docMeta, isDocMeta, serialize))
  }

  /** Reading back what `sync` wrote yields the deserialized serialization,
      unless the serializer produced the empty string, which reads back as
      null; with a serializer the deserializer inverts, the document comes
      back unchanged. */
  lemma SyncThenGet(store: Store, fingerprint: JsValue, docMeta: JsValue, isDocMeta: Props -> bool,
                    serialize: Serialize, deserialize: Deserialize)
    ensures var data := serialize(docMeta, Indent);
            GetDocMeta(Sync(store, fingerprint, docMeta, isDocMeta, serialize), fingerprint, deserialize)
              == if data == "" then Ok(None) else Ok(Some(deserialize(data)))
    ensures serialize(docMeta, Indent) != "" && deserialize(serialize(docMeta, Indent)) == docMeta ==>
              GetDocMeta(Sync(store, fingerprint, docMeta, isDocMeta, serialize), fingerprint, deserialize) == Ok(Some(docMeta))
  {
  }

  /** Writing one fingerprint leaves what every other fingerprint reads
      unchanged. */
  lemma SyncIsolated(store: Store, fingerprint: JsValue, other: JsValue, docMeta: JsValue, isDocMeta: Props -> bool,
                     serialize: Serialize, deserialize: Deserialize)
    requires other != fingerprint
    ensures GetDocMeta(Sync(store, fingerprint, docMeta, isDocMeta, serialize), other, deserialize)
              == GetDocMeta(store, other, deserialize)
  {
  }
}
