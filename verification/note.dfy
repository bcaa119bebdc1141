/** `Note`: a free-text annotation. Its base class `VersionedObject` is not
    part of this model: the object its constructor leaves behind is a
    parameter. */
module Notes {

  import opened Wrappers
  import opened Dicts
  import opened JsValues
  import SerializedObjects

  /** `setup()`: a falsy `content` becomes `emptyHtml`, the empty HTML text
      that `Texts.create("", HTML)` returns. */
  function Setup(o: Props, emptyHtml: JsValue): (r: Props)
    ensures Field(r, "content") == OrElse(Field(o, "content"), emptyHtml)
    ensures forall k :: k != "content" ==> Field(r, k) == Field(o, k)
  {
    if Truthy(Field(o, "content")) then o else Put(o, "content", emptyHtml)
  }

  /** `validate()`: a falsy `created` throws. */
  function Validate(o: Props): (r: Option<string>)
    ensures r.Some? <==> !Truthy(Field(o, "created"))
  {
    if Truthy(Field(o, "created")) then None else Some("The field `created` is required.")
  }

  function Setter(emptyHtml: JsValue): SerializedObjects.Setup {
    o => Setup(o, emptyHtml)
  }

  /** `new Note(val)`, given the object `base` the base constructor built:
      `content` is read from `val` (which throws for null and undefined),
      then `init` runs. */
  function New(base: Props, val: JsValue, emptyHtml: JsValue): (r: Result<Props>)
    ensures !IsPresent(val) ==> r.Err?
  {
    var content :- Prop(val, "content");
    SerializedObjects.Init(Put(base, "content", content), val, Setter(emptyHtml), Validate)
  }

  /** For an object input: the note fails exactly when `created`, from the
      input or else from the base object, is falsy; otherwise it has the
      input's fields over the base object's, with a falsy `content` replaced
      by the empty HTML text. */
  lemma NewFromObject(base: Props, val: Props, emptyHtml: JsValue, k: string)
    requires UniqueKeys(val)
    ensures New(base, Obj(val), emptyHtml).Err? <==> !Truthy(OwnOr(val, "created", Field(base, "created")))
    ensures New(base, Obj(val), emptyHtml).Ok? ==>
              var n := New(base, Obj(val), emptyHtml).value;
              Field(n, "content") == OrElse(Field(val, "content"), emptyHtml) &&
              (k != "content" ==> Field(n, k) == OwnOr(val, k, Field(base, k)))
  {
    var self := Put(base, "content", Field(val, "content"));
    assert New(base, Obj(val), emptyHtml) == SerializedObjects.Init(self, Obj(val), Setter(emptyHtml), Validate);
    CopiedField(base, val, "content");
    CopiedField(base, val, "created");
    CopiedField(base, val, k);
  }

  /** One field after the constructor body and `Object.assign`. */
  lemma CopiedField(base: Props, val: Props, k: string)
    requires UniqueKeys(val)
    ensures Field(Assign(Put(base, "content", Field(val, "content")), Obj(val)), k)
              == if k == "content" then Field(val, k) else OwnOr(val, k, Field(base, k))
  {
  }

  /** `new Note(undefined)` throws before `init`. */
  lemma NewFromUndefined(base: Props, emptyHtml: JsValue)
    ensures New(base, Undefined, emptyHtml) == Err("Cannot read property 'content' of undefined")
  {
  }
}
