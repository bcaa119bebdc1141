/** `Annotation`: the base of every annotation. Its `setup` and `validate`
    carry the same rules as `TemporalObject`'s, which the class repeats
    rather than inherits; the model states them once. */
module Annotations {

  import opened Wrappers
  import opened Dicts
  import opened JsValues
  import SerializedObjects
  import TemporalObjects

  /** The fields the constructor sets before `init`. */
  function Initial(): (r: Props)
    ensures Field(r, "id") == Null && Field(r, "created") == Null && Field(r, "lastUpdated") == Null
  {
    [("id", Null), ("created", Null), ("lastUpdated", Null)]
  }

  /** `setup()`: `lastUpdated` defaults to `created`. */
  function Setup(o: Props): (r: Props)
    ensures !Truthy(Field(o, "lastUpdated")) && Truthy(Field(o, "created")) ==>
              Field(r, "lastUpdated") == Field(o, "created")
    ensures Truthy(Field(o, "lastUpdated")) || !Truthy(Field(o, "created")) ==> r == o
    ensures forall k :: k != "lastUpdated" ==> Field(r, k) == Field(o, k)
  {
    TemporalObjects.Setup(o)
  }

  /** `validate()`: a falsy `created` throws; the type checks never do. */
  function Validate(o: Props, isTime: Props -> bool): (r: Option<string>)
    ensures r.Some? <==> !Truthy(Field(o, "created"))
  {
    TemporalObjects.Validate(o, isTime)
  }

  /** The constructor as a subclass runs it: `init` dispatches to the
      subclass's `setup` and `validate`. */
  function Construct(val: JsValue, setup: SerializedObjects.Setup, validate: SerializedObjects.Validate): (r: Result<Props>)
    ensures !IsObjectType(val) ==> r == Ok(Initial())
  {
    SerializedObjects.Init(Initial(), val, setup, validate)
  }

  /** `new Annotation(val)`. */
  function New(val: JsValue, isTime: Props -> bool): (r: Result<Props>)
    ensures !IsObjectType(val) ==> r == Ok(Initial())
    ensures val.Null? ==> r.Err?
  {
    Construct(val, Setup, o => Validate(o, isTime))
  }

  /** For an object input: construction fails exactly when `created` is
      falsy; otherwise `id` and `created` are the input's (a missing `id`
      stays null) and `lastUpdated` defaults to `created`. */
  lemma NewFromObject(val: Props, isTime: Props -> bool)
    requires UniqueKeys(val)
    ensures New(Obj(val), isTime).Err? <==> !Truthy(Field(val, "created"))
    ensures New(Obj(val), isTime).Ok? ==>
              var o := New(Obj(val), isTime).value;
              Field(o, "id") == (if HasKey(val, "id") then Field(val, "id") else Null) &&
              Field(o, "created") == Field(val, "created") &&
              Field(o, "lastUpdated") == (if Truthy(Field(val, "lastUpdated")) then Field(val, "lastUpdated") else Field(val, "created"))
  {
    var copied := Assign(Initial(), Obj(val));
    CopiedField(val, "id");
    CopiedField(val, "created");
    CopiedField(val, "lastUpdated");
    var prepared := Setup(copied);
    var validate := (o: Props) => Validate(o, isTime);
    assert validate(prepared).Some? <==> !Truthy(Field(copied, "created"));
    assert New(Obj(val), isTime) == SerializedObjects.Init(Initial(), Obj(val), Setup, validate);
  }

  /** A field the constructor sets, after `Object.assign`: the input's own
      value, or else null. */
  lemma CopiedField(val: Props, k: string)
    requires UniqueKeys(val)
    requires k == "id" || k == "created" || k == "lastUpdated"
    ensures Field(Assign(Initial(), Obj(val)), k) == OwnOr(val, k, Null)
  {
  }

  /** A non-object input (undefined, a string, a number) skips `init`
      entirely: nothing is validated and all three fields stay null. */
  lemma NewFromNonObject(val: JsValue, isTime: Props -> bool)
    requires !IsObjectType(val)
    ensures New(val, isTime) == Ok(Initial())
  {
  }
}
