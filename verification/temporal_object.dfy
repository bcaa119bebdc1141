/** `TemporalObject`: an object with `created` and `lastUpdated` times. A
    time is whatever value the input holds; `isTime` decides `instanceof
    ISODateTime` for objects. */
module TemporalObjects {

  import opened Wrappers
  import opened Dicts
  import opened JsValues
  import SerializedObjects

  /** The fields the constructor sets before `init`. */
  function Initial(): (r: Props)
    ensures Field(r, "created") == Null && Field(r, "lastUpdated") == Null
  {
    [("created", Null), ("lastUpdated", Null)]
  }

  /** `setup()`: a falsy `lastUpdated` takes the value of a truthy
      `created`. */
  function Setup(o: Props): (r: Props)
    ensures !Truthy(Field(o, "lastUpdated")) && Truthy(Field(o, "created")) ==>
              Field(r, "lastUpdated") == Field(o, "created")
    ensures Truthy(Field(o, "lastUpdated")) || !Truthy(Field(o, "created")) ==> r == o
    ensures forall k :: k != "lastUpdated" ==> Field(r, k) == Field(o, k)
  {
    if !Truthy(Field(o, "lastUpdated")) && Truthy(Field(o, "created")) then
      Put(o, "lastUpdated", Field(o, "created"))
    else o
  }

  /** `validate()`: a falsy `created` throws. The two type checks read
      `!x instanceof ISODateTime`, which tests a boolean and never throws. */
  function Validate(o: Props, isTime: Props -> bool): (r: Option<string>)
    ensures r.Some? <==> !Truthy(Field(o, "created"))
  {
    if !Truthy(Field(o, "created")) then Some("Created is required")
    else if NegatedInstanceOfGuard(Field(o, "created"), isTime) then Some("Member created has wrong type")
    else if NegatedInstanceOfGuard(Field(o, "lastUpdated"), isTime) then Some("Member lastUpdated has wrong type")
    else None
  }

  /** `new TemporalObject(val)`. */
  function New(val: JsValue, isTime: Props -> bool): (r: Result<Props>)
    ensures !IsObjectType(val) ==> r == Ok(Initial())
  {
    SerializedObjects.Init(Initial(), val, Setup, o => Validate(o, isTime))
  }

  /** For an object input: construction fails exactly when `created` is
      missing or falsy; otherwise `created` is the input's, and
      `lastUpdated` is the input's when truthy and `created` when not. */
  lemma NewFromObject(val: Props, isTime: Props -> bool)
    requires UniqueKeys(val)
    ensures New(Obj(val), isTime).Err? <==> !Truthy(Field(val, "created"))
    ensures New(Obj(val), isTime).Ok? ==>
              var o := New(Obj(val), isTime).value;
              Field(o, "created") == Field(val, "created") &&
              Field(o, "lastUpdated") == (if Truthy(Field(val, "lastUpdated")) then Field(val, "lastUpdated") else Field(val, "created"))
  {
    var copied := Assign(Initial(), Obj(val));
    assert Field(copied, "created") == if HasKey(val, "created") then Field(val, "created") else Null;
    assert Field(copied, "lastUpdated") == if HasKey(val, "lastUpdated") then Field(val, "lastUpdated") else Null;
    var prepared := Setup(copied);
    assert Field(prepared, "created") == Field(copied, "created");
    var validate := (o: Props) => Validate(o, isTime);
    assert validate(prepared).Some? <==> !Truthy(Field(copied, "created"));
    assert New(Obj(val), isTime) == SerializedObjects.Init(Initial(), Obj(val), Setup, validate);
  }
}
