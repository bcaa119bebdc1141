/** `SerializedObject`: the `init` → `setup` → `validate` lifecycle every
    metadata class follows. An object under construction is its list of own
    properties; `setup` and `validate` are those of the most derived class,
    as JavaScript's method dispatch picks them, and `validate` returns the
    message it throws, if any. */
module SerializedObjects {

  import opened Wrappers
  import opened Dicts
  import opened JsValues

  type Setup = Props -> Props
  type Validate = Props -> Option<string>

  /** `init(val)`: when `typeof val === "object"` (an object or `null`) the
      value's own fields are copied onto the object, then `setup` runs, then
      `validate`; any other value leaves the object as it was and runs
      neither. */
  function Init(self: Props, val: JsValue, setup: Setup, validate: Validate): (r: Result<Props>)
    ensures !IsObjectType(val) ==> r == Ok(self)
    ensures IsObjectType(val) ==> (r.Err? <==> validate(setup(Assign(self, val))).Some?)
    ensures IsObjectType(val) && r.Ok? ==> r.value == setup(Assign(self, val))
  {
    if IsObjectType(val) then
      var copied := Assign(self, val);
      var prepared := setup(copied);
      match validate(prepared)
      case Some(message) => Err(message)
      case None => Ok(prepared)
    else Ok(self)
  }

  /** The base `setup`: nothing. */
  function BaseSetup(o: Props): Props {
    o
  }

  /** The base `validate`: never throws. */
  function BaseValidate(o: Props): Option<string> {
    None
  }

  /** With the base `setup` and `validate`, `init` with an object copies
      every field of it and keeps the object's other fields. */
  lemma InitCopiesFields(self: Props, val: Props, k: string)
    requires UniqueKeys(val)
    ensures Init(self, Obj(val), BaseSetup, BaseValidate).Ok?
    ensures Field(Init(self, Obj(val), BaseSetup, BaseValidate).value, k) ==
              if HasKey(val, k) then Field(val, k) else Field(self, k)
  {
  }

  /** `init(null)` copies nothing but still runs `setup` and `validate`. */
  lemma InitNullRunsHooks(self: Props, setup: Setup, validate: Validate)
    ensures Init(self, Null, setup, validate) ==
              if validate(setup(self)).Some? then Err(validate(setup(self)).value) else Ok(setup(self))
  {
  }
}
