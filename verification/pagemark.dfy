/** `Pagemark`: the annotation marking how much of a page has been read. */
module Pagemarks {

  import opened Wrappers
  import opened Dicts
  import opened JsValues
  import SerializedObjects
  import TemporalObjects
  import Annotations

  const SingleColumn: JsValue := Str("SINGLE_COLUMN")

  /** The fields `setup` may change. */
  predicate SetupTouches(k: string) {
    k == "notes" || k == "type" || k == "percentage" || k == "column" || k == "lastUpdated"
  }

  /** `setup()`: the annotation's rule for `lastUpdated`, then `notes`,
      `type`, `percentage` and `column` each replaced when falsy by `{}`,
      SINGLE_COLUMN, 100 and 0. */
  function Setup(o: Props): (r: Props)
    ensures forall k :: Field(r, k) ==
              if k == "notes" then OrElse(Field(o, k), Obj([]))
              else if k == "type" then OrElse(Field(o, k), SingleColumn)
              else if k == "percentage" then OrElse(Field(o, k), Num(100))
              else if k == "column" then OrElse(Field(o, k), Num(0))
              else Field(Annotations.Setup(o), k)
  {
    var a := Annotations.Setup(o);
    var b := Fallback(a, "notes", Obj([]));
    var c := Fallback(b, "type", SingleColumn);
    var d := Fallback(c, "percentage", Num(100));
    Fallback(d, "column", Num(0))
  }

  /** `validate()`: the annotation's. */
  function Validate(o: Props, isTime: Props -> bool): (r: Option<string>)
    ensures r.Some? <==> !Truthy(Field(o, "created"))
  {
    Annotations.Validate(o, isTime)
  }

  function Validator(isTime: Props -> bool): SerializedObjects.Validate {
    o => Validate(o, isTime)
  }

  /** `new Pagemark(val)`: the annotation constructor runs `init` once
      (with this class's `setup`), then five fields are read from `val`,
      `column` from `val.percentage`, and `init` runs a second time. */
  function New(val: JsValue, isTime: Props -> bool): (r: Result<Props>)
    ensures val.Undefined? ==> r.Err?
  {
    var validate := Validator(isTime);
    var first :- Annotations.Construct(val, Setup, validate);
    var notes :- Prop(val, "notes");
    var withFields := WithFields(first, val);
    SerializedObjects.Init(withFields, val, Setup, validate)
  }

  /** The five assignments of the constructor body; `val` is an object or a
      primitive other than null and undefined, so reading never throws. */
  function WithFields(o: Props, val: JsValue): Props
    requires IsPresent(val)
  {
    var percentage := Prop(val, "percentage").value;
    Put(Put(Put(Put(Put(o, "notes", Prop(val, "notes").value), "type", Prop(val, "type").value),
                "percentage", percentage), "column", percentage), "rect", Prop(val, "rect").value)
  }

  /** What the five assignments leave under each key. */
  lemma WithFieldsField(o: Props, val: Props, k: string)
    ensures Field(WithFields(o, Obj(val)), k) ==
              if k == "notes" || k == "type" || k == "percentage" || k == "rect" then Field(val, k)
              else if k == "column" then Field(val, "percentage")
              else Field(o, k)
  {
    var w1 := Put(o, "notes", Field(val, "notes"));
    var w2 := Put(w1, "type", Field(val, "type"));
    var w3 := Put(w2, "percentage", Field(val, "percentage"));
    var w4 := Put(w3, "column", Field(val, "percentage"));
    var w5 := Put(w4, "rect", Field(val, "rect"));
    assert WithFields(o, Obj(val)) == w5;
  }

  /** After the constructor body and the second `Object.assign`, each of
      the five fields holds the input's value, except that `column` falls
      back to the input's `percentage`. */
  lemma SecondAssign(o: Props, val: Props, k: string)
    requires UniqueKeys(val)
    ensures Field(Assign(WithFields(o, Obj(val)), Obj(val)), k) ==
              if k == "notes" || k == "type" || k == "percentage" || k == "rect" then Field(val, k)
              else if k == "column" then ColumnSource(val)
              else if HasKey(val, k) then Field(val, k)
              else Field(o, k)
  {
    WithFieldsField(o, val, k);
  }

  /** The value `column` holds before `setup`: the input's `column` if it has
      one, otherwise its `percentage`. */
  function ColumnSource(val: Props): JsValue {
    OwnOr(val, "column", Field(val, "percentage"))
  }

  /** For an object input with a truthy `created`, the pagemark has the
      input's fields with the defaults of `setup`, and `column` falls back
      to the input's `percentage` when the input has no `column`. A falsy
      `created` throws. */
  lemma {:induction false} NewFromObject(val: Props, isTime: Props -> bool)
    requires UniqueKeys(val)
    ensures New(Obj(val), isTime).Err? <==> !Truthy(Field(val, "created"))
    ensures New(Obj(val), isTime).Ok? ==>
              var p := New(Obj(val), isTime).value;
              Field(p, "notes") == OrElse(Field(val, "notes"), Obj([])) &&
              Field(p, "type") == OrElse(Field(val, "type"), SingleColumn) &&
              Field(p, "percentage") == OrElse(Field(val, "percentage"), Num(100)) &&
              Field(p, "column") == OrElse(ColumnSource(val), Num(0)) &&
              Field(p, "rect") == Field(val, "rect") &&
              Field(p, "created") == Field(val, "created")
  {
    FirstInit(val, isTime);
    if Truthy(Field(val, "created")) {
      FinalFields(Setup(Assign(Annotations.Initial(), Obj(val))), val, isTime);
    }
  }

  /** The `init` inside the annotation constructor. */
  lemma FirstInit(val: Props, isTime: Props -> bool)
    requires UniqueKeys(val)
    ensures var first := Annotations.Construct(Obj(val), Setup, Validator(isTime));
            (first.Err? <==> !Truthy(Field(val, "created"))) &&
            (first.Ok? ==> first.value == Setup(Assign(Annotations.Initial(), Obj(val))))
  {
    var copied := Assign(Annotations.Initial(), Obj(val));
    Annotations.CopiedField(val, "created");
    var prepared := Setup(copied);
    assert Field(prepared, "created") == Field(copied, "created");
    assert Validator(isTime)(prepared).Some? <==> !Truthy(Field(copied, "created"));
  }

  /** The second `init`, at the end of the pagemark constructor. */
  lemma FinalFields(prepared: Props, val: Props, isTime: Props -> bool)
    requires UniqueKeys(val) && Truthy(Field(val, "created"))
    ensures var r := SerializedObjects.Init(WithFields(prepared, Obj(val)), Obj(val), Setup, Validator(isTime));
            r.Ok? &&
            Field(r.value, "notes") == OrElse(Field(val, "notes"), Obj([])) &&
            Field(r.value, "type") == OrElse(Field(val, "type"), SingleColumn) &&
            Field(r.value, "percentage") == OrElse(Field(val, "percentage"), Num(100)) &&
            Field(r.value, "column") == OrElse(ColumnSource(val), Num(0)) &&
            Field(r.value, "rect") == Field(val, "rect") &&
            Field(r.value, "created") == Field(val, "created")
  {
    var final := Setup(Assign(WithFields(prepared, Obj(val)), Obj(val)));
    FinalField(prepared, val, "notes");
    FinalField(prepared, val, "type");
    FinalField(prepared, val, "percentage");
    FinalField(prepared, val, "column");
    FinalField(prepared, val, "rect");
    FinalField(prepared, val, "created");
    HasKeyOfTruthy(val, "created");
    assert Validator(isTime)(final).None?;
  }

  /** One field after the second `init`'s copy and `setup`. */
  lemma FinalField(prepared: Props, val: Props, k: string)
    requires UniqueKeys(val)
    ensures var final := Setup(Assign(WithFields(prepared, Obj(val)), Obj(val)));
            Field(final, k) ==
              if k == "notes" then OrElse(Field(val, k), Obj([]))
              else if k == "type" then OrElse(Field(val, k), SingleColumn)
              else if k == "percentage" then OrElse(Field(val, k), Num(100))
              else if k == "column" then OrElse(ColumnSource(val), Num(0))
              else if k == "rect" then Field(val, k)
              else if SetupTouches(k) then Field(final, k)
              else OwnOr(val, k, Field(prepared, k))
  {
    SecondAssign(prepared, val, k);
  }

  /** `new Pagemark(undefined)` throws when it reads `val.notes`. */
  lemma NewFromUndefined(isTime: Props -> bool)
    ensures New(Undefined, isTime).Err?
  {
  }
}
