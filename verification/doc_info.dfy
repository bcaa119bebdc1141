/** `DocInfo`: the descriptive record of a document. */
module DocInfos {

  import opened Wrappers
  import opened Dicts
  import opened JsValues
  import SerializedObjects

  const SingleColumn: JsValue := Str("SINGLE_COLUMN")

  /** The object the constructor body builds before `init`: it assigns
      fixed defaults, then `nrPages` and `fingerprint` read from the input,
      each to a property the fresh object does not yet have, so each is
      appended in turn. */
  function Defaults(nrPages: JsValue, fingerprint: JsValue): Props {
    Cons("progress", Num(0), Cons("pagemarkType", SingleColumn, Cons("properties", Obj([]),
    Cons("archived", Bool(false), Cons("flagged", Bool(false), Cons("tags", Obj([]),
    Cons("attachments", Obj([]), Cons("nrPages", nrPages, Cons("fingerprint", fingerprint, [])))))))))
  }

  /** `setup()`: `progress` and `properties` fall back to 0 and `{}` when
      null or undefined, `pagemarkType` to SINGLE_COLUMN when falsy. */
  function Setup(o: Props): (r: Props)
    ensures Field(r, "progress") == DefaultValue(Field(o, "progress"), Num(0))
    ensures Field(r, "pagemarkType") == OrElse(Field(o, "pagemarkType"), SingleColumn)
    ensures Field(r, "properties") == DefaultValue(Field(o, "properties"), Obj([]))
    ensures forall k :: !SetupTouches(k) ==> Field(r, k) == Field(o, k)
  {
    var a := Put(o, "progress", DefaultValue(Field(o, "progress"), Num(0)));
    var b := Put(a, "pagemarkType", OrElse(Field(a, "pagemarkType"), SingleColumn));
    Put(b, "properties", DefaultValue(Field(b, "properties"), Obj([])))
  }

  predicate SetupTouches(k: string) {
    k == "progress" || k == "pagemarkType" || k == "properties"
  }

  /** `validate()`: `nrPages` must be a number and `fingerprint` present. */
  function Validate(o: Props): (r: Option<string>)
    ensures r.Some? <==> !IsNumber(Field(o, "nrPages")) || !IsPresent(Field(o, "fingerprint"))
  {
    if !IsNumber(Field(o, "nrPages")) then Some("Precondition failed: nrPages is not a number")
    else if !IsPresent(Field(o, "fingerprint")) then Some("Precondition failed: fingerprint is not present")
    else None
  }

  /** `new DocInfo(val)`: reading `val.nrPages` throws for null and
      undefined. */
  function New(val: JsValue): (r: Result<Props>)
    ensures !IsPresent(val) ==> r.Err?
  {
    var nrPages :- Prop(val, "nrPages");
    var fingerprint := Prop(val, "fingerprint").value;
    SerializedObjects.Init(Defaults(nrPages, fingerprint), val, Setup, Validate)
  }

  /** For an object input: construction fails exactly when `nrPages` is not
      a number or `fingerprint` is absent; otherwise every field the input
      has overrides the constructor's default, and `setup` restores
      `progress`, `pagemarkType` and `properties` when the input left them
      null, undefined or (for `pagemarkType`) falsy. */
  lemma {:induction false} NewFromObject(val: Props)
    requires UniqueKeys(val)
    ensures New(Obj(val)).Err? <==> !IsNumber(Field(val, "nrPages")) || !IsPresent(Field(val, "fingerprint"))
    ensures New(Obj(val)).Ok? ==>
              var d := New(Obj(val)).value;
              Field(d, "archived") == OwnOr(val, "archived", Bool(false)) &&
              Field(d, "flagged") == OwnOr(val, "flagged", Bool(false)) &&
              Field(d, "tags") == OwnOr(val, "tags", Obj([])) &&
              Field(d, "attachments") == OwnOr(val, "attachments", Obj([])) &&
              Field(d, "progress") == DefaultValue(OwnOr(val, "progress", Num(0)), Num(0)) &&
              Field(d, "pagemarkType") == OrElse(OwnOr(val, "pagemarkType", SingleColumn), SingleColumn) &&
              Field(d, "properties") == DefaultValue(OwnOr(val, "properties", Obj([])), Obj([])) &&
              Field(d, "nrPages") == Field(val, "nrPages") &&
              Field(d, "fingerprint") == Field(val, "fingerprint")
  {
    var prepared := Setup(Assign(Defaults(Field(val, "nrPages"), Field(val, "fingerprint")), Obj(val)));
    assert New(Obj(val)) == SerializedObjects.Init(Defaults(Field(val, "nrPages"), Field(val, "fingerprint")), Obj(val), Setup, Validate);
    PreparedFields(val);
  }

  /** The object after `Object.assign` and `setup`. */
  lemma PreparedFields(val: Props)
    requires UniqueKeys(val)
    ensures var p := Setup(Assign(Defaults(Field(val, "nrPages"), Field(val, "fingerprint")), Obj(val)));
            Field(p, "archived") == OwnOr(val, "archived", Bool(false)) &&
            Field(p, "flagged") == OwnOr(val, "flagged", Bool(false)) &&
            Field(p, "tags") == OwnOr(val, "tags", Obj([])) &&
            Field(p, "attachments") == OwnOr(val, "attachments", Obj([])) &&
            Field(p, "progress") == DefaultValue(OwnOr(val, "progress", Num(0)), Num(0)) &&
            Field(p, "pagemarkType") == OrElse(OwnOr(val, "pagemarkType", SingleColumn), SingleColumn) &&
            Field(p, "properties") == DefaultValue(OwnOr(val, "properties", Obj([])), Obj([])) &&
            Field(p, "nrPages") == Field(val, "nrPages") &&
            Field(p, "fingerprint") == Field(val, "fingerprint")
  {
    var n, f := Field(val, "nrPages"), Field(val, "fingerprint");
    var p := Setup(Assign(Defaults(n, f), Obj(val)));
    assert Field(p, "archived") == OwnOr(val, "archived", Bool(false)) by {
      PreparedField(val, "archived");
      DefaultsField(n, f, "archived");
    }
    assert Field(p, "flagged") == OwnOr(val, "flagged", Bool(false)) by {
      PreparedField(val, "flagged");
      DefaultsField(n, f, "flagged");
    }
    assert Field(p, "tags") == OwnOr(val, "tags", Obj([])) by {
      PreparedField(val, "tags");
      DefaultsField(n, f, "tags");
    }
    assert Field(p, "attachments") == OwnOr(val, "attachments", Obj([])) by {
      PreparedField(val, "attachments");
      DefaultsField(n, f, "attachments");
    }
    assert Field(p, "nrPages") == n by {
      PreparedField(val, "nrPages");
      DefaultsField(n, f, "nrPages");
    }
    assert Field(p, "fingerprint") == f by {
      PreparedField(val, "fingerprint");
      DefaultsField(n, f, "fingerprint");
    }
    PreparedField(val, "progress");
    PreparedField(val, "pagemarkType");
    PreparedField(val, "properties");
  }

  /** One field after `Object.assign` and `setup`: the three fields `setup`
      touches get their fallbacks, every other field is the input's own
      value or else the constructor's default. */
  lemma PreparedField(val: Props, k: string)
    requires UniqueKeys(val)
    ensures var d := Defaults(Field(val, "nrPages"), Field(val, "fingerprint"));
            Field(Setup(Assign(d, Obj(val))), k) ==
              if k == "progress" then DefaultValue(OwnOr(val, k, Num(0)), Num(0))
              else if k == "pagemarkType" then OrElse(OwnOr(val, k, SingleColumn), SingleColumn)
              else if k == "properties" then DefaultValue(OwnOr(val, k, Obj([])), Obj([]))
              else OwnOr(val, k, Field(d, k))
  {
    var d := Defaults(Field(val, "nrPages"), Field(val, "fingerprint"));
    DefaultsField(Field(val, "nrPages"), Field(val, "fingerprint"), k);
    assert Field(Assign(d, Obj(val)), k) == OwnOr(val, k, Field(d, k));
  }

  /** One field of the object the constructor body builds. */
  lemma DefaultsField(nrPages: JsValue, fingerprint: JsValue, k: string)
    ensures Field(Defaults(nrPages, fingerprint), k) ==
              if k == "progress" then Num(0)
              else if k == "pagemarkType" then SingleColumn
              else if k == "properties" || k == "tags" || k == "attachments" then Obj([])
              else if k == "archived" || k == "flagged" then Bool(false)
              else if k == "nrPages" then nrPages
              else if k == "fingerprint" then fingerprint
              else Undefined
  {
    var tail := Cons("nrPages", nrPages, Cons("fingerprint", fingerprint, []));
    var middle := Cons("archived", Bool(false), Cons("flagged", Bool(false), Cons("tags", Obj([]), Cons("attachments", Obj([]), tail))));
    assert Defaults(nrPages, fingerprint) == Cons("progress", Num(0), Cons("pagemarkType", SingleColumn, Cons("properties", Obj([]), middle)));
    if k != "progress" && k != "pagemarkType" && k != "properties" {
      assert Field(Defaults(nrPages, fingerprint), k) == Field(middle, k);
      if k != "archived" && k != "flagged" && k != "tags" && k != "attachments" {
        assert Field(middle, k) == Field(tail, k);
      }
    }
  }
}
