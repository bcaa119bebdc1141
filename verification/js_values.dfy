/** JavaScript values as the metadata code handles them: the primitives it
    tests for truthiness and `typeof`, and plain objects, whose own
    properties are an insertion-ordered dictionary. Numbers are integers
    plus `NaN`. */
module JsValues {

  import opened Wrappers
  import opened Dicts
  import JsStrings

  datatype JsValue =
    | Undefined
    | Null
    | Bool(b: bool)
    | Num(n: int)
    | NaN
    | Str(s: string)
    | Obj(props: Dict<string, JsValue>)

  /** The own properties of an object. */
  type Props = Dict<string, JsValue>

  /** Every object, at every depth, has distinct keys: the values a
      JavaScript program can build. */
  predicate WellFormed(v: JsValue) {
    match v
    case Obj(ps) => UniqueKeys(ps) && forall i :: 0 <= i < |ps| ==> WellFormed(ps[i].1)
    case _ => true
  }

  /** The value `if (v)` tests: false for `undefined`, `null`, `false`, 0,
      `NaN` and the empty string. */
  predicate Truthy(v: JsValue) {
    match v
    case Undefined => false
    case Null => false
    case NaN => false
    case Bool(b) => b
    case Num(n) => n != 0
    case Str(s) => s != ""
    case Obj(_) => true
  }

  /** Neither `null` nor `undefined`: what `isPresent` and `Optional.of`
      accept. */
  predicate IsPresent(v: JsValue) {
    !v.Undefined? && !v.Null?
  }

  /** `typeof v === "object"`, which holds of `null` too. */
  predicate IsObjectType(v: JsValue) {
    v.Null? || v.Obj?
  }

  /** `typeof v === "number"`, which holds of `NaN` too. */
  predicate IsNumber(v: JsValue) {
    v.Num? || v.NaN?
  }

  /** The name `typeof v` gives. */
  function TypeOf(v: JsValue): string {
    match v
    case Undefined => "undefined"
    case Bool(_) => "boolean"
    case Num(_) => "number"
    case NaN => "number"
    case Str(_) => "string"
    case _ => "object"
  }

  /** `p[key]` on an object's properties: `undefined` when absent. */
  function Field(p: Props, key: string): JsValue {
    Get(p, key).GetOr(Undefined)
  }

  /** An object literal listing `keys`, each set to `undefined`. */
  function UndefinedProps(keys: seq<string>): (r: Props)
    ensures Keys(r) == keys
    ensures forall i :: 0 <= i < |r| ==> r[i].1 == Undefined
  {
    seq(|keys|, i requires 0 <= i < |keys| => (keys[i], Undefined))
  }

  lemma UndefinedPropsGet(keys: seq<string>, k: string)
    ensures Get(UndefinedProps(keys), k) == if k in keys then Some(Undefined) else None
  {
    if |keys| > 0 {
      assert UndefinedProps(keys)[1..] == UndefinedProps(keys[1..]);
      UndefinedPropsGet(keys[1..], k);
    }
  }

  /** `v || fallback`. */
  function OrElse(v: JsValue, fallback: JsValue): JsValue {
    if Truthy(v) then v else fallback
  }

  /** `if (!o.key) o.key = fallback`: a falsy field takes the fallback,
      every other field is left alone. */
  function Fallback(o: Props, key: string, fallback: JsValue): (r: Props)
    ensures Field(r, key) == OrElse(Field(o, key), fallback)
    ensures forall k :: k != key ==> Field(r, k) == Field(o, k)
  {
    if Truthy(Field(o, key)) then o else Put(o, key, fallback)
  }

  /** `defaultValue(v, fallback)`: `v` unless it is null or undefined. */
  function DefaultValue(v: JsValue, fallback: JsValue): JsValue {
    if IsPresent(v) then v else fallback
  }

  /** The value an object's own property `key` has, or `fallback` when it
      has no such property. */
  function OwnOr(p: Props, key: string, fallback: JsValue): JsValue {
    if HasKey(p, key) then Field(p, key) else fallback
  }

  /** A truthy field is an own property. */
  lemma HasKeyOfTruthy(p: Props, key: string)
    requires Truthy(Field(p, key))
    ensures HasKey(p, key)
  {
  }

  /** The property read `v.key`: reading from `undefined` or `null` throws a
      TypeError. Reading from any other primitive yields `undefined`, which
      holds for every key the model reads (none is `length`, an index or a
      method name). */
  function Prop(v: JsValue, key: string): (r: Result<JsValue>)
    ensures r.Err? <==> !IsPresent(v)
    ensures v.Obj? ==> r == Ok(Field(v.props, key))
    ensures IsPresent(v) && !v.Obj? ==> r == Ok(Undefined)
  {
    match v
    case Undefined => Err("Cannot read property '" + key + "' of undefined")
    case Null => Err("Cannot read property '" + key + "' of null")
    case Obj(p) => Ok(Field(p, key))
    case _ => Ok(Undefined)
  }

  /** The own enumerable properties of a string once `ToObject` wraps it:
      each character, as a one-character string, under its decimal index. */
  function IndexProps(s: string): (r: Props)
    ensures |r| == |s|
    ensures UniqueKeys(r)
    ensures forall i :: 0 <= i < |s| ==> Get(r, JsStrings.ToDecimal(i)) == Some(Str([s[i]]))
    ensures forall k :: HasKey(r, k) ==> exists i :: 0 <= i < |s| && k == JsStrings.ToDecimal(i)
  {
    var r := seq(|s|, i requires 0 <= i < |s| => (JsStrings.ToDecimal(i), Str([s[i]])));
    forall i, j | 0 <= i < j < |r| ensures r[i].0 != r[j].0 {
      JsStrings.NatToDecimalValue(i);
      JsStrings.NatToDecimalValue(j);
    }
    UniqueKeysDistinct(r);
    forall i | 0 <= i < |s| ensures Get(r, JsStrings.ToDecimal(i)) == Some(Str([s[i]])) {
      assert r[i] == (JsStrings.ToDecimal(i), Str([s[i]]));
      GetIsMember(r, JsStrings.ToDecimal(i), Str([s[i]]));
    }
    forall k | HasKey(r, k) ensures exists i :: 0 <= i < |s| && k == JsStrings.ToDecimal(i) {
      HasKeyAt(r, k);
    }
    r
  }

  /** The own enumerable properties `Object.assign` copies from a source:
      an object's own properties, a string's indexed characters, and
      nothing for the other primitives. */
  function OwnProps(source: JsValue): Props {
    match source
    case Obj(p) => p
    case Str(s) => IndexProps(s)
    case _ => []
  }

  /** `Object.assign(target, source)`: the own properties of the source
      (after `ToObject`) are written onto the target in order; `null`,
      `undefined`, booleans and numbers contribute nothing. */
  function Assign(target: Props, source: JsValue): (r: Props)
    ensures source.Obj? ==> forall k :: Get(r, k) == if Last(source.props, k).Some? then Last(source.props, k) else Get(target, k)
    ensures source.Str? ==> forall k :: Field(r, k) == if HasKey(IndexProps(source.s), k) then Field(IndexProps(source.s), k) else Field(target, k)
    ensures source.Obj? && UniqueKeys(source.props) ==>
              forall k :: Field(r, k) == if HasKey(source.props, k) then Field(source.props, k) else Field(target, k)
    ensures source.Str? ==> forall i :: 0 <= i < |source.s| ==> Field(r, JsStrings.ToDecimal(i)) == Str([source.s[i]])
    ensures UniqueKeys(target) ==> UniqueKeys(r)
    ensures !source.Obj? && !source.Str? ==> r == target
  {
    var own := OwnProps(source);
    var r := PutAll(target, own);
    if source.Obj? then
      forall k | UniqueKeys(source.props)
        ensures Field(r, k) == if HasKey(source.props, k) then Field(source.props, k) else Field(target, k)
      {
        LastAndGetAgree(source.props, k);
      }
      r
    else if source.Str? then
      forall k ensures Field(r, k) == if HasKey(own, k) then Field(own, k) else Field(target, k) {
        LastIsGet(own, k);
      }
      r
    else r
  }

  /** Some entry under `k` exists exactly when a last one does, and when the
      keys are distinct it is the first one. */
  lemma LastAndGetAgree<V>(d: Dict<string, V>, k: string)
    ensures Last(d, k).Some? <==> HasKey(d, k)
    ensures UniqueKeys(d) ==> Last(d, k) == Get(d, k)
    ensures Last(d, k).Some? ==> exists i :: 0 <= i < |d| && d[i] == (k, Last(d, k).value)
    decreases |d|
  {
    if |d| > 0 {
      var init := d[..|d| - 1];
      LastAndGetAgree(init, k);
      HasKeyOfSnoc(init, d[|d| - 1], k);
      assert d == init + [d[|d| - 1]];
      if UniqueKeys(d) {
        LastIsGet(d, k);
      }
    }
  }

  lemma HasKeyOfSnoc<V>(d: Dict<string, V>, e: (string, V), k: string)
    ensures HasKey(d + [e], k) <==> HasKey(d, k) || e.0 == k
    ensures HasKey(d, k) ==> Get(d + [e], k) == Get(d, k)
  {
    if |d| == 0 {
      assert (d + [e])[1..] == [];
    } else {
      assert (d + [e])[1..] == d[1..] + [e];
      HasKeyOfSnoc(d[1..], e, k);
    }
  }

  /** Subtraction `a - b` on numbers; any other operand gives `NaN`. */
  function Minus(a: JsValue, b: JsValue): (r: JsValue)
    ensures a.Num? && b.Num? ==> r == Num(a.n - b.n)
    ensures !(a.Num? && b.Num?) ==> r == NaN
  {
    if a.Num? && b.Num? then Num(a.n - b.n) else NaN
  }

  /** `v instanceof C`, where `isInstance` decides it for objects; no
      primitive is an instance of a class. */
  predicate InstanceOf(v: JsValue, isInstance: Props -> bool) {
    v.Obj? && isInstance(v.props)
  }

  /** The guard `!v instanceof C`, which JavaScript parses as
      `(!v) instanceof C`: a boolean on the left, so it never holds. */
  function NegatedInstanceOfGuard(v: JsValue, isInstance: Props -> bool): (fires: bool)
    ensures !fires
  {
    InstanceOf(Bool(!Truthy(v)), isInstance)
  }
}
