/** `Styles`: reading CSS pixel lengths. */
module Styles {

  import opened Wrappers
  import opened Dicts
  import opened JsStrings
  import opened JsValues
  import Utils

  /** `parsePX(value)`: null and the empty string throw; a string has its
      first "px" removed and the rest read with `parseInt`. Any other value
      has no `replace` method and throws a TypeError. */
  function ParsePX(value: JsValue): (r: Result<JsValue>)
    ensures r.Err? <==> !(value.Str? && value.s != "")
    ensures r.Ok? ==> r.value == (match Utils.ParsePixels(value.s) case Some(n) => Num(n) case None => NaN)
  {
    match value
    case Null => Err("Precondition (argument) for 'value' null")
    case Undefined => Err("Empty string given")
    case Str(s) =>
      if s == "" then Err("Empty string given")
      else Ok(match Utils.ParsePixels(s) case Some(n) => Num(n) case None => NaN)
    case _ => Err("TypeError: value.replace is not a function")
  }

  /** A length written as `String(n) + "px"` reads back as `n`. */
  lemma ParsePXOfPx(n: int)
    ensures ParsePX(Str(ToDecimal(n) + "px")) == Ok(Num(n))
  {
    Utils.ParsePixelsOfPx(n);
  }

  /** The keys `positioningToPX` starts from. */
  const PositionKeys: seq<string> := ["left", "top", "right", "bottom", "width", "height"]

  /** One value of `positioningToPX`: null and undefined stay `undefined`,
      anything else goes through `parsePX`. */
  function ToPX(v: JsValue): (r: Result<JsValue>)
    ensures !IsPresent(v) ==> r == Ok(Undefined)
    ensures IsPresent(v) ==> r == ParsePX(v)
  {
    if IsPresent(v) then ParsePX(v) else Ok(Undefined)
  }

  /** Every own value converted, in key order; the first failure throws. */
  function ToPXAll(ps: Props): (r: Result<Props>)
    ensures r.Ok? <==> forall i :: 0 <= i < |ps| ==> ToPX(ps[i].1).Ok?
    ensures r.Ok? ==> |r.value| == |ps| &&
                      forall i :: 0 <= i < |ps| ==> r.value[i] == (ps[i].0, ToPX(ps[i].1).value)
  {
    if |ps| == 0 then Ok([])
    else
      var head := ToPX(ps[0].1);
      if head.Err? then Err(head.message)
      else
        var rest := ToPXAll(ps[1..]);
        assert forall i :: 1 <= i < |ps| ==> ps[i] == ps[1..][i - 1];
        if rest.Err? then Err(rest.message)
        else Ok([(ps[0].0, head.value)] + rest.value)
  }

  /** `positioningToPX(positioning)`: the six position keys, `undefined`
      unless given, followed by the converted own properties. */
  function PositioningToPX(positioning: Props): (r: Result<Props>)
    ensures r.Ok? <==> forall i :: 0 <= i < |positioning| ==> ToPX(positioning[i].1).Ok?
    ensures r.Ok? ==> forall i :: 0 <= i < |PositionKeys| ==> HasKey(r.value, PositionKeys[i])
  {
    var converted :- ToPXAll(positioning);
    var r := PutAll(UndefinedProps(PositionKeys), converted);
    assert forall i :: 0 <= i < |PositionKeys| ==> HasKey(r, PositionKeys[i]) by {
      forall i | 0 <= i < |PositionKeys| ensures HasKey(r, PositionKeys[i]) {
        HasKeyIsKeyMember(UndefinedProps(PositionKeys), PositionKeys[i]);
      }
    }
    Ok(r)
  }

  /** With distinct input keys, every given key holds its converted value
      and every position key not given stays `undefined`. */
  lemma {:induction false} PositioningToPXValues(positioning: Props, k: string)
    requires UniqueKeys(positioning)
    requires PositioningToPX(positioning).Ok?
    ensures HasKey(positioning, k) ==>
              ToPX(Field(positioning, k)) == Ok(Field(PositioningToPX(positioning).value, k))
    ensures !HasKey(positioning, k) && k in PositionKeys ==>
              Field(PositioningToPX(positioning).value, k) == Undefined
  {
    var converted := ToPXAll(positioning).value;
    var f := (v: JsValue) => if ToPX(v).Ok? then ToPX(v).value else Undefined;
    forall i | 0 <= i < |positioning| ensures converted[i] == (positioning[i].0, f(positioning[i].1)) {
    }
    GetOfMapped(positioning, converted, f, k);
    LastAndGetAgree(converted, k);
    if !HasKey(positioning, k) && k in PositionKeys {
      UndefinedPropsGet(PositionKeys, k);
    }
    if HasKey(positioning, k) {
      HasKeyAt(positioning, k);
      var i :| 0 <= i < |positioning| && positioning[i].0 == k;
      GetIsMember(positioning, k, positioning[i].1);
      assert ToPX(positioning[i].1).Ok?;
    }
  }
}
