/** `utils.js`: sibling tuples, the bounding box of several rectangles,
    key iteration, the class-name check, pixel parsing and the delegator. */
module Utils {

  import opened Wrappers
  import opened Dicts
  import opened JsStrings
  import opened JsValues
  import Dictionaries

  // ------------------------------------------------------ createSiblingTuples

  datatype SiblingTuple = SiblingTuple(curr: JsValue, prev: JsValue, next: JsValue)

  /** `Optional.of(x).getOrElse(null)`: null and undefined both become null. */
  function OrNull(x: JsValue): (r: JsValue)
    ensures IsPresent(x) ==> r == x
    ensures !IsPresent(x) ==> r == Null
  {
    if IsPresent(x) then x else Null
  }

  /** `createSiblingTuples(arr)`: one tuple per element; reading past either
      end yields undefined, which becomes null. */
  function CreateSiblingTuples(arr: seq<JsValue>): (r: seq<SiblingTuple>)
    ensures |r| == |arr|
    ensures forall i :: 0 <= i < |arr| ==> r[i].curr == arr[i]
    ensures forall i :: 0 < i < |arr| ==> r[i].prev == OrNull(arr[i - 1])
    ensures forall i :: 0 <= i < |arr| - 1 ==> r[i].next == OrNull(arr[i + 1])
    ensures |arr| > 0 ==> r[0].prev == Null && r[|arr| - 1].next == Null
  {
    seq(|arr|, i requires 0 <= i < |arr| => TupleAt(arr, i))
  }

  function TupleAt(arr: seq<JsValue>, i: nat): SiblingTuple
    requires i < |arr|
  {
    SiblingTuple(arr[i],
                 if i > 0 then OrNull(arr[i - 1]) else Null,
                 if i + 1 < |arr| then OrNull(arr[i + 1]) else Null)
  }

  /** Neighbouring tuples point at each other: the `next` of one is the
      `curr` of the following one, and back, whenever that element is
      present. */
  lemma SiblingTuplesLink(arr: seq<JsValue>, i: int)
    requires 0 <= i < |arr| - 1
    requires IsPresent(arr[i]) && IsPresent(arr[i + 1])
    ensures CreateSiblingTuples(arr)[i].next == CreateSiblingTuples(arr)[i + 1].curr
    ensures CreateSiblingTuples(arr)[i + 1].prev == CreateSiblingTuples(arr)[i].curr
  {
  }

  // ------------------------------------------- getBoundingClientRectFromBCRs

  datatype Box = Box(left: int, top: int, bottom: int, right: int)

  function MinBy(rects: seq<Box>, f: Box -> int): (m: int)
    requires |rects| > 0
    ensures forall i :: 0 <= i < |rects| ==> m <= f(rects[i])
    ensures exists i :: 0 <= i < |rects| && m == f(rects[i])
  {
    if |rects| == 1 then f(rects[0])
    else
      var m := MinBy(rects[1..], f);
      assert forall i :: 1 <= i < |rects| ==> rects[i] == rects[1..][i - 1];
      if f(rects[0]) <= m then f(rects[0]) else m
  }

  function MaxBy(rects: seq<Box>, f: Box -> int): (m: int)
    requires |rects| > 0
    ensures forall i :: 0 <= i < |rects| ==> m >= f(rects[i])
    ensures exists i :: 0 <= i < |rects| && m == f(rects[i])
  {
    if |rects| == 1 then f(rects[0])
    else
      var m := MaxBy(rects[1..], f);
      assert forall i :: 1 <= i < |rects| ==> rects[i] == rects[1..][i - 1];
      if f(rects[0]) >= m then f(rects[0]) else m
  }

  /** `getBoundingClientRectFromBCRs(rects)`: the smallest box holding every
      rectangle. `reduce` without an initial value throws on an empty list. */
  function BoundingBox(rects: seq<Box>): (r: Result<Box>)
    ensures r.Err? <==> |rects| == 0
    ensures r.Ok? ==> forall i :: 0 <= i < |rects| ==>
              r.value.left <= rects[i].left && r.value.top <= rects[i].top &&
              r.value.right >= rects[i].right && r.value.bottom >= rects[i].bottom
    ensures r.Ok? ==> (exists i :: 0 <= i < |rects| && r.value.left == rects[i].left) &&
                      (exists i :: 0 <= i < |rects| && r.value.top == rects[i].top) &&
                      (exists i :: 0 <= i < |rects| && r.value.right == rects[i].right) &&
                      (exists i :: 0 <= i < |rects| && r.value.bottom == rects[i].bottom)
  {
    if |rects| == 0 then Err("TypeError: Reduce of empty array with no initial value")
    else
      Ok(Box(MinBy(rects, (b: Box) => b.left), MinBy(rects, (b: Box) => b.top),
                 MaxBy(rects, (b: Box) => b.bottom), MaxBy(rects, (b: Box) => b.right)))
  }

  /** The bounding box of a single rectangle is that rectangle. */
  lemma BoundingBoxOfOne(b: Box)
    ensures BoundingBox([b]) == Ok(b)
  {
    var r := BoundingBox([b]).value;
    assert r.left == b.left && r.top == b.top && r.right == b.right && r.bottom == b.bottom;
  }

  // ------------------------------------------------------------------ forDict

  /** `forDict(dict, callback)`: a null dict or callback throws; otherwise
      the callback is called with every own key and the value read back
      under it, in key order. The result lists what the calls returned. */
  function ForDict<T>(dict: Option<Props>, callback: Option<(string, JsValue) -> T>): (r: Result<seq<T>>)
    ensures r.Err? <==> dict.None? || callback.None?
    ensures dict.None? ==> r == Err("Precondition (argument) for 'dict' null")
    ensures r.Ok? ==> |r.value| == |dict.value|
    ensures r.Ok? ==> forall i :: 0 <= i < |dict.value| ==>
              r.value[i] == callback.value(dict.value[i].0, Field(dict.value, dict.value[i].0))
  {
    if dict.None? then Err("Precondition (argument) for 'dict' null")
    else if callback.None? then Err("Precondition (argument) for 'callback' null")
    else
      var d := dict.value;
      Ok(seq(|d|, i requires 0 <= i < |d| => callback.value(d[i].0, Field(d, d[i].0))))
  }

  /** With distinct keys the calls are exactly those `Dictionaries.forDict`
      makes. */
  lemma ForDictAgrees<T>(d: Props, callback: Option<(string, JsValue) -> T>)
    requires UniqueKeys(d)
    ensures ForDict(Some(d), callback) == Dictionaries.ForDict(Some(d), callback)
  {
    forall i | 0 <= i < |d| ensures Field(d, d[i].0) == d[i].1 {
      GetIsMember(d, d[i].0, d[i].1);
    }
    if callback.Some? {
      assert ForDict(Some(d), callback).value == Dictionaries.ForDict(Some(d), callback).value;
    }
  }

  // ---------------------------------------------------- Elements.requireClass

  /** `requireClass(element, clazz)`: throws when the class attribute is
      missing or empty, or when `clazz` is not a substring of it. */
  function RequireClass(classValue: Option<string>, clazz: string): (r: Result<()>)
    ensures r.Ok? <==> classValue.Some? && classValue.value != "" &&
                       exists i: nat :: OccursAt(classValue.value, clazz, i)
  {
    if classValue.None? || classValue.value == "" || IndexOf(classValue.value, clazz) == -1 then
      Err("Element does not have the proper class: " + clazz)
    else Ok(())
  }

  // ------------------------------------------------------ Styles.parsePixels

  /** `parsePixels(value)`: the first "px" is removed and the rest read
      with `parseInt`; `None` is NaN. */
  function ParsePixels(value: string): (r: Option<int>)
    ensures IndexOf(value, "px") == -1 ==> r == ParseInt(value)
    ensures IndexOf(value, "px") >= 0 ==>
              var i := IndexOf(value, "px");
              r == ParseInt(value[..i] + value[i + 2..])
  {
    var cut := ReplaceFirst(value, "px", "");
    var i := IndexOf(value, "px");
    assert i >= 0 ==> cut == value[..i] + value[i + 2..] by {
      if i >= 0 {
        assert value[..i] + "" == value[..i];
      }
    }
    ParseInt(cut)
  }

  lemma DecimalHasNoP(n: int, i: int)
    requires 0 <= i < |ToDecimal(n)|
    ensures ToDecimal(n)[i] != 'p'
  {
    if n < 0 && i > 0 {
      assert ToDecimal(n)[i] == NatToDecimal(-n)[i - 1];
    }
  }

  /** A pixel length written as `String(n) + "px"` parses back to `n`. */
  lemma {:induction false} ParsePixelsOfPx(n: int)
    ensures ParsePixels(ToDecimal(n) + "px") == Some(n)
  {
    var ds := ToDecimal(n);
    var s := ds + "px";
    assert OccursAt(s, "px", |ds|) by {
      assert s[|ds|..|ds| + 2] == "px";
    }
    var i := IndexOf(s, "px");
    assert i == |ds| by {
      if i < |ds| {
        assert s[i] == ds[i];
        DecimalHasNoP(n, i);
      }
    }
    assert ReplaceFirst(s, "px", "") == ds by {
      assert s[..|ds|] == ds;
      assert s[|ds| + 2..] == "";
    }
    ParseIntOfDecimal(n, "");
    assert ds + "" == ds;
  }

  // --------------------------------------------------------- Delegator.apply

  /** A delegate, described by the names of the functions it has. */
  type Delegate = set<string>

  datatype Call = Call(delegate: nat, name: string, args: seq<JsValue>)

  /** `Delegator.apply(name, ...args)`: every delegate in order is called
      with the remaining arguments; the first delegate without that function
      stops the loop: reading `apply` off the undefined it finds throws a
      TypeError. Returns the calls made and the error. */
  function Apply(delegates: seq<Delegate>, name: string, args: seq<JsValue>): (r: (seq<Call>, Option<string>))
    ensures r.1.None? <==> forall i :: 0 <= i < |delegates| ==> name in delegates[i]
    ensures r.1.None? ==> |r.0| == |delegates|
    ensures |r.0| <= |delegates|
    ensures forall i :: 0 <= i < |r.0| ==> r.0[i] == Call(i, name, args) && name in delegates[i]
    ensures r.1.Some? ==> |r.0| < |delegates| && name !in delegates[|r.0|]
    decreases |delegates|
  {
    if |delegates| == 0 then ([], None)
    else
      var last := |delegates| - 1;
      var (calls, err) := Apply(delegates[..last], name, args);
      assert forall i :: 0 <= i < last ==> delegates[..last][i] == delegates[i];
      if err.Some? then (calls, err)
      else if name in delegates[last] then (calls + [Call(last, name, args)], None)
      else (calls, Some("TypeError: Cannot read property 'apply' of undefined"))
  }
}
