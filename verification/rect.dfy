/** `Rect`: a DOM-style rectangle and its axis arithmetic. A rectangle is
    an object: the six box fields plus whatever else the constructor was
    given. */
module Rects {

  import opened Wrappers
  import opened Dicts
  import opened JsValues
  import JsStrings

  /** The fields every rectangle starts with, in declaration order. */
  const RectKeys: seq<string> := ["left", "top", "right", "bottom", "width", "height"]

  /** A segment on one axis. */
  datatype Line = Line(start: JsValue, end: JsValue, axis: JsValue)

  /** `new Rect(obj)`: the six fields set to `undefined`, then
      `Object.assign(this, obj)`; a string argument adds its characters
      under their indices. */
  function NewRect(obj: JsValue): (r: Props)
    ensures forall i :: 0 <= i < |RectKeys| ==> HasKey(r, RectKeys[i])
    ensures obj.Obj? && UniqueKeys(obj.props) ==>
              forall k :: Field(r, k) == if HasKey(obj.props, k) then Field(obj.props, k) else Undefined
    ensures obj.Str? ==>
              forall k :: Field(r, k) == if HasKey(IndexProps(obj.s), k) then Field(IndexProps(obj.s), k) else Undefined
    ensures obj.Str? ==> forall i :: 0 <= i < |obj.s| ==> Field(r, JsStrings.ToDecimal(i)) == Str([obj.s[i]])
    ensures !obj.Obj? && !obj.Str? ==> r == UndefinedProps(RectKeys)
    ensures UniqueKeys(r)
  {
    var init := UndefinedProps(RectKeys);
    var r := Assign(init, obj);
    assert UniqueKeys(init) by {
      UniqueKeysDistinct(init);
    }
    forall k ensures Field(init, k) == Undefined && (k in RectKeys ==> HasKey(init, k)) {
      UndefinedPropsGet(RectKeys, k);
    }
    forall i | 0 <= i < |RectKeys| ensures HasKey(r, RectKeys[i]) {
      var k := RectKeys[i];
      assert k in RectKeys;
      UndefinedPropsGet(RectKeys, k);
    }
    r
  }

  /** `rect.toLine(axis)`: (left, right) on "x", (top, bottom) on "y";
      any other axis throws. */
  function ToLine(rect: Props, axis: JsValue): (r: Result<Line>)
    ensures r.Err? <==> axis != Str("x") && axis != Str("y")
    ensures axis == Str("x") ==> r == Ok(Line(Field(rect, "left"), Field(rect, "right"), axis))
    ensures axis == Str("y") ==> r == Ok(Line(Field(rect, "top"), Field(rect, "bottom"), axis))
  {
    if axis == Str("x") then Ok(Line(Field(rect, "left"), Field(rect, "right"), axis))
    else if axis == Str("y") then Ok(Line(Field(rect, "top"), Field(rect, "bottom"), axis))
    else Err("Wrong axis: " + AxisText(axis))
  }

  /** The axis as string concatenation shows it (`String(axis)`; an
      object is taken as a plain one). */
  function AxisText(axis: JsValue): string {
    match axis
    case Undefined => "undefined"
    case Null => "null"
    case Bool(b) => if b then "true" else "false"
    case Num(n) => JsStrings.ToDecimal(n)
    case NaN => "NaN"
    case Str(s) => s
    case Obj(_) => "[object Object]"
  }

  /** `rect.adjustAxis(line)`: a null line or a null axis throws; on "x" a
      copy of the rectangle gets left and right from the line and
      `width = end - start`, on "y" top, bottom and `height`; any other
      axis throws. The receiver is not changed. */
  function AdjustAxis(rect: Props, line: Option<Line>): (r: Result<Props>)
    ensures r.Err? <==> line.None? || (line.value.axis != Str("x") && line.value.axis != Str("y"))
    ensures r.Ok? && line.value.axis == Str("x") ==>
              Field(r.value, "left") == line.value.start && Field(r.value, "right") == line.value.end &&
              Field(r.value, "width") == Minus(line.value.end, line.value.start)
    ensures r.Ok? && line.value.axis == Str("y") ==>
              Field(r.value, "top") == line.value.start && Field(r.value, "bottom") == line.value.end &&
              Field(r.value, "height") == Minus(line.value.end, line.value.start)
  {
    if line.None? then Err("Precondition (argument) for 'line' null")
    else if line.value.axis == Null then Err("Precondition (argument) for 'line.axis' null")
    else
      var l := line.value;
      var copy := NewRect(Obj(rect));
      if l.axis == Str("x") then
        Ok(SetSpan(copy, "left", "right", "width", l))
      else if l.axis == Str("y") then
        Ok(SetSpan(copy, "top", "bottom", "height", l))
      else Err("Invalid axis: " + AxisText(l.axis))
  }

  /** Adjusting an axis leaves every field of the other axis, and every
      other property, as the receiver had it. */
  lemma AdjustAxisFrame(rect: Props, line: Line, k: string)
    requires UniqueKeys(rect)
    requires AdjustAxis(rect, Some(line)).Ok?
    requires line.axis == Str("x") ==> k != "left" && k != "right" && k != "width"
    requires line.axis == Str("y") ==> k != "top" && k != "bottom" && k != "height"
    ensures Field(AdjustAxis(rect, Some(line)).value, k) == Field(NewRect(Obj(rect)), k)
    ensures HasKey(rect, k) ==> Field(AdjustAxis(rect, Some(line)).value, k) == Field(rect, k)
  {
  }

  /** The three writes for one axis: its start, its end and its size. */
  function SetSpan(copy: Props, lo: string, hi: string, size: string, l: Line): (r: Props)
    requires lo != hi && hi != size && lo != size
    ensures Field(r, lo) == l.start && Field(r, hi) == l.end && Field(r, size) == Minus(l.end, l.start)
    ensures forall k :: k != lo && k != hi && k != size ==> Field(r, k) == Field(copy, k)
  {
    Put(Put(Put(copy, lo, l.start), hi, l.end), size, Minus(l.end, l.start))
  }

  /** Reading back the adjusted axis gives the line that set it. */
  lemma AdjustThenToLine(rect: Props, line: Line)
    requires line.axis == Str("x") || line.axis == Str("y")
    ensures AdjustAxis(rect, Some(line)).Ok?
    ensures ToLine(AdjustAxis(rect, Some(line)).value, line.axis) == Ok(line)
  {
  }
}
