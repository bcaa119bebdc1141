/** `Dictionaries`: helpers over JSON-like dictionaries (values, key
    iteration, deep key sorting, dropping undefined properties, deep copy,
    building a dictionary from a list, counting keys). */
module Dictionaries {

  import opened Wrappers
  import opened Dicts
  import opened JsStrings
  import opened JsValues

  /** `values(dict)`: nothing for a falsy argument, the own values of an
      object in key order, and the characters of a non-empty string. */
  function ValuesOf(dict: JsValue): (r: seq<JsValue>)
    ensures !Truthy(dict) ==> r == []
    ensures dict.Obj? ==> |r| == |dict.props| && forall i :: 0 <= i < |r| ==> r[i] == dict.props[i].1
    ensures dict.Str? ==> |r| == |dict.s| && forall i :: 0 <= i < |r| ==> r[i] == Str([dict.s[i]])
  {
    match dict
    case Obj(ps) => Values(ps)
    case Str(s) => seq(|s|, i requires 0 <= i < |s| => Str([s[i]]))
    case _ => []
  }

  /** `forDict(dict, callback)`: a null dictionary or callback throws;
      otherwise the callback runs once per own key, in key order, and the
      result lists what each call returned. */
  function ForDict<T>(dict: Option<Props>, callback: Option<(string, JsValue) -> T>): (r: Result<seq<T>>)
    ensures r.Err? <==> dict.None? || callback.None?
    ensures r.Ok? ==> |r.value| == |dict.value|
    ensures r.Ok? ==> forall i :: 0 <= i < |dict.value| ==> r.value[i] == callback.value(dict.value[i].0, dict.value[i].1)
  {
    if dict.None? then Err("Precondition (argument) for 'dict' null")
    else if callback.None? then Err("Precondition (argument) for 'callback' null")
    else
      var d := dict.value;
      Ok(seq(|d|, i requires 0 <= i < |d| => callback.value(d[i].0, d[i].1)))
  }

  // ------------------------------------------------------------- key order

  /** Keys never decrease along the dictionary. */
  predicate SortedByKey(d: Props) {
    forall i, j :: 0 <= i < j < |d| ==> !StrLess(d[j].0, d[i].0)
  }

  /** Keys strictly increase along the dictionary. */
  predicate StrictlySortedByKey(d: Props) {
    forall i, j :: 0 <= i < j < |d| ==> StrLess(d[i].0, d[j].0)
  }

  /** Puts `e` before the first entry whose key is greater than its own. */
  function Insert(e: (string, JsValue), d: Props): (r: Props)
    ensures |r| == |d| + 1
    ensures multiset(r) == multiset(d) + multiset{e}
  {
    if |d| == 0 then [e]
    else if StrLess(e.0, d[0].0) then [e] + d
    else
      assert d == [d[0]] + d[1..];
      [d[0]] + Insert(e, d[1..])
  }

  /** No entry of `d` has a key below `key`. */
  predicate AllAtLeast(key: string, d: Props) {
    forall i :: 0 <= i < |d| ==> !StrLess(d[i].0, key)
  }

  /** Every entry of `d` has a key above `key`. */
  predicate AllAbove(key: string, d: Props) {
    forall i :: 0 <= i < |d| ==> StrLess(key, d[i].0)
  }

  lemma {:induction false} InsertBounds(key: string, e: (string, JsValue), d: Props)
    ensures AllAtLeast(key, d) && !StrLess(e.0, key) ==> AllAtLeast(key, Insert(e, d))
    ensures AllAbove(key, d) && StrLess(key, e.0) ==> AllAbove(key, Insert(e, d))
  {
    var r := Insert(e, d);
    forall i | 0 <= i < |r| ensures r[i] == e || r[i] in d {
      assert r[i] in multiset(r);
    }
  }

  lemma {:induction false} InsertSorted(e: (string, JsValue), d: Props)
    requires SortedByKey(d)
    ensures SortedByKey(Insert(e, d))
  {
    if |d| == 0 {
    } else if StrLess(e.0, d[0].0) {
      forall j | 0 <= j < |d| ensures !StrLess(d[j].0, e.0) {
        if StrLess(d[j].0, e.0) {
          StrLessTransitive(d[j].0, e.0, d[0].0);
          if j == 0 { StrLessIrreflexive(d[0].0); }
        }
      }
    } else {
      InsertSorted(e, d[1..]);
      InsertBounds(d[0].0, e, d[1..]);
      var r := Insert(e, d);
      assert AllAtLeast(d[0].0, Insert(e, d[1..]));
      assert r[1..] == Insert(e, d[1..]);
    }
  }

  lemma {:induction false} InsertStrict(e: (string, JsValue), d: Props)
    requires StrictlySortedByKey(d) && !HasKey(d, e.0)
    ensures StrictlySortedByKey(Insert(e, d))
  {
    if |d| == 0 {
    } else if StrLess(e.0, d[0].0) {
      forall j | 0 <= j < |d| ensures StrLess(e.0, d[j].0) {
        if j > 0 { StrLessTransitive(e.0, d[0].0, d[j].0); }
      }
    } else {
      assert d == [d[0]] + d[1..];
      assert d[0].0 != e.0;
      StrLessTotal(d[0].0, e.0);
      InsertStrict(e, d[1..]);
      InsertBounds(d[0].0, e, d[1..]);
      var r := Insert(e, d);
      assert AllAbove(d[0].0, Insert(e, d[1..]));
      assert r[1..] == Insert(e, d[1..]);
    }
  }

  lemma InsertStrictWhen(e: (string, JsValue), d: Props)
    ensures StrictlySortedByKey(d) && !HasKey(d, e.0) ==> StrictlySortedByKey(Insert(e, d))
  {
    if StrictlySortedByKey(d) && !HasKey(d, e.0) { InsertStrict(e, d); }
  }

  /** Sorts entries by key, as iterating `Object.keys(d).sort()` visits
      them; the order is the default string order of `Array.prototype.sort`. */
  function SortByKey(d: Props): (r: Props)
    ensures SortedByKey(r)
    ensures |r| == |d|
    ensures multiset(r) == multiset(d)
    ensures UniqueKeys(d) ==> StrictlySortedByKey(r)
  {
    if |d| == 0 then []
    else
      var rest := SortByKey(d[1..]);
      assert d == [d[0]] + d[1..];
      assert UniqueKeys(d) ==> !HasKey(rest, d[0].0) by {
        if UniqueKeys(d) && HasKey(rest, d[0].0) {
          HasKeyAt(rest, d[0].0);
          var i :| 0 <= i < |rest| && rest[i].0 == d[0].0;
          assert rest[i] in multiset(d[1..]);
          HasKeyAt(d[1..], d[0].0);
        }
      }
      InsertSorted(d[0], rest);
      InsertStrictWhen(d[0], rest);
      Insert(d[0], rest)
  }

  /** Strictly increasing keys are distinct. */
  lemma StrictlySortedIsUnique(d: Props)
    requires StrictlySortedByKey(d)
    ensures UniqueKeys(d)
  {
    forall i, j | 0 <= i < j < |d| ensures d[i].0 != d[j].0 {
      StrLessIrreflexive(d[i].0);
    }
    UniqueKeysDistinct(d);
  }

  /** Sorting by key changes the order of the entries and nothing else. */
  lemma {:induction false} SortByKeyKeepsEntries(d: Props, k: string)
    requires UniqueKeys(d)
    ensures UniqueKeys(SortByKey(d))
    ensures Get(SortByKey(d), k) == Get(d, k)
  {
    StrictlySortedIsUnique(SortByKey(d));
    PermutationSameGet(SortByKey(d), d, k);
  }

  // ------------------------------------------------------------------ sorted

  /** Every entry's value mapped through `Sorted`, keys and order unchanged. */
  function SortedValues(ps: Props): (r: Props)
    ensures |r| == |ps|
    ensures forall i :: 0 <= i < |ps| ==> r[i] == (ps[i].0, Sorted(ps[i].1))
    decreases Obj(ps), 0
  {
    seq(|ps|, i requires 0 <= i < |ps| => (ps[i].0, Sorted(ps[i].1)))
  }

  /** `sorted(dict)`: the same dictionary with its keys in sorted order at
      every depth; anything that is not an object is returned as is. */
  function Sorted(v: JsValue): (r: JsValue)
    ensures !v.Obj? ==> r == v
    ensures v.Obj? ==> r.Obj? && SortedByKey(r.props) && |r.props| == |v.props|
    decreases v, 1
  {
    match v
    case Obj(ps) => Obj(SortByKey(SortedValues(ps)))
    case _ => v
  }

  /** The keys of `SortedValues(ps)` are those of `ps`. */
  lemma SortedValuesKeys(ps: Props, k: string)
    ensures Get(SortedValues(ps), k) == if HasKey(ps, k) then Some(Sorted(Field(ps, k))) else None
    ensures UniqueKeys(ps) ==> UniqueKeys(SortedValues(ps))
  {
    if |ps| > 0 {
      SortedValuesKeys(ps[1..], k);
      assert SortedValues(ps)[1..] == SortedValues(ps[1..]);
      SortedValuesKeys(ps[1..], ps[0].0);
    }
  }

  /** One level of `sorted`: an object keeps exactly its keys, each value is
      itself sorted, and the keys come in strictly increasing order. */
  lemma {:induction false} SortedObject(ps: Props, k: string)
    requires UniqueKeys(ps)
    ensures StrictlySortedByKey(Sorted(Obj(ps)).props)
    ensures HasKey(Sorted(Obj(ps)).props, k) <==> HasKey(ps, k)
    ensures HasKey(ps, k) ==> Field(Sorted(Obj(ps)).props, k) == Sorted(Field(ps, k))
  {
    SortedValuesKeys(ps, k);
    SortByKeyKeepsEntries(SortedValues(ps), k);
  }

  /** Keys are sorted at every depth. */
  predicate DeeplySorted(v: JsValue) {
    match v
    case Obj(ps) => SortedByKey(ps) && forall i :: 0 <= i < |ps| ==> DeeplySorted(ps[i].1)
    case _ => true
  }

  lemma {:induction false} SortedIsDeeplySorted(v: JsValue)
    ensures DeeplySorted(Sorted(v))
    decreases v
  {
    if v.Obj? {
      var ps := v.props;
      var r := Sorted(v).props;
      forall i | 0 <= i < |r| ensures DeeplySorted(r[i].1) {
        assert r[i] in multiset(SortedValues(ps));
        var j :| 0 <= j < |ps| && SortedValues(ps)[j] == r[i];
        SortedIsDeeplySorted(ps[j].1);
      }
    }
  }

  // --------------------------------------------------- onlyDefinedProperties

  /** The entries whose value is not `undefined`, each value passed through
      `Sorted`. */
  function DefinedSortedValues(ps: Props): (r: Props)
    ensures UniqueKeys(ps) ==> forall k :: Get(r, k) == if HasKey(ps, k) && Field(ps, k) != Undefined then Some(Sorted(Field(ps, k))) else None
    ensures UniqueKeys(ps) ==> UniqueKeys(r)
  {
    if |ps| == 0 then []
    else if ps[0].1 == Undefined then DefinedSortedValues(ps[1..])
    else
      var r := [(ps[0].0, Sorted(ps[0].1))] + DefinedSortedValues(ps[1..]);
      assert r[1..] == DefinedSortedValues(ps[1..]);
      r
  }

  /** `onlyDefinedProperties(dict)`: the object's own `undefined` values are
      dropped and the rest passed through `sorted`; nested `undefined`
      values stay. Anything that is not an object is returned as is. */
  function OnlyDefinedProperties(v: JsValue): (r: JsValue)
    ensures !v.Obj? ==> r == v
    ensures v.Obj? ==> r.Obj? && SortedByKey(r.props)
    ensures v.Obj? ==> forall i :: 0 <= i < |r.props| ==> r.props[i].1 != Undefined
  {
    match v
    case Obj(ps) =>
      var r := SortByKey(DefinedSortedValues(ps));
      assert forall i :: 0 <= i < |r| ==> r[i].1 != Undefined by {
        forall i | 0 <= i < |r| ensures r[i].1 != Undefined {
          assert r[i] in multiset(DefinedSortedValues(ps));
          var d := DefinedSortedValues(ps);
          var j :| 0 <= j < |d| && d[j] == r[i];
          DefinedNotUndefined(ps, j);
        }
      }
      Obj(r)
    case _ => v
  }

  lemma DefinedNotUndefined(ps: Props, j: int)
    requires 0 <= j < |DefinedSortedValues(ps)|
    ensures DefinedSortedValues(ps)[j].1 != Undefined
  {
    if ps[0].1 == Undefined {
      DefinedNotUndefined(ps[1..], j);
    } else if j > 0 {
      DefinedNotUndefined(ps[1..], j - 1);
    } else {
      assert !ps[0].1.Obj? ==> Sorted(ps[0].1) == ps[0].1;
    }
  }

  /** A key survives exactly when its value is defined, and then holds the
      sorted value. */
  lemma {:induction false} OnlyDefinedPropertiesKeys(ps: Props, k: string)
    requires UniqueKeys(ps)
    ensures HasKey(OnlyDefinedProperties(Obj(ps)).props, k) <==> HasKey(ps, k) && Field(ps, k) != Undefined
    ensures HasKey(ps, k) && Field(ps, k) != Undefined ==>
              Field(OnlyDefinedProperties(Obj(ps)).props, k) == Sorted(Field(ps, k))
  {
    SortByKeyKeepsEntries(DefinedSortedValues(ps), k);
  }

  /** Only the top level is cleaned: an `undefined` one level down is kept. */
  lemma NestedUndefinedKept()
    ensures OnlyDefinedProperties(Obj([("a", Undefined), ("b", Obj([("c", Undefined)]))]))
            == Obj([("b", Obj([("c", Undefined)]))])
  {
    var inner := Obj([("c", Undefined)]);
    assert SortedValues([("c", Undefined)]) == [("c", Undefined)];
    assert Sorted(inner) == inner;
    var ps := [("a", Undefined), ("b", inner)];
    assert ps[1..] == [("b", inner)];
    assert [("b", inner)][1..] == [];
    assert DefinedSortedValues([("b", inner)]) == [("b", inner)];
    assert DefinedSortedValues(ps) == [("b", inner)];
    assert SortByKey([("b", inner)]) == [("b", inner)];
  }

  // ------------------------------------------------------------------ copyOf

  function CopyValues(ps: Props): (r: Props)
    ensures |r| == |ps|
    ensures forall i :: 0 <= i < |ps| ==> r[i] == (ps[i].0, CopyOf(ps[i].1))
    decreases Obj(ps), 0
  {
    seq(|ps|, i requires 0 <= i < |ps| => (ps[i].0, CopyOf(ps[i].1)))
  }

  /** `copyOf(dict)`: a fresh object per object, built key by key;
      anything else is returned as is. */
  function CopyOf(v: JsValue): (r: JsValue)
    ensures !v.Obj? ==> r == v
    ensures v.Obj? ==> r.Obj? && UniqueKeys(r.props)
    decreases v, 1
  {
    match v
    case Obj(ps) => Obj(PutAll([], CopyValues(ps)))
    case _ => v
  }

  /** A deep copy of a well-formed value is structurally equal to it. */
  lemma {:induction false} CopyOfIsEqual(v: JsValue)
    requires WellFormed(v)
    ensures CopyOf(v) == v
    decreases v
  {
    if v.Obj? {
      var ps := v.props;
      forall i | 0 <= i < |ps| ensures CopyOf(ps[i].1) == ps[i].1 {
        CopyOfIsEqual(ps[i].1);
      }
      assert CopyValues(ps) == ps;
      PutAllFresh(ps);
    }
  }

  // ------------------------------------------------------------------ toDict

  /** `toDict(values, converter)`: each value stored under
      `converter(value)`, in order, so that when two values share a key the
      later one wins. */
  function ToDict<V>(values: seq<V>, converter: V -> string): (r: Dict<string, V>)
    ensures UniqueKeys(r)
    decreases |values|
  {
    if |values| == 0 then []
    else Put(ToDict(values[..|values| - 1], converter), converter(values[|values| - 1]), values[|values| - 1])
  }

  /** The keys of `toDict` are exactly the converted values. */
  lemma {:induction false} ToDictKeys<V>(values: seq<V>, converter: V -> string, k: string)
    ensures HasKey(ToDict(values, converter), k) <==> exists i :: 0 <= i < |values| && converter(values[i]) == k
    decreases |values|
  {
    if |values| > 0 {
      var init := values[..|values| - 1];
      var v := values[|values| - 1];
      ToDictKeys(init, converter, k);
      assert HasKey(ToDict(values, converter), k) <==> converter(v) == k || HasKey(ToDict(init, converter), k);
      assert (exists i :: 0 <= i < |values| && converter(values[i]) == k)
             <==> converter(v) == k || exists i :: 0 <= i < |init| && converter(init[i]) == k by {
        if exists i :: 0 <= i < |values| && converter(values[i]) == k {
          var i :| 0 <= i < |values| && converter(values[i]) == k;
          if i < |init| { assert init[i] == values[i]; }
        }
        if exists i :: 0 <= i < |init| && converter(init[i]) == k {
          var i :| 0 <= i < |init| && converter(init[i]) == k;
          assert values[i] == init[i];
        }
      }
    }
  }

  /** A value whose key no later value repeats is the one stored. */
  lemma {:induction false} ToDictLastWins<V>(values: seq<V>, converter: V -> string, i: int)
    requires 0 <= i < |values|
    requires forall j :: i < j < |values| ==> converter(values[j]) != converter(values[i])
    ensures Get(ToDict(values, converter), converter(values[i])) == Some(values[i])
    decreases |values|
  {
    if i < |values| - 1 {
      var init := values[..|values| - 1];
      assert init[i] == values[i];
      forall j | i < j < |init| ensures converter(init[j]) != converter(init[i]) {
        assert init[j] == values[j];
      }
      ToDictLastWins(init, converter, i);
    }
  }

  /** `countOf(dict)`: the number of own keys, 0 for null or undefined. */
  function CountOf(dict: Option<Props>): (r: nat)
    ensures dict.None? ==> r == 0
    ensures dict.Some? ==> r == |Keys(dict.value)|
  {
    if dict.None? then 0 else |dict.value|
  }

  /** `countOf` agrees with the number of values `values` lists. */
  lemma CountOfIsValuesCount(ps: Props)
    ensures CountOf(Some(ps)) == |ValuesOf(Obj(ps))|
  {
  }
}
