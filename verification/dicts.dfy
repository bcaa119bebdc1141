/** Insertion-ordered dictionaries, the way a JavaScript object keeps its own
    enumerable properties: a list of key/value pairs in insertion order.
    Assigning to an existing key keeps its position; a new key goes last. */
module Dicts {

  import opened Wrappers

  type Dict<K, V> = seq<(K, V)>

  /** `Object.keys`, in iteration order. */
  function Keys<K, V>(d: Dict<K, V>): (ks: seq<K>)
    ensures |ks| == |d|
    ensures forall i :: 0 <= i < |d| ==> ks[i] == d[i].0
  {
    if |d| == 0 then [] else [d[0].0] + Keys(d[1..])
  }

  /** `Object.values`, in iteration order. */
  function Values<K, V>(d: Dict<K, V>): (vs: seq<V>)
    ensures |vs| == |d|
    ensures forall i :: 0 <= i < |d| ==> vs[i] == d[i].1
  {
    if |d| == 0 then [] else [d[0].1] + Values(d[1..])
  }

  /** `d[k]`: the first entry under `k`, absent when `k` is not an own key. */
  function Get<K(==), V>(d: Dict<K, V>, k: K): Option<V>
  {
    if |d| == 0 then None
    else if d[0].0 == k then Some(d[0].1)
    else Get(d[1..], k)
  }

  predicate HasKey<K(==), V>(d: Dict<K, V>, k: K) {
    Get(d, k).Some?
  }

  /** No key occurs twice: every dictionary a JavaScript object can be. */
  predicate UniqueKeys<K(==), V>(d: Dict<K, V>) {
    |d| == 0 || (!HasKey(d[1..], d[0].0) && UniqueKeys(d[1..]))
  }

  lemma HasKeyIsKeyMember<K, V>(d: Dict<K, V>, k: K)
    ensures HasKey(d, k) <==> k in Keys(d)
  {
    if |d| > 0 {
      assert Keys(d) == [d[0].0] + Keys(d[1..]);
    }
  }

  /** `d[k] = v`: an existing key is updated in place, a new key is appended. */
  function Put<K(==,!new), V>(d: Dict<K, V>, k: K, v: V): (r: Dict<K, V>)
    ensures Get(r, k) == Some(v)
    ensures forall k' :: k' != k ==> Get(r, k') == Get(d, k')
    ensures HasKey(d, k) ==> Keys(r) == Keys(d)
    ensures !HasKey(d, k) ==> r == d + [(k, v)]
    ensures UniqueKeys(d) ==> UniqueKeys(r)
  {
    if |d| == 0 then [(k, v)]
    else if d[0].0 == k then [(k, v)] + d[1..]
    else
      var r := [d[0]] + Put(d[1..], k, v);
      assert r[1..] == Put(d[1..], k, v);
      r
  }

  /** `delete d[k]`: drops the key, keeps every other entry in order. */
  function Remove<K(==,!new), V>(d: Dict<K, V>, k: K): (r: Dict<K, V>)
    ensures !HasKey(r, k)
    ensures forall k' :: k' != k ==> Get(r, k') == Get(d, k')
    ensures UniqueKeys(d) ==> UniqueKeys(r)
    ensures |r| <= |d|
  {
    if |d| == 0 then []
    else if d[0].0 == k then Remove(d[1..], k)
    else
      var r := [d[0]] + Remove(d[1..], k);
      assert r[1..] == Remove(d[1..], k);
      r
  }

  /** `Object.assign(d, source)`: every entry of `source`, in order, is
      written into `d`; on a repeated key in `source` the later one wins. */
  function PutAll<K(==,!new), V>(d: Dict<K, V>, source: Dict<K, V>): (r: Dict<K, V>)
    ensures forall k :: Get(r, k) == if Last(source, k).Some? then Last(source, k) else Get(d, k)
    ensures UniqueKeys(d) ==> UniqueKeys(r)
    decreases |source|
  {
    if |source| == 0 then d
    else Put(PutAll(d, source[..|source| - 1]), source[|source| - 1].0, source[|source| - 1].1)
  }

  /** The value of the LAST entry with key `k`: what a sequence of
      assignments leaves under `k`. */
  function Last<K(==), V>(source: Dict<K, V>, k: K): Option<V>
    decreases |source|
  {
    if |source| == 0 then None
    else if source[|source| - 1].0 == k then Some(source[|source| - 1].1)
    else Last(source[..|source| - 1], k)
  }

  /** With distinct keys the last entry under a key is the only one. */
  lemma {:induction false} LastIsGet<K, V>(source: Dict<K, V>, k: K)
    requires UniqueKeys(source)
    ensures Last(source, k) == Get(source, k)
    decreases |source|
  {
    if |source| > 0 {
      var tail := source[1..];
      LastIsGet(tail, k);
      if |tail| > 0 {
        assert tail[..|tail| - 1] == source[1..|source| - 1];
        assert source[..|source| - 1][1..] == source[1..|source| - 1];
        UniqueInit(source);
        LastIsGet(source[..|source| - 1], k);
        LastOfCons(source, k);
      }
    }
  }

  lemma {:induction false} UniqueInit<K, V>(d: Dict<K, V>)
    requires UniqueKeys(d) && |d| > 0
    ensures UniqueKeys(d[..|d| - 1])
    decreases |d|
  {
    if |d| > 1 {
      var init := d[..|d| - 1];
      var tail := d[1..];
      assert init[0] == d[0];
      assert init[1..] == tail[..|tail| - 1];
      UniqueInit(tail);
      GetPrefix(tail, d[0].0, |tail| - 1);
      assert UniqueKeys(init[1..]) && !HasKey(init[1..], init[0].0);
    }
  }

  lemma GetPrefix<K, V>(d: Dict<K, V>, k: K, n: nat)
    requires n <= |d|
    ensures HasKey(d[..n], k) ==> HasKey(d, k)
  {
    if n > 0 {
      assert d[..n][1..] == d[1..][..n - 1];
      GetPrefix(d[1..], k, n - 1);
    }
  }

  lemma LastOfCons<K, V>(d: Dict<K, V>, k: K)
    requires |d| > 1
    ensures Last(d, k) == if Last(d[1..], k).Some? then Last(d[1..], k) else if d[0].0 == k then Some(d[0].1) else None
    decreases |d|
  {
    var init := d[..|d| - 1];
    assert d[1..][..|d[1..]| - 1] == init[1..];
    if |d| > 2 {
      LastOfCons(init, k);
    } else {
      assert init == [d[0]];
    }
  }

  /** Building a dictionary from entries whose keys are already distinct
      reproduces them unchanged, in order. */
  lemma {:induction false} PutAllFresh<K(!new), V>(source: Dict<K, V>)
    requires UniqueKeys(source)
    ensures PutAll([], source) == source
    decreases |source|
  {
    if |source| > 0 {
      var init := source[..|source| - 1];
      var last := source[|source| - 1];
      assert PutAll([], source) == Put(PutAll([], init), last.0, last.1);
      assert PutAll([], init) == init by {
        UniqueInit(source);
        PutAllFresh(init);
      }
      assert Put(init, last.0, last.1) == init + [(last.0, last.1)] by {
        LastNotInInit(source);
      }
      assert init + [(last.0, last.1)] == source;
    }
  }

  lemma LastNotInInit<K, V>(d: Dict<K, V>)
    requires UniqueKeys(d) && |d| > 0
    ensures !HasKey(d[..|d| - 1], d[|d| - 1].0)
  {
    if |d| > 1 {
      assert d[..|d| - 1][1..] == d[1..][..|d| - 2];
      LastNotInInit(d[1..]);
      GetPrefix(d[1..], d[0].0, |d| - 1);
      assert d[1..][|d| - 2] == d[|d| - 1];
      LastInDict(d[1..]);
    }
  }

  lemma LastInDict<K, V>(d: Dict<K, V>)
    requires |d| > 0
    ensures HasKey(d, d[|d| - 1].0)
  {
    if |d| > 1 {
      assert d[1..][|d| - 2] == d[|d| - 1];
      LastInDict(d[1..]);
    }
  }

  /** The recursive definition of distinct keys says that no two positions
      share a key. */
  lemma UniqueKeysDistinct<K, V>(d: Dict<K, V>)
    ensures UniqueKeys(d) <==> forall i, j :: 0 <= i < j < |d| ==> d[i].0 != d[j].0
  {
    if |d| > 0 {
      UniqueKeysDistinct(d[1..]);
      HasKeyAt(d[1..], d[0].0);
      assert forall j :: 1 <= j < |d| ==> d[1..][j - 1] == d[j];
    }
  }

  lemma HasKeyAt<K, V>(d: Dict<K, V>, k: K)
    ensures HasKey(d, k) <==> exists i :: 0 <= i < |d| && d[i].0 == k
  {
    if |d| > 0 {
      HasKeyAt(d[1..], k);
      assert forall i :: 1 <= i < |d| ==> d[1..][i - 1] == d[i];
      if HasKey(d[1..], k) {
        var i :| 0 <= i < |d[1..]| && d[1..][i].0 == k;
        assert d[i + 1].0 == k;
      }
    }
  }

  /** With distinct keys, `d[k]` is `v` exactly when the pair is an entry. */
  lemma GetIsMember<K, V>(d: Dict<K, V>, k: K, v: V)
    requires UniqueKeys(d)
    ensures Get(d, k) == Some(v) <==> (k, v) in d
  {
    if |d| > 0 {
      GetIsMember(d[1..], k, v);
    }
  }

  /** Two dictionaries with distinct keys and the same entries, in any
      order, agree on every key. */
  lemma PermutationSameGet<K, V>(d1: Dict<K, V>, d2: Dict<K, V>, k: K)
    requires UniqueKeys(d1) && UniqueKeys(d2)
    requires multiset(d1) == multiset(d2)
    ensures Get(d1, k) == Get(d2, k)
  {
    if Get(d1, k).Some? {
      GetIsMember(d1, k, Get(d1, k).value);
      assert (k, Get(d1, k).value) in multiset(d2);
      GetIsMember(d2, k, Get(d1, k).value);
    } else if Get(d2, k).Some? {
      GetIsMember(d2, k, Get(d2, k).value);
      assert (k, Get(d2, k).value) in multiset(d1);
      GetIsMember(d1, k, Get(d2, k).value);
    }
  }

  /** Mapping every value through `f` maps what `Get` finds, and keeps the
      keys. */
  lemma GetOfMapped<K, V, W>(a: Dict<K, V>, b: Dict<K, W>, f: V -> W, k: K)
    requires |a| == |b|
    requires forall i :: 0 <= i < |a| ==> b[i] == (a[i].0, f(a[i].1))
    ensures Get(b, k) == if Get(a, k).Some? then Some(f(Get(a, k).value)) else None
    ensures UniqueKeys(a) <==> UniqueKeys(b)
  {
    if |a| > 0 {
      GetOfMapped(a[1..], b[1..], f, k);
      GetOfMapped(a[1..], b[1..], f, a[0].0);
    }
  }

  /** `rest` preceded by the entry `k: v`, as an object literal lists it. */
  function Cons<K(==,!new), V>(k: K, v: V, rest: Dict<K, V>): (r: Dict<K, V>)
    ensures forall k' :: Get(r, k') == if k' == k then Some(v) else Get(rest, k')
  {
    var r := [(k, v)] + rest;
    assert r[1..] == rest;
    r
  }

  /** Every value passed through `f`, keys and order kept. */
  function MapValues<K, V, W>(d: Dict<K, V>, f: V -> W): (r: Dict<K, W>)
    ensures |r| == |d|
    ensures forall i :: 0 <= i < |d| ==> r[i] == (d[i].0, f(d[i].1))
  {
    if |d| == 0 then [] else [(d[0].0, f(d[0].1))] + MapValues(d[1..], f)
  }

  /** A second assignment to the same key overwrites the first in place. */
  lemma {:induction false} PutTwice<K(!new), V>(d: Dict<K, V>, k: K, a: V, b: V)
    ensures Put(Put(d, k, a), k, b) == Put(d, k, b)
    decreases |d|
  {
    if |d| > 0 && d[0].0 != k {
      PutTwice(d[1..], k, a, b);
      var once := Put(d, k, a);
      assert once[0] == d[0] && once[1..] == Put(d[1..], k, a);
    }
  }

  /** Writing back the value a key already has changes nothing. */
  lemma {:induction false} PutSame<K(!new), V>(d: Dict<K, V>, k: K)
    requires HasKey(d, k)
    ensures Put(d, k, Get(d, k).value) == d
    decreases |d|
  {
    if d[0].0 != k {
      PutSame(d[1..], k);
    }
  }

  /** Deleting a key that is not there changes nothing. */
  lemma {:induction false} RemoveAbsent<K(!new), V>(d: Dict<K, V>, k: K)
    requires !HasKey(d, k)
    ensures Remove(d, k) == d
    decreases |d|
  {
    if |d| > 0 {
      RemoveAbsent(d[1..], k);
    }
  }

  /** Adding a new key and deleting it again gives back the dictionary. */
  lemma {:induction false} RemoveAfterPut<K(!new), V>(d: Dict<K, V>, k: K, v: V)
    requires !HasKey(d, k)
    ensures Remove(Put(d, k, v), k) == d
    decreases |d|
  {
    if |d| == 0 {
      assert Put(d, k, v) == [(k, v)];
      assert [(k, v)][1..] == [];
    } else {
      RemoveAfterPut(d[1..], k, v);
      var p := Put(d, k, v);
      assert p[0] == d[0] && p[1..] == Put(d[1..], k, v);
    }
  }

  // ---------------------------------------------------------------- sequences

  /** The position of the first `x` in `xs`. */
  function FirstIndex<T(==)>(xs: seq<T>, x: T): (r: nat)
    requires x in xs
    ensures r < |xs| && xs[r] == x && forall j :: 0 <= j < r ==> xs[j] != x
  {
    if xs[0] == x then 0 else 1 + FirstIndex(xs[1..], x)
  }

  lemma {:induction false} FirstIndexSnoc<T>(xs: seq<T>, y: T, x: T)
    requires x in xs || x == y
    ensures x in xs ==> FirstIndex(xs + [y], x) == FirstIndex(xs, x)
    ensures x !in xs ==> FirstIndex(xs + [y], x) == |xs|
    decreases |xs|
  {
    if |xs| > 0 && xs[0] != x {
      assert (xs + [y])[1..] == xs[1..] + [y];
      FirstIndexSnoc(xs[1..], y, x);
    }
  }
}
