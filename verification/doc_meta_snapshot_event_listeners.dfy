/** `DocMetaSnapshotEventListeners.createDeduplicatedListener`: a listener
    that forwards only the mutations that are news to it. Its comparison
    index is state that lives as long as the returned listener; here it is
    threaded through explicitly. `DocMetaComparisonIndex` is not part of
    this model: it is taken to map each fingerprint to the uuid of the
    document info last put under it. `UUIDs.compare` is a parameter. */
module DocMetaSnapshotEventListeners {

  import opened Wrappers
  import opened MetadataTypes
  import opened SnapshotEvents

  type Index = map<string, Option<string>>

  type Compare = (Option<string>, Option<string>) -> int

  type Mutation = DocMetaMutation<DocInfo>

  /** Whether one mutation is forwarded, given the index as it stands. */
  predicate Accepts(index: Index, m: Mutation, compare: Compare) {
    var fp := m.doc.fingerprint;
    match m.mutationType
    case Created => fp !in index
    case Updated => fp !in index || compare(index[fp], m.doc.uuid) < 0
    case Deleted => fp in index
  }

  /** The index after one mutation: a forwarded creation or update records
      the document's uuid, a forwarded deletion removes the entry, and a
      dropped mutation changes nothing. */
  function Step(index: Index, m: Mutation, compare: Compare): (r: Index)
    ensures !Accepts(index, m, compare) ==> r == index
    ensures Accepts(index, m, compare) && m.mutationType != Deleted ==> r == index[m.doc.fingerprint := m.doc.uuid]
    ensures Accepts(index, m, compare) && m.mutationType == Deleted ==> r == index - {m.doc.fingerprint}
  {
    if !Accepts(index, m, compare) then index
    else if m.mutationType == Deleted then index - {m.doc.fingerprint}
    else index[m.doc.fingerprint := m.doc.uuid]
  }

  /** `xs` is `ys` with some elements left out, order kept. */
  predicate Subsequence<T(==)>(xs: seq<T>, ys: seq<T>)
    decreases |ys|
  {
    |xs| == 0 || (|ys| > 0 && if xs[0] == ys[0] then Subsequence(xs[1..], ys[1..]) else Subsequence(xs, ys[1..]))
  }

  /** The loop over an event's mutations: the index after them and the
      accepted mutations, in input order. */
  function Filter(index: Index, ms: seq<Mutation>, compare: Compare): (r: (Index, seq<Mutation>))
    ensures Subsequence(r.1, ms)
    decreases |ms|
  {
    if |ms| == 0 then (index, [])
    else
      var rest := Filter(Step(index, ms[0], compare), ms[1..], compare);
      if Accepts(index, ms[0], compare) then (rest.0, [ms[0]] + rest.1)
      else
        SubsequenceSkip(rest.1, ms);
        rest
  }

  lemma SubsequenceSkip<T>(xs: seq<T>, ys: seq<T>)
    requires |ys| > 0 && Subsequence(xs, ys[1..])
    ensures Subsequence(xs, ys)
    decreases |ys|, 0
  {
    if |xs| > 0 && xs[0] == ys[0] {
      SubsequenceDrop(xs, ys[1..]);
    }
  }

  lemma SubsequenceDrop<T>(xs: seq<T>, ys: seq<T>)
    requires |xs| > 0 && Subsequence(xs, ys)
    ensures Subsequence(xs[1..], ys)
    decreases |ys|, 1
  {
    if xs[0] != ys[0] {
      SubsequenceDrop(xs, ys[1..]);
      SubsequenceSkip(xs[1..], ys);
    } else {
      SubsequenceSkip(xs[1..], ys);
    }
  }

  /** One call of the returned listener: the index afterwards and the event
      passed to the output listener, if any. The forwarded event has the
      input's consistency and progress and only the accepted mutations; it
      carries no batch. */
  function Listen(index: Index, e: SnapshotEvent<DocInfo>, compare: Compare): (r: (Index, Option<SnapshotEvent<DocInfo>>))
    ensures r.0 == Filter(index, e.mutations, compare).0
    ensures r.1.None? <==> |Filter(index, e.mutations, compare).1| == 0
    ensures r.1.Some? ==> r.1.value == SnapshotEvent(e.consistency, e.progress, Filter(index, e.mutations, compare).1, None)
  {
    var (next, accepted) := Filter(index, e.mutations, compare);
    if |accepted| > 0 then (next, Some(SnapshotEvent(e.consistency, e.progress, accepted, None)))
    else (next, None)
  }

  /** Successive calls of the same listener: the index carries over from
      one event to the next. */
  function Session(index: Index, events: seq<SnapshotEvent<DocInfo>>, compare: Compare): (r: (Index, seq<SnapshotEvent<DocInfo>>))
    ensures |r.1| <= |events|
    decreases |events|
  {
    if |events| == 0 then (index, [])
    else
      var (next, out) := Listen(index, events[0], compare);
      var rest := Session(next, events[1..], compare);
      (rest.0, (if out.Some? then [out.value] else []) + rest.1)
  }

  /** Every mutation of the events, in order. */
  function AllMutations<D>(events: seq<SnapshotEvent<D>>): seq<DocMetaMutation<D>>
    decreases |events|
  {
    if |events| == 0 then [] else events[0].mutations + AllMutations(events[1..])
  }

  /** Splitting the mutations over two calls is the same as one call with
      all of them: the index persists. */
  lemma {:induction false} FilterAppend(index: Index, a: seq<Mutation>, b: seq<Mutation>, compare: Compare)
    ensures var (i1, x) := Filter(index, a, compare);
            var (i2, y) := Filter(i1, b, compare);
            Filter(index, a + b, compare) == (i2, x + y)
    decreases |a|
  {
    if |a| == 0 {
      assert a + b == b;
      assert Filter(index, a, compare) == (index, []);
      assert [] + Filter(index, b, compare).1 == Filter(index, b, compare).1;
    } else {
      assert (a + b)[0] == a[0] && (a + b)[1..] == a[1..] + b;
      var next := Step(index, a[0], compare);
      FilterAppend(next, a[1..], b, compare);
      var rest := Filter(next, a[1..], compare);
      var after := Filter(rest.0, b, compare);
      assert Filter(next, a[1..] + b, compare) == (after.0, rest.1 + after.1);
      if Accepts(index, a[0], compare) {
        assert Filter(index, a, compare) == (rest.0, [a[0]] + rest.1);
        assert [a[0]] + rest.1 + after.1 == [a[0]] + (rest.1 + after.1);
      } else {
        assert Filter(index, a, compare) == rest;
      }
    }
  }

  /** Over a session, the forwarded mutations are exactly those one call
      with every mutation would accept, and the index ends the same. */
  lemma {:induction false} SessionForwardsFilter(index: Index, events: seq<SnapshotEvent<DocInfo>>, compare: Compare)
    ensures Session(index, events, compare).0 == Filter(index, AllMutations(events), compare).0
    ensures AllMutations(Session(index, events, compare).1) == Filter(index, AllMutations(events), compare).1
    decreases |events|
  {
    if |events| > 0 {
      var (next, out) := Listen(index, events[0], compare);
      SessionForwardsFilter(next, events[1..], compare);
      FilterAppend(index, events[0].mutations, AllMutations(events[1..]), compare);
      var rest := Session(next, events[1..], compare);
      if out.Some? {
        assert AllMutations([out.value] + rest.1) == out.value.mutations + AllMutations(rest.1) by {
          assert ([out.value] + rest.1)[1..] == rest.1;
        }
      } else {
        assert ([] + rest.1) == rest.1;
      }
    }
  }

  /** A document created once is not forwarded when created again, in a
      later event or the same one, until it has been deleted. */
  lemma CreatedTwiceForwardedOnce(index: Index, m: Mutation, compare: Compare)
    requires m.mutationType == Created && m.doc.fingerprint !in index
    ensures Filter(index, [m, m], compare).1 == [m]
    ensures Filter(index, [m, m], compare).0 == index[m.doc.fingerprint := m.doc.uuid]
  {
    var i1 := Step(index, m, compare);
    assert !Accepts(i1, m, compare);
    assert [m][1..] == [];
    assert Filter(i1, [m], compare) == (i1, []) by {
      assert Filter(i1, [m], compare) == Filter(Step(i1, m, compare), [], compare);
    }
    assert [m, m][1..] == [m];
    assert Filter(index, [m, m], compare) == (i1, [m] + []);
  }

  /** A deletion is forwarded only for a document the listener has seen,
      and it forgets the document, so the next creation is forwarded. */
  lemma DeleteThenCreate(index: Index, info: DocInfo, compare: Compare)
    requires info.fingerprint in index
    ensures Filter(index, [DocMetaMutation(info, Deleted), DocMetaMutation(info, Created)], compare).1 ==
              [DocMetaMutation(info, Deleted), DocMetaMutation(info, Created)]
  {
    var ms := [DocMetaMutation(info, Deleted), DocMetaMutation(info, Created)];
    assert ms[1..] == [DocMetaMutation(info, Created)];
    assert ms[1..][1..] == [];
  }
}
