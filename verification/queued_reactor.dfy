/** `QueuedReactor`: a reactor that holds the values dispatched under an
    event name until the first listener for that name arrives, then
    delivers them to it. The delegate reactor is modelled by its listener
    lists and a log of the deliveries it made. */
module QueuedReactors {

  import opened Wrappers
  import Dicts

  /** A registered listener; `once` marks the listener `once()` installs,
      which removes itself after its first value. */
  datatype Listener = Listener(id: nat, once: bool)

  datatype Delivery<V> = Delivery(listener: Listener, name: string, value: V)

  datatype Reactor<V> = Reactor(
    listeners: map<string, seq<Listener>>,
    queue: map<string, seq<V>>,
    log: seq<Delivery<V>>)

  /** A fresh reactor: no listeners, nothing queued, nothing delivered. */
  function NewReactor<V>(): (r: Reactor<V>)
    ensures Valid(r) && |r.log| == 0
    ensures forall n :: !HasListeners(r, n) && !HasEnqueued(r, n)
  {
    Reactor(map[], map[], [])
  }

  function ListenersOf<V>(st: Reactor<V>, name: string): seq<Listener> {
    if name in st.listeners then st.listeners[name] else []
  }

  /** The delegate's `hasEventListeners(name)`. */
  predicate HasListeners<V>(st: Reactor<V>, name: string) {
    |ListenersOf(st, name)| > 0
  }

  /** Values are only ever held for a name that has no listener, and a
      held queue is never empty. */
  predicate Valid<V>(st: Reactor<V>) {
    forall name :: name in st.queue ==> |st.queue[name]| > 0 && !HasListeners(st, name)
  }

  function WithoutOnce(ls: seq<Listener>): (r: seq<Listener>)
    ensures forall l :: l in r <==> l in ls && !l.once
  {
    if |ls| == 0 then []
    else if ls[0].once then WithoutOnce(ls[1..])
    else [ls[0]] + WithoutOnce(ls[1..])
  }

  /** The delegate's `dispatchEvent(name, value)`: every listener
      registered for the name receives the value, in registration order;
      a `once` listener then removes itself. */
  function DelegateDispatch<V>(st: Reactor<V>, name: string, value: V): (r: Reactor<V>)
    ensures r.queue == st.queue
    ensures |r.log| == |st.log| + |ListenersOf(st, name)|
    ensures r.log[..|st.log|] == st.log
    ensures forall i :: 0 <= i < |ListenersOf(st, name)| ==>
              r.log[|st.log| + i] == Delivery(ListenersOf(st, name)[i], name, value)
    ensures ListenersOf(r, name) == WithoutOnce(ListenersOf(st, name))
    ensures forall n :: n != name ==> ListenersOf(r, n) == ListenersOf(st, n)
  {
    var ls := ListenersOf(st, name);
    var delivered := seq(|ls|, i requires 0 <= i < |ls| => Delivery(ls[i], name, value));
    Reactor(if name in st.listeners then st.listeners[name := WithoutOnce(ls)] else st.listeners,
            st.queue, st.log + delivered)
  }

  /** `enqueue(name, value)`: appends the value to the name's queue,
      creating the queue when there is none. */
  function Enqueue<V>(st: Reactor<V>, name: string, value: V): (r: Reactor<V>)
    ensures name in r.queue && r.queue[name] == (if name in st.queue then st.queue[name] else []) + [value]
    ensures forall n :: n != name ==> (n in r.queue <==> n in st.queue) && (n in r.queue ==> r.queue[n] == st.queue[n])
    ensures r.listeners == st.listeners && r.log == st.log
  {
    st.(queue := st.queue[name := (if name in st.queue then st.queue[name] else []) + [value]])
  }

  /** `clearEnqueued(name)`: the values held for the name, which are then
      forgotten; nothing when none are held. */
  function ClearEnqueued<V>(st: Reactor<V>, name: string): (r: (seq<V>, Reactor<V>))
    ensures r.0 == if name in st.queue then st.queue[name] else []
    ensures r.1.queue == st.queue - {name}
    ensures r.1.listeners == st.listeners && r.1.log == st.log
  {
    if name in st.queue then (st.queue[name], st.(queue := st.queue - {name}))
    else ([], st)
  }

  /** `hasEnqueued(name)`: some value is held for the name. */
  predicate HasEnqueued<V>(st: Reactor<V>, name: string) {
    name in st.queue && |st.queue[name]| > 0
  }

  /** `dispatchEvent(name, value)`: delivered at once when the name has a
      listener, held otherwise. */
  function DispatchEvent<V>(st: Reactor<V>, name: string, value: V): (r: Reactor<V>)
    ensures HasListeners(st, name) ==> r == DelegateDispatch(st, name, value)
    ensures !HasListeners(st, name) ==> r == Enqueue(st, name, value)
  {
    if HasListeners(st, name) then DelegateDispatch(st, name, value)
    else Enqueue(st, name, value)
  }

  /** The delegate dispatching each of `values` in turn. */
  function DispatchAll<V>(st: Reactor<V>, name: string, values: seq<V>): (r: Reactor<V>)
    ensures r.queue == st.queue
    ensures forall n :: n != name ==> ListenersOf(r, n) == ListenersOf(st, n)
    decreases |values|
  {
    if |values| == 0 then st
    else DispatchAll(DelegateDispatch(st, name, values[0]), name, values[1..])
  }

  /** `addEventListener(name, listener)`: registers the listener, then
      takes everything held for the name and dispatches it through the
      delegate, in the order it was dispatched. */
  function AddEventListener<V>(st: Reactor<V>, name: string, listener: Listener): (r: Reactor<V>)
    ensures !HasEnqueued(r, name)
    ensures HasEnqueued(st, name) ==> name !in r.queue
    ensures forall n :: n != name ==> (n in r.queue <==> n in st.queue) && (n in r.queue ==> r.queue[n] == st.queue[n])
    ensures forall n :: n != name ==> ListenersOf(r, n) == ListenersOf(st, n)
    ensures !HasEnqueued(st, name) ==>
              ListenersOf(r, name) == ListenersOf(st, name) + [listener] && r.log == st.log && r.queue == st.queue
  {
    var registered := st.(listeners := st.listeners[name := ListenersOf(st, name) + [listener]]);
    if HasEnqueued(registered, name) then
      var (data, cleared) := ClearEnqueued(registered, name);
      DispatchAll(cleared, name, data)
    else
      registered
  }

  /** `removeEventListener(name, listener)`: removes the listener's first
      registration for the name. */
  function RemoveEventListener<V>(st: Reactor<V>, name: string, listener: Listener): (r: Reactor<V>)
    ensures r.queue == st.queue && r.log == st.log
    ensures forall n :: n != name ==> ListenersOf(r, n) == ListenersOf(st, n)
    ensures listener !in ListenersOf(st, name) ==> ListenersOf(r, name) == ListenersOf(st, name)
    ensures listener in ListenersOf(st, name) ==>
              var ls := ListenersOf(st, name);
              var i := Dicts.FirstIndex(ls, listener);
              ListenersOf(r, name) == ls[..i] + ls[i + 1..]
  {
    if name !in st.listeners then st
    else if listener in st.listeners[name] then
      RemoveFirstAt(st.listeners[name], listener);
      st.(listeners := st.listeners[name := RemoveFirst(st.listeners[name], listener)])
    else
      st.(listeners := st.listeners[name := RemoveFirst(st.listeners[name], listener)])
  }

  /** `ls` without the first occurrence of `l`, the others in order. */
  function RemoveFirst(ls: seq<Listener>, l: Listener): (r: seq<Listener>)
    ensures l !in ls ==> r == ls
    ensures l in ls ==> |r| == |ls| - 1
  {
    if |ls| == 0 then []
    else if ls[0] == l then ls[1..]
    else [ls[0]] + RemoveFirst(ls[1..], l)
  }

  /** What `RemoveFirst` leaves out is exactly the first occurrence. */
  lemma {:induction false} RemoveFirstAt(ls: seq<Listener>, l: Listener)
    requires l in ls
    ensures var i := Dicts.FirstIndex(ls, l); RemoveFirst(ls, l) == ls[..i] + ls[i + 1..]
    decreases |ls|
  {
    if ls[0] != l {
      assert l in ls[1..] by { assert ls == [ls[0]] + ls[1..]; }
      RemoveFirstAt(ls[1..], l);
      var i := Dicts.FirstIndex(ls[1..], l);
      assert Dicts.FirstIndex(ls, l) == i + 1;
      assert ls[..i + 1] == [ls[0]] + ls[1..][..i];
      assert ls[i + 2..] == ls[1..][i + 1..];
    }
  }

  /** `once(name)`: installs a listener that keeps only its first value
      and then removes itself. */
  function Once<V>(st: Reactor<V>, name: string, id: nat): (r: Reactor<V>)
    ensures !HasEnqueued(r, name)
  {
    AddEventListener(st, name, Listener(id, true))
  }

  /** The value a `once` listener resolved with: the first one delivered
      to it, if any. */
  function Resolved<V>(log: seq<Delivery<V>>, l: Listener): (r: Option<V>)
    ensures r.Some? <==> exists i :: 0 <= i < |log| && log[i].listener == l
  {
    if |log| == 0 then None
    else if log[0].listener == l then Some(log[0].value)
    else Resolved(log[1..], l)
  }

  // -------------------------------------------------------------- properties

  /** Every operation keeps the reactor valid. */
  lemma {:induction false} OperationsKeepValid<V>(st: Reactor<V>, name: string, value: V, l: Listener)
    requires Valid(st)
    ensures Valid(DispatchEvent(st, name, value))
    ensures Valid(AddEventListener(st, name, l))
    ensures Valid(RemoveEventListener(st, name, l))
  {
    var d := DispatchEvent(st, name, value);
    forall n | n in d.queue ensures |d.queue[n]| > 0 && !HasListeners(d, n) {
      if n != name {
        if HasListeners(st, name) {
          assert ListenersOf(d, n) == ListenersOf(st, n);
        }
      }
    }
    var a := AddEventListener(st, name, l);
    forall n | n in a.queue ensures |a.queue[n]| > 0 && !HasListeners(a, n) {
      assert n != name;
    }
    var r := RemoveEventListener(st, name, l);
    forall n | n in r.queue ensures |r.queue[n]| > 0 && !HasListeners(r, n) {
      if n == name {
        assert !HasListeners(st, name);
      }
    }
  }

  /** Dispatching under a name nobody listens to holds the value at the end
      of that name's queue and delivers nothing. */
  lemma DispatchWithoutListenerQueues<V>(st: Reactor<V>, name: string, value: V)
    requires !HasListeners(st, name)
    ensures DispatchEvent(st, name, value).queue[name] == (if name in st.queue then st.queue[name] else []) + [value]
    ensures DispatchEvent(st, name, value).log == st.log
  {
  }

  /** Dispatching under a name with listeners delivers to each of them, in
      order, and holds nothing. */
  lemma DispatchWithListenerDelivers<V>(st: Reactor<V>, name: string, value: V)
    requires HasListeners(st, name)
    ensures DispatchEvent(st, name, value).queue == st.queue
    ensures DispatchEvent(st, name, value).log ==
              st.log + seq(|ListenersOf(st, name)|, i requires 0 <= i < |ListenersOf(st, name)| => Delivery(ListenersOf(st, name)[i], name, value))
  {
    var r := DispatchEvent(st, name, value);
    var ls := ListenersOf(st, name);
    assert r.log == st.log + seq(|ls|, i requires 0 <= i < |ls| => Delivery(ls[i], name, value));
  }

  /** With one plain listener, the delegate delivers every value to it, in
      order, and the listener stays. */
  lemma {:induction false} DispatchAllToPlain<V>(st: Reactor<V>, name: string, values: seq<V>, l: Listener)
    requires !l.once && ListenersOf(st, name) == [l]
    ensures DispatchAll(st, name, values).log == st.log + seq(|values|, i requires 0 <= i < |values| => Delivery(l, name, values[i]))
    ensures ListenersOf(DispatchAll(st, name, values), name) == [l]
    decreases |values|
  {
    if |values| > 0 {
      var next := DelegateDispatch(st, name, values[0]);
      DelegateToPlain(st, name, values[0], l);
      DispatchAllToPlain(next, name, values[1..], l);
      var first := [Delivery(l, name, values[0])];
      var rest := seq(|values| - 1, i requires 0 <= i < |values| - 1 => Delivery(l, name, values[1..][i]));
      assert seq(|values|, i requires 0 <= i < |values| => Delivery(l, name, values[i])) == first + rest;
      LogAssociates(st.log, first, rest);
    }
  }

  /** One dispatch to a single plain listener delivers to it and keeps it. */
  lemma DelegateToPlain<V>(st: Reactor<V>, name: string, value: V, l: Listener)
    requires !l.once && ListenersOf(st, name) == [l]
    ensures DelegateDispatch(st, name, value).log == st.log + [Delivery(l, name, value)]
    ensures ListenersOf(DelegateDispatch(st, name, value), name) == [l]
  {
    assert [l][1..] == [];
    assert WithoutOnce([l]) == [l] + WithoutOnce([]);
  }

  lemma LogAssociates<V>(a: seq<Delivery<V>>, b: seq<Delivery<V>>, c: seq<Delivery<V>>)
    ensures (a + b) + c == a + (b + c)
  {
  }

  /** With no listener, the delegate delivers nothing. */
  lemma {:induction false} DispatchAllToNobody<V>(st: Reactor<V>, name: string, values: seq<V>)
    requires ListenersOf(st, name) == []
    ensures DispatchAll(st, name, values).log == st.log
    ensures ListenersOf(DispatchAll(st, name, values), name) == []
    decreases |values|
  {
    if |values| > 0 {
      DispatchAllToNobody(DelegateDispatch(st, name, values[0]), name, values[1..]);
    }
  }

  /** The first listener of a name receives everything held for it, in
      dispatch order, exactly once: the queue is gone afterwards. */
  lemma AddListenerDrains<V>(st: Reactor<V>, name: string, l: Listener)
    requires Valid(st) && !l.once && name in st.queue
    ensures var q := st.queue[name];
            AddEventListener(st, name, l).log == st.log + seq(|q|, i requires 0 <= i < |q| => Delivery(l, name, q[i]))
    ensures name !in AddEventListener(st, name, l).queue
    ensures ListenersOf(AddEventListener(st, name, l), name) == [l]
  {
    var registered := st.(listeners := st.listeners[name := ListenersOf(st, name) + [l]]);
    var (data, cleared) := ClearEnqueued(registered, name);
    assert ListenersOf(cleared, name) == [l];
    DispatchAllToPlain(cleared, name, data, l);
  }

  /** `once` on a name with held values resolves with the first of them;
      the listener is gone before the rest are dispatched, so no one
      receives them. */
  lemma OnceTakesFirstQueued<V>(st: Reactor<V>, name: string, id: nat)
    requires Valid(st) && name in st.queue
    requires forall i :: 0 <= i < |st.log| ==> st.log[i].listener != Listener(id, true)
    ensures Once(st, name, id).log == st.log + [Delivery(Listener(id, true), name, st.queue[name][0])]
    ensures Resolved(Once(st, name, id).log, Listener(id, true)) == Some(st.queue[name][0])
    ensures !HasListeners(Once(st, name, id), name)
  {
    var l := Listener(id, true);
    var registered := st.(listeners := st.listeners[name := ListenersOf(st, name) + [l]]);
    var (data, cleared) := ClearEnqueued(registered, name);
    assert ListenersOf(cleared, name) == [l];
    var first := DelegateDispatch(cleared, name, data[0]);
    assert [l][1..] == [];
    assert WithoutOnce([l]) == WithoutOnce([]);
    assert first.log == st.log + [Delivery(l, name, data[0])];
    assert ListenersOf(first, name) == [];
    DispatchAllToNobody(first, name, data[1..]);
    ResolvedAfter(st.log, Delivery(l, name, data[0]));
  }

  /** A `once` listener added when nothing is held resolves with the next
      value dispatched under its name, and is then removed. */
  lemma OnceTakesNextDispatch<V>(st: Reactor<V>, name: string, id: nat, value: V)
    requires Valid(st) && name !in st.queue && !HasListeners(st, name)
    requires forall i :: 0 <= i < |st.log| ==> st.log[i].listener != Listener(id, true)
    ensures DispatchEvent(Once(st, name, id), name, value).log == st.log + [Delivery(Listener(id, true), name, value)]
    ensures Resolved(DispatchEvent(Once(st, name, id), name, value).log, Listener(id, true)) == Some(value)
    ensures !HasListeners(DispatchEvent(Once(st, name, id), name, value), name)
  {
    var l := Listener(id, true);
    var o := Once(st, name, id);
    assert ListenersOf(o, name) == [l];
    assert o.log == st.log;
    assert [l][1..] == [];
    assert WithoutOnce([l]) == WithoutOnce([]);
    ResolvedAfter(st.log, Delivery(l, name, value));
  }

  lemma ResolvedAfter<V>(log: seq<Delivery<V>>, d: Delivery<V>)
    requires forall i :: 0 <= i < |log| ==> log[i].listener != d.listener
    ensures Resolved(log + [d], d.listener) == Some(d.value)
  {
    if |log| > 0 {
      assert (log + [d])[1..] == log[1..] + [d];
      ResolvedAfter(log[1..], d);
    }
  }
}
