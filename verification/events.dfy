/** `Event`: a named list of callbacks. */
module Events {

  datatype Event<C> = Event(name: string, callbacks: seq<C>)

  /** `new Event(name)`: the given name and no callbacks. */
  function NewEvent<C>(name: string): (e: Event<C>)
    ensures e.name == name && |e.callbacks| == 0
  {
    Event(name, [])
  }

  /** `registerCallback(callback)`: pushes the callback at the end. */
  function RegisterCallback<C>(e: Event<C>, callback: C): (r: Event<C>)
    ensures r.name == e.name
    ensures |r.callbacks| == |e.callbacks| + 1
    ensures r.callbacks[..|e.callbacks|] == e.callbacks && r.callbacks[|e.callbacks|] == callback
  {
    e.(callbacks := e.callbacks + [callback])
  }

  /** `getCallbacks()`: the callbacks as registered. */
  function GetCallbacks<C>(e: Event<C>): (r: seq<C>)
    ensures r == e.callbacks
  {
    e.callbacks
  }

  /** Registering `cs` one after the other. */
  function RegisterAll<C>(e: Event<C>, cs: seq<C>): Event<C>
    decreases |cs|
  {
    if |cs| == 0 then e else RegisterAll(RegisterCallback(e, cs[0]), cs[1..])
  }

  /** Registering callbacks on a new event and reading them back gives them
      in registration order, duplicates included. */
  lemma {:induction false} RegisterAllOrder<C>(e: Event<C>, cs: seq<C>)
    ensures RegisterAll(e, cs).name == e.name
    ensures GetCallbacks(RegisterAll(e, cs)) == e.callbacks + cs
    decreases |cs|
  {
    if |cs| > 0 {
      RegisterAllOrder(RegisterCallback(e, cs[0]), cs[1..]);
      assert e.callbacks + [cs[0]] + cs[1..] == e.callbacks + cs;
    }
  }

  /** Registering the same callback twice keeps both entries. */
  lemma RegisterTwiceKeepsBoth<C>(name: string, c: C)
    ensures GetCallbacks(RegisterCallback(RegisterCallback(NewEvent(name), c), c)) == [c, c]
  {
  }
}
