/** `PrioritizedComponentManager`: chooses which splash, if any, to render.
    The tour and splash-lifecycle preferences and the location hash are
    parameters; each component's `priority()` is taken as a value. */
module PrioritizedComponentManagers {

  import opened Wrappers

  datatype ComponentRef = ComponentRef(id: string, priority: Option<int>)

  /** What `render` does: the component it creates, if any, and whether it
      marks a splash as shown. */
  datatype Rendering = Rendering(chosen: Option<ComponentRef>, markShown: bool)

  /** Whether `c` ranks strictly above `d` (a component without a priority
      ranks below every other). */
  predicate Above(c: ComponentRef, d: ComponentRef) {
    c.priority.Some? && (d.priority.None? || d.priority.value < c.priority.value)
  }

  /** The position of the head of the components that have a priority,
      stably sorted by descending priority: the first component of highest
      priority, or none when no component has a priority. */
  function Highest(refs: seq<ComponentRef>): (r: Option<nat>)
    ensures r.None? <==> forall k :: 0 <= k < |refs| ==> refs[k].priority.None?
    ensures r.Some? ==> r.value < |refs| && refs[r.value].priority.Some?
    ensures r.Some? ==> forall k :: 0 <= k < |refs| && refs[k].priority.Some? ==> refs[k].priority.value <= refs[r.value].priority.value
    ensures r.Some? ==> forall k :: 0 <= k < r.value ==> Above(refs[r.value], refs[k])
    decreases |refs|
  {
    if |refs| == 0 then None
    else
      var init := refs[..|refs| - 1];
      var last := refs[|refs| - 1];
      var best := Highest(init);
      assert forall k :: 0 <= k < |init| ==> init[k] == refs[k];
      if best.None? then
        if last.priority.Some? then Some(|refs| - 1) else None
      else if Above(last, refs[best.value]) then Some(|refs| - 1)
      else best
  }

  /** `render()`: nothing before the tour has ended, while the splash
      lifecycle forbids it, when no component has a priority, or when the
      location carries a hash; otherwise the first component of highest
      priority, after marking a splash as shown. */
  function Render(tourTerminated: bool, canShow: bool, refs: seq<ComponentRef>, hash: string): (r: Rendering)
    ensures r.markShown <==> r.chosen.Some?
    ensures r.chosen.Some? <==> tourTerminated && canShow && hash == "" && exists k :: 0 <= k < |refs| && refs[k].priority.Some?
    ensures r.chosen.Some? ==> exists m :: 0 <= m < |refs| && refs[m] == r.chosen.value && refs[m].priority.Some? &&
                                           (forall k :: 0 <= k < |refs| && refs[k].priority.Some? ==> refs[k].priority.value <= refs[m].priority.value) &&
                                           (forall k :: 0 <= k < m ==> Above(refs[m], refs[k]))
  {
    if !tourTerminated || !canShow then Rendering(None, false)
    else
      var best := Highest(refs);
      if best.None? || hash != "" then Rendering(None, false)
      else Rendering(Some(refs[best.value]), true)
  }

  /** A component that ranks no higher than the chosen one, added last,
      does not change the choice. */
  lemma LaterTieKeepsChoice(refs: seq<ComponentRef>, c: ComponentRef)
    requires Render(true, true, refs, "").chosen.Some?
    requires !Above(c, Render(true, true, refs, "").chosen.value)
    ensures Render(true, true, refs + [c], "") == Render(true, true, refs, "")
  {
    assert (refs + [c])[..|refs|] == refs;
  }

  /** Components without a priority never affect the choice. */
  lemma UnprioritisedIgnored(refs: seq<ComponentRef>, c: ComponentRef, tour: bool, canShow: bool, hash: string)
    requires c.priority.None?
    ensures Render(tour, canShow, refs + [c], hash).chosen == Render(tour, canShow, refs, hash).chosen
  {
    assert (refs + [c])[..|refs|] == refs;
  }
}
