/** `DockLayout`: the initial store of a dock layout, which records the
    width of each fixed panel. */
module DockLayouts {

  import opened Wrappers
  import opened Dicts

  /** `DockPanel`: its `type` is "fixed" or "flexible"; `width` may be
      absent. */
  datatype DockPanel = DockPanel(id: string, panelType: string, width: Option<int>)

  datatype FixedPanelState = FixedPanelState(id: string, width: int)

  /** The width a fixed panel starts with when it gives none. */
  const DefaultWidth: int := 400

  predicate IsFixed(p: DockPanel) {
    p.panelType == "fixed"
  }

  /** `docPanel.width || 400`: an absent or zero width takes the default. */
  function InitialWidth(p: DockPanel): (w: int)
    ensures w != 0
    ensures p.width.Some? && p.width.value != 0 ==> w == p.width.value
    ensures p.width.None? || p.width.value == 0 ==> w == DefaultWidth
  {
    if p.width.Some? && p.width.value != 0 then p.width.value else DefaultWidth
  }

  /** `createInitialStore(dockPanels)`: one state per fixed panel id, the
      last fixed panel with an id deciding its width; other panels are not
      recorded. */
  function CreateInitialStore(panels: seq<DockPanel>): (r: Dict<string, FixedPanelState>)
    ensures UniqueKeys(r)
    ensures forall i :: 0 <= i < |r| ==> r[i].1.id == r[i].0 && r[i].1.width != 0
    ensures forall i :: 0 <= i < |panels| && IsFixed(panels[i]) &&
                        (forall j :: i < j < |panels| && IsFixed(panels[j]) ==> panels[j].id != panels[i].id)
              ==> Get(r, panels[i].id) == Some(FixedPanelState(panels[i].id, InitialWidth(panels[i])))
    decreases |panels|
  {
    if |panels| == 0 then []
    else
      var init := panels[..|panels| - 1];
      var last := panels[|panels| - 1];
      var before := CreateInitialStore(init);
      assert forall i :: 0 <= i < |init| ==> init[i] == panels[i];
      if IsFixed(last) then
        var r := Put(before, last.id, FixedPanelState(last.id, InitialWidth(last)));
        PutEntries(before, last.id, FixedPanelState(last.id, InitialWidth(last)));
        r
      else before
  }

  /** The store has a state exactly for the ids of the fixed panels. */
  lemma {:induction false} StoreKeys(panels: seq<DockPanel>, k: string)
    ensures HasKey(CreateInitialStore(panels), k) <==> exists i :: 0 <= i < |panels| && IsFixed(panels[i]) && panels[i].id == k
    decreases |panels|
  {
    if |panels| > 0 {
      var init := panels[..|panels| - 1];
      var last := panels[|panels| - 1];
      StoreKeys(init, k);
      if exists i :: 0 <= i < |init| && IsFixed(init[i]) && init[i].id == k {
        var i :| 0 <= i < |init| && IsFixed(init[i]) && init[i].id == k;
        assert panels[i] == init[i];
      }
      if exists i :: 0 <= i < |panels| && IsFixed(panels[i]) && panels[i].id == k {
        var i :| 0 <= i < |panels| && IsFixed(panels[i]) && panels[i].id == k;
        if i < |init| {
          assert init[i] == panels[i];
        }
      }
    }
  }

  /** Every entry of `Put(d, k, v)` is an entry of `d` or the new one. */
  lemma PutEntries<V>(d: Dict<string, V>, k: string, v: V)
    ensures forall i :: 0 <= i < |Put(d, k, v)| ==> Put(d, k, v)[i] == (k, v) || Put(d, k, v)[i] in d
  {
    if |d| > 0 && d[0].0 != k {
      PutEntries(d[1..], k, v);
      assert Put(d, k, v) == [d[0]] + Put(d[1..], k, v);
    }
  }

  /** Panels other than fixed ones do not affect the store. */
  lemma OnlyFixedPanelsCount(panels: seq<DockPanel>, p: DockPanel)
    requires !IsFixed(p)
    ensures CreateInitialStore(panels + [p]) == CreateInitialStore(panels)
  {
    assert (panels + [p])[..|panels|] == panels;
  }
}
