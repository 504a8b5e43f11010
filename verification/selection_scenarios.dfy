/**
 * Concrete runs of the selection engine, and round trips a caller of
 * StrokesState can rely on.
 */
module SelectionScenarios {
  import opened Options
  import opened Geometry
  import opened Strokes
  import opened SelectionRules
  import opened SelectionComp

  /** The unit box with lower corner (x, y). */
  function UnitBox(x: real, y: real): (r: Aabb)
    ensures WellFormed(r) && Extents(r) == Vec2(1.0, 1.0)
  {
    Aabb(Vec2(x, y), Vec2(x + 1.0, y + 1.0))
  }

  /** The selector of the swap scenario: it holds the second stroke and misses the first. */
  function SwapSelector(): Aabb {
    Aabb(Vec2(9.0, 9.0), Vec2(12.0, 12.0))
  }

  /** The first stroke of the swap scenario, at the origin. */
  function Near(): Stroke {
    Stroke(Shape, UnitBox(0.0, 0.0), [])
  }

  /** The second stroke of the swap scenario, at (10, 10). */
  function Far(): Stroke {
    Stroke(Shape, UnitBox(10.0, 10.0), [])
  }

  /**
   * Two visible shape strokes, `Near` selected and `Far` not. The swap
   * selector takes `Far` and drops `Near`: the number of selected strokes
   * stays one, while the union of their bounds changes.
   */
  lemma SwapKeepsCountButMovesBounds(strokes: map<Key, Stroke>, sc0: map<Key, bool>,
                                     render: map<Key, RenderComponent>, trash: map<Key, bool>, a: Key, b: Key)
    requires a != b && strokes == map[a := Near(), b := Far()] && sc0 == map[a := true, b := false]
    requires !Hidden(render, trash, a) && !Hidden(render, trash, b)
    ensures SelectorPass(sc0, strokes, render, trash, SwapSelector(), None) == map[a := false, b := true]
    ensures SelectedKeys(sc0) == {a}
    ensures SelectedKeys(map[a := false, b := true]) == {b}
    ensures GenBounds(strokes, {b}) != GenBounds(strokes, {a})
  {
    var sc1 := SelectorPass(sc0, strokes, render, trash, SwapSelector(), None);
    assert sc1 == map[a := false, b := true];
    assert SelectedKeys(sc0) == {a};
    assert SelectedKeys(sc1) == {b};
    GenBoundsCovers(strokes, {b}, b);
    GenBoundsCovers(strokes, {a}, a);
    GenBoundsLeast(strokes, {a}, UnitBox(0.0, 0.0));
  }

  /** The state of the swap scenario: `Near` and `Far` inserted, `Near` selected. */
  method SwapState() returns (state: StrokesState, a: Key, b: Key)
    ensures fresh(state)
    ensures a != b && state.strokes == map[a := Near(), b := Far()]
    ensures state.selectionComponents == map[a := true, b := false]
    ensures !Hidden(state.renderComponents, state.trashComponents, a)
    ensures !Hidden(state.renderComponents, state.trashComponents, b)
    ensures state.BoundsConsistent()
  {
    state := new StrokesState();
    a := state.InsertStroke(Near());
    b := state.InsertStroke(Far());
    state.SetSelected(a, true);
  }

  /**
   * The swap scenario run through `update_selection_for_selector` as
   * written: it reports no change, and the selection bounds it keeps are
   * not those of the selected stroke.
   */
  method StaleBoundsAfterSwap() returns (changed: bool, consistent: bool)
    ensures !changed && !consistent
  {
    var state, a, b := SwapState();
    SwapKeepsCountButMovesBounds(state.strokes, state.selectionComponents, state.renderComponents,
                                 state.trashComponents, a, b);
    ghost var order;
    changed, order := state.UpdateSelectionForSelector(Selector(Some(SwapSelector())), None);
    consistent := state.BoundsConsistent();
  }

  /** The same scenario through the membership-based variant: the change is reported and the bounds follow. */
  method FreshBoundsAfterSwap() returns (changed: bool, consistent: bool)
    ensures changed && consistent
  {
    var state, a, b := SwapState();
    SwapKeepsCountButMovesBounds(state.strokes, state.selectionComponents, state.renderComponents,
                                 state.trashComponents, a, b);
    ghost var order;
    changed, order := state.UpdateSelectionForSelectorByMembership(Selector(Some(SwapSelector())), None);
    consistent := state.BoundsConsistent();
  }

  /** Translating the selection by `v` and then by `-v` restores strokes, render images and selection bounds. */
  method TranslateRoundTrip(state: StrokesState, v: Vec2)
    modifies state
    ensures state.strokes == old(state.strokes)
    ensures state.renderComponents == old(state.renderComponents)
    ensures state.selectionBounds == old(state.selectionBounds)
    ensures state.selectionComponents == old(state.selectionComponents)
  {
    state.TranslateSelection(v);
    state.TranslateSelection(Neg(v));
    TranslatedStrokesInverse(old(state.strokes), state.selectionComponents, v);
    TranslatedRenderInverse(old(state.renderComponents), old(state.strokes), state.selectionComponents, v);
    if old(state.selectionBounds).Some? {
      TranslateInverse(old(state.selectionBounds).value, v);
    }
  }
}
