/**
 * The strokes state with its component tables, and the selection methods of
 * selection_comp.rs as imperative methods over it. Every scan over a table
 * is a sequential loop that visits the keys in an unspecified order.
 */
module SelectionComp {
  import opened Options
  import opened Geometry
  import opened Strokes
  import opened SelectionRules

  lemma SubsetCard<T>(a: set<T>, b: set<T>)
    requires a <= b
    ensures |a| <= |b|
  {
    if a != {} {
      var x :| x in a;
      SubsetCard(a - {x}, b - {x});
    }
  }

  /**
   * One stroke of the selector scan: a hidden stroke, a stroke outside the
   * viewport and a stroke without a selection component are left alone;
   * any other stroke takes the flag of the hit test and, when the rules
   * say so and it has a chrono component, the next chrono stamp. The
   * tables it updates are passed in and handed back.
   */
  method SelectStroke(sc: map<Key, bool>, chrono: map<Key, int>, counter: int, strokes: map<Key, Stroke>,
                      render: map<Key, RenderComponent>, trash: map<Key, bool>, key: Key,
                      selectorBounds: Aabb, viewport: Option<Aabb>)
    returns (sc1: map<Key, bool>, chrono1: map<Key, int>, counter1: int, stamped: bool)
    requires key in strokes
    ensures sc1 == if key in sc && Eligible(strokes, render, trash, viewport, key)
                   then sc[key := HitTest(selectorBounds, strokes[key])] else sc
    ensures stamped <==> key in sc && key in chrono && Eligible(strokes, render, trash, viewport, key) &&
                         StampsChrono(selectorBounds, strokes[key])
    ensures stamped ==> counter1 == counter + 1 && chrono1 == chrono[key := counter1]
    ensures !stamped ==> counter1 == counter && chrono1 == chrono
  {
    sc1, chrono1, counter1, stamped := sc, chrono, counter, false;
    var stroke := strokes[key];
    // hidden strokes are skipped
    if key in render && key in trash && (!render[key].render || trash[key]) {
      return;
    }
    // so are strokes outside the viewport
    if viewport.Some? && !Intersects(viewport.value, stroke.bounds) {
      return;
    }
    if key in sc {
      var selected, stamp := HitTestStroke(selectorBounds, stroke);
      sc1 := sc[key := selected];
      if stamp && key in chrono {
        counter1 := counter + 1;
        chrono1 := chrono[key := counter1];
        stamped := true;
      }
    }
  }

  /**
   * The scan of `update_selection_for_selector` over every stroke: the flags
   * become the selector pass, and exactly the stamp set is stamped, in the
   * order `order` of the scan.
   */
  method ScanSelector(sc: map<Key, bool>, chrono: map<Key, int>, counter: int, strokes: map<Key, Stroke>,
                      render: map<Key, RenderComponent>, trash: map<Key, bool>,
                      selectorBounds: Aabb, viewport: Option<Aabb>)
    returns (sc1: map<Key, bool>, chrono1: map<Key, int>, counter1: int, ghost order: seq<Key>)
    ensures sc1 == SelectorPass(sc, strokes, render, trash, selectorBounds, viewport)
    ensures StampedInOrder(chrono, counter, chrono1, counter1, order)
    ensures forall k :: k in order <==> k in StampSet(sc, chrono, strokes, render, trash, selectorBounds, viewport)
  {
    SelectorScanStart(sc, chrono, counter, strokes, render, trash, selectorBounds, viewport);
    sc1, chrono1, counter1, order := sc, chrono, counter, [];
    var todo := strokes.Keys;
    ghost var done: set<Key> := {};
    while todo != {}
      invariant todo == strokes.Keys - done && done <= strokes.Keys
      invariant SelectorScanned(sc, chrono, counter, strokes, render, trash, selectorBounds, viewport, done,
                                sc1, chrono1, counter1, order)
      decreases todo
    {
      var key :| key in todo;
      var sc2, chrono2, counter2, stamped :=
        SelectStroke(sc1, chrono1, counter1, strokes, render, trash, key, selectorBounds, viewport);
      SelectorScanStep(sc, chrono, counter, strokes, render, trash, selectorBounds, viewport, done, key,
                       sc1, chrono1, counter1, order, sc2, chrono2, counter2, stamped);
      if stamped {
        order := order + [key];
      }
      sc1, chrono1, counter1 := sc2, chrono2, counter2;
      todo, done := todo - {key}, done + {key};
    }
    SelectorScanEnd(sc, chrono, counter, strokes, render, trash, selectorBounds, viewport,
                    sc1, chrono1, counter1, order);
  }

  class StrokesState {
    var strokes: map<Key, Stroke>
    var selectionComponents: map<Key, bool>
    var chronoComponents: map<Key, int>
    var chronoCounter: int
    var renderComponents: map<Key, RenderComponent>
    var trashComponents: map<Key, bool>
    var selectionBounds: Option<Aabb>

    /**
     * The derived invariant: the selection bounds are the union of the
     * selected strokes' bounds, so they are absent exactly when no selected
     * key names a stroke.
     */
    predicate BoundsConsistent()
      reads this
      ensures BoundsConsistent() ==> (selectionBounds.None? <==> KeysSelection() * strokes.Keys == {})
    {
      selectionBounds == GenBounds(strokes, KeysSelection())
    }

    constructor ()
      ensures BoundsConsistent()
      ensures strokes == map[] && selectionComponents == map[] && chronoComponents == map[]
      ensures renderComponents == map[] && trashComponents == map[]
      ensures chronoCounter == 0 && selectionBounds == None
    {
      strokes, selectionComponents, chronoComponents := map[], map[], map[];
      renderComponents, trashComponents := map[], map[];
      chronoCounter, selectionBounds := 0, None;
    }

    // -------------------------------------------------------------------
    // Queries
    // -------------------------------------------------------------------

    /** `can_select`: false when the stroke does not support selecting. */
    function CanSelect(key: Key): (r: bool)
      reads this
      ensures r <==> Selected(key).Some?
    {
      key in selectionComponents
    }

    /** `selected`: the flag, or None (with a warning in the original) when there is no selection component. */
    function Selected(key: Key): (r: Option<bool>)
      reads this
      ensures r == Some(true) <==> key in KeysSelection()
      ensures r == Some(false) <==> key in selectionComponents && key !in KeysSelection()
    {
      if key in selectionComponents then Some(selectionComponents[key]) else None
    }

    /** `keys_selection`: the keys whose selection component is set. */
    function KeysSelection(): (r: set<Key>)
      reads this
      ensures r <= selectionComponents.Keys
      ensures forall k :: k in r <==> k in selectionComponents && selectionComponents[k]
    {
      SelectedKeys(selectionComponents)
    }

    /** `selection_len`: how many strokes are selected. */
    function SelectionLen(): (r: nat)
      reads this
      ensures r <= |selectionComponents.Keys|
      ensures r == 0 <==> forall k :: k in selectionComponents ==> !selectionComponents[k]
    {
      SubsetCard(KeysSelection(), selectionComponents.Keys);
      assert forall k :: k in selectionComponents && selectionComponents[k] ==> k in KeysSelection();
      |KeysSelection()|
    }

    /**
     * The envelope `gen_svg_selection` wraps the exported markup in: a box at
     * the origin with the extent of the selection, or None when nothing is
     * selected (the markup itself is not modelled).
     */
    function SvgSelectionEnvelope(): (r: Option<Aabb>)
      reads this
      ensures r.Some? <==> selectionBounds.Some?
      ensures r.Some? ==> r.value.mins == Vec2(0.0, 0.0) && Extents(r.value) == Extents(selectionBounds.value)
    {
      if selectionBounds.Some? then
        var b := selectionBounds.value;
        Some(Aabb(Vec2(0.0, 0.0), Vec2(b.maxs.x - b.mins.x, b.maxs.y - b.mins.y)))
      else None
    }

    // -------------------------------------------------------------------
    // Collaborator of the arena (not in selection_comp.rs)
    // -------------------------------------------------------------------

    /**
     * `insert_stroke`: the stroke gets a key no table uses, and default components:
     * unselected, not trashed, rendered with its own bounds and a pending
     * regeneration, and a chrono stamp from the counter.
     */
    method InsertStroke(stroke: Stroke) returns (key: Key)
      modifies this`strokes, this`selectionComponents, this`chronoComponents, this`chronoCounter,
               this`renderComponents, this`trashComponents
      ensures key !in old(strokes) && key !in old(selectionComponents) && key !in old(chronoComponents)
      ensures key !in old(renderComponents) && key !in old(trashComponents)
      ensures strokes == old(strokes)[key := stroke]
      ensures selectionComponents == old(selectionComponents)[key := false]
      ensures trashComponents == old(trashComponents)[key := false]
      ensures renderComponents == old(renderComponents)[key := RenderComponent(true, stroke.bounds, true)]
      ensures chronoCounter == old(chronoCounter) + 1
      ensures chronoComponents == old(chronoComponents)[key := chronoCounter]
      ensures KeysSelection() == old(KeysSelection())
      ensures old(BoundsConsistent()) ==> BoundsConsistent()
    {
      key := FreshKey(strokes.Keys + selectionComponents.Keys + chronoComponents.Keys +
                      renderComponents.Keys + trashComponents.Keys);
      strokes := strokes[key := stroke];
      chronoCounter := chronoCounter + 1;
      trashComponents := trashComponents[key := false];
      selectionComponents := selectionComponents[key := false];
      chronoComponents := chronoComponents[key := chronoCounter];
      renderComponents := renderComponents[key := RenderComponent(true, stroke.bounds, true)];
      assert KeysSelection() == old(KeysSelection());
      GenBoundsFrame(old(strokes), strokes, KeysSelection());
    }

    // -------------------------------------------------------------------
    // Selection state
    // -------------------------------------------------------------------

    /** `update_selection_bounds`: recompute the selection bounds from the selected strokes. */
    method UpdateSelectionBounds()
      modifies this`selectionBounds
      ensures BoundsConsistent()
    {
      selectionBounds := GenBounds(strokes, KeysSelection());
    }

    /**
     * `set_selected`: without a selection component nothing changes.
     * Otherwise the flag is set; selecting a stroke with a chrono component
     * stamps it with the next counter value; the selection bounds are
     * recomputed.
     */
    method SetSelected(key: Key, selected: bool)
      modifies this`selectionComponents, this`chronoComponents, this`chronoCounter, this`selectionBounds
      ensures key !in old(selectionComponents) ==> unchanged(this)
      ensures key in old(selectionComponents) ==>
        selectionComponents == old(selectionComponents)[key := selected] && BoundsConsistent()
      ensures key in old(selectionComponents) && selected && key in old(chronoComponents) ==>
        chronoCounter == old(chronoCounter) + 1 && chronoComponents == old(chronoComponents)[key := chronoCounter]
      ensures !(key in old(selectionComponents) && selected && key in old(chronoComponents)) ==>
        chronoCounter == old(chronoCounter) && chronoComponents == old(chronoComponents)
    {
      if key in selectionComponents {
        selectionComponents := selectionComponents[key := selected];
        if selected && key in chronoComponents {
          chronoCounter := chronoCounter + 1;
          chronoComponents := chronoComponents[key := chronoCounter];
        }
        UpdateSelectionBounds();
      }
    }

    /**
     * `deselect_all_strokes`: every selection flag is cleared, every stroke
     * with both a selection and a chrono component is stamped (selected
     * before or not), and the selection bounds become None.
     */
    method DeselectAllStrokes() returns (ghost order: seq<Key>)
      modifies this`selectionComponents, this`chronoComponents, this`chronoCounter, this`selectionBounds
      ensures selectionComponents == ConstantMap(old(selectionComponents).Keys, false)
      ensures StampedInOrder(old(chronoComponents), old(chronoCounter), chronoComponents, chronoCounter, order)
      ensures forall k :: k in order <==> k in old(selectionComponents) && k in old(chronoComponents)
      ensures KeysSelection() == {}
      ensures selectionBounds == None && BoundsConsistent()
    {
      var todo := selectionComponents.Keys;
      order := [];
      while todo != {}
        modifies this`selectionComponents, this`chronoComponents, this`chronoCounter
        invariant todo <= old(selectionComponents).Keys
        invariant selectionComponents.Keys == old(selectionComponents).Keys
        invariant forall k :: k in selectionComponents ==>
          selectionComponents[k] == (k in todo && old(selectionComponents)[k])
        invariant forall k :: k in order <==> k in old(selectionComponents) && k !in todo && k in old(chronoComponents)
        invariant StampedInOrder(old(chronoComponents), old(chronoCounter), chronoComponents, chronoCounter, order)
        decreases todo
      {
        var key :| key in todo;
        selectionComponents := selectionComponents[key := false];
        if key in chronoComponents {
          StampStep(old(chronoComponents), old(chronoCounter), chronoComponents, chronoCounter, order, key);
          chronoCounter := chronoCounter + 1;
          chronoComponents := chronoComponents[key := chronoCounter];
          order := order + [key];
        }
        todo := todo - {key};
      }
      selectionBounds := None;
      assert KeysSelection() == {};
    }

    // -------------------------------------------------------------------
    // Selector pass
    // -------------------------------------------------------------------

    /**
     * The scan of `update_selection_for_selector` over the strokes, run on
     * this state's tables: the flags become the selector pass and the
     * stamped strokes are stamped in the order `order` of the scan.
     */
    method ApplySelector(selectorBounds: Aabb, viewport: Option<Aabb>) returns (ghost order: seq<Key>)
      modifies this`selectionComponents, this`chronoComponents, this`chronoCounter
      ensures selectionComponents ==
        SelectorPass(old(selectionComponents), strokes, renderComponents, trashComponents, selectorBounds, viewport)
      ensures StampedInOrder(old(chronoComponents), old(chronoCounter), chronoComponents, chronoCounter, order)
      ensures forall k :: k in order <==>
        k in StampSet(old(selectionComponents), old(chronoComponents), strokes, renderComponents,
                      trashComponents, selectorBounds, viewport)
    {
      selectionComponents, chronoComponents, chronoCounter, order :=
        ScanSelector(selectionComponents, chronoComponents, chronoCounter, strokes, renderComponents,
                     trashComponents, selectorBounds, viewport);
    }

    /**
     * `update_selection_for_selector`: without selector bounds it returns
     * false and changes nothing. Otherwise it runs the pass and reports a
     * change exactly when the number of selected strokes differs from
     * before; only then are the selection bounds recomputed.
     */
    method UpdateSelectionForSelector(selector: Selector, viewport: Option<Aabb>)
      returns (changed: bool, ghost order: seq<Key>)
      modifies this`selectionComponents, this`chronoComponents, this`chronoCounter, this`selectionBounds
      ensures selector.bounds.None? ==> !changed && unchanged(this)
      ensures selector.bounds.Some? ==>
        selectionComponents == SelectorPass(old(selectionComponents), strokes, renderComponents, trashComponents,
                                            selector.bounds.value, viewport) &&
        StampedInOrder(old(chronoComponents), old(chronoCounter), chronoComponents, chronoCounter, order) &&
        forall k :: k in order <==>
          k in StampSet(old(selectionComponents), old(chronoComponents), strokes, renderComponents,
                        trashComponents, selector.bounds.value, viewport)
      ensures changed <==> SelectionLen() != old(SelectionLen())
      ensures changed ==> BoundsConsistent()
      ensures !changed ==> selectionBounds == old(selectionBounds)
    {
      order := [];
      var selectionLenPrev := SelectionLen();
      if selector.bounds.None? {
        return false, order;
      }
      order := ApplySelector(selector.bounds.value, viewport);
      if SelectionLen() != selectionLenPrev {
        UpdateSelectionBounds();
        changed := true;
      } else {
        changed := false;
      }
    }

    /**
     * The selector pass reporting a change whenever the set of selected
     * strokes changed, not only its size; it keeps the selection bounds
     * consistent in every case.
     */
    method UpdateSelectionForSelectorByMembership(selector: Selector, viewport: Option<Aabb>)
      returns (changed: bool, ghost order: seq<Key>)
      modifies this`selectionComponents, this`chronoComponents, this`chronoCounter, this`selectionBounds
      ensures selector.bounds.None? ==> !changed && unchanged(this)
      ensures selector.bounds.Some? ==>
        selectionComponents == SelectorPass(old(selectionComponents), strokes, renderComponents, trashComponents,
                                            selector.bounds.value, viewport) &&
        StampedInOrder(old(chronoComponents), old(chronoCounter), chronoComponents, chronoCounter, order) &&
        forall k :: k in order <==>
          k in StampSet(old(selectionComponents), old(chronoComponents), strokes, renderComponents,
                        trashComponents, selector.bounds.value, viewport)
      ensures changed <==> KeysSelection() != old(KeysSelection())
      ensures changed ==> BoundsConsistent()
      ensures !changed ==> selectionBounds == old(selectionBounds)
      ensures old(BoundsConsistent()) ==> BoundsConsistent()
    {
      order := [];
      var selectedPrev := KeysSelection();
      if selector.bounds.None? {
        return false, order;
      }
      order := ApplySelector(selector.bounds.value, viewport);
      changed := KeysSelection() != selectedPrev;
      if changed {
        UpdateSelectionBounds();
      }
    }

    // -------------------------------------------------------------------
    // Group transforms
    // -------------------------------------------------------------------

    /**
     * First phase of `resize_selection`: every selected stroke is mapped from
     * `selectionBounds` onto `newBounds`; the new bounds of the resized
     * strokes are collected.
     */
    method ResizeSelectedStrokes(selectionBounds: Aabb, newBounds: Aabb) returns (newStrokeBounds: map<Key, Aabb>)
      requires NonDegenerate(selectionBounds)
      modifies this`strokes
      ensures strokes == ResizedStrokes(old(strokes), selectionComponents, selectionBounds, newBounds)
      ensures newStrokeBounds == NewStrokeBounds(old(strokes), selectionComponents, selectionBounds, newBounds)
    {
      ResizeScanEnds(strokes, selectionComponents, selectionBounds, newBounds);
      var todo := strokes.Keys;
      ghost var done: set<Key> := {};
      newStrokeBounds := map[];
      while todo != {}
        modifies this`strokes
        invariant todo == old(strokes).Keys - done && done <= old(strokes).Keys
        invariant strokes == ResizedStrokesOf(old(strokes), selectionComponents, selectionBounds, newBounds, done)
        invariant newStrokeBounds == NewStrokeBoundsOf(old(strokes), selectionComponents, selectionBounds, newBounds, done)
        decreases todo
      {
        var key :| key in todo;
        ResizeScanStep(old(strokes), selectionComponents, selectionBounds, newBounds, done, key);
        todo, done := todo - {key}, done + {key};
        if key in selectionComponents && selectionComponents[key] {
          var bounds := CalcNewStrokeBounds(strokes[key].bounds, selectionBounds, newBounds);
          strokes := strokes[key := ResizeStroke(strokes[key], selectionBounds, newBounds)];
          newStrokeBounds := newStrokeBounds[key := bounds];
        }
      }
    }

    /** Second phase of `resize_selection`: the collected bounds go to the render images, which are flagged. */
    method ApplyNewImageBounds(newStrokeBounds: map<Key, Aabb>)
      modifies this`renderComponents
      ensures renderComponents == ResizeImages(old(renderComponents), newStrokeBounds)
    {
      var pending := newStrokeBounds.Keys;
      while pending != {}
        modifies this`renderComponents
        invariant pending <= newStrokeBounds.Keys
        invariant renderComponents.Keys == old(renderComponents).Keys
        invariant forall k :: k in renderComponents ==>
          renderComponents[k] ==
          (if k in newStrokeBounds && k !in pending
           then old(renderComponents)[k].(imageBounds := newStrokeBounds[k], regenerateFlag := true)
           else old(renderComponents)[k])
        decreases pending
      {
        var key :| key in pending;
        pending := pending - {key};
        if key in renderComponents {
          renderComponents := renderComponents[key := renderComponents[key].(imageBounds := newStrokeBounds[key],
                                                                             regenerateFlag := true)];
        }
      }
    }

    /**
     * `resize_selection`: without selection bounds nothing happens.
     * Otherwise every selected stroke is mapped from the old selection
     * bounds onto `newBounds`, its render image takes its new bounds and is
     * flagged for regeneration, and the selection bounds become `newBounds`.
     */
    method ResizeSelection(newBounds: Aabb)
      requires selectionBounds.Some? ==> NonDegenerate(selectionBounds.value)
      modifies this`strokes, this`renderComponents, this`selectionBounds
      ensures old(selectionBounds).None? ==> unchanged(this)
      ensures old(selectionBounds).Some? ==>
        strokes == ResizedStrokes(old(strokes), selectionComponents, old(selectionBounds).value, newBounds) &&
        renderComponents == ResizedRender(old(renderComponents), old(strokes), selectionComponents,
                                          old(selectionBounds).value, newBounds) &&
        selectionBounds == Some(newBounds)
      ensures (old(BoundsConsistent()) && old(selectionBounds).Some? &&
               WellFormed(old(selectionBounds).value) && WellFormed(newBounds)) ==> BoundsConsistent()
    {
      if selectionBounds.None? {
        return;
      }
      var oldBounds := selectionBounds.value;
      var newStrokeBounds := ResizeSelectedStrokes(oldBounds, newBounds);
      ApplyNewImageBounds(newStrokeBounds);
      selectionBounds := Some(newBounds);
      if old(BoundsConsistent()) && WellFormed(oldBounds) && WellFormed(newBounds) {
        ResizedSelectionBounds(old(strokes), selectionComponents, oldBounds, newBounds);
      }
    }

    /** First phase of `translate_selection`: every selected stroke moves by `offset`; the moved keys are returned. */
    method TranslateSelectedStrokes(offset: Vec2) returns (translated: set<Key>)
      modifies this`strokes
      ensures strokes == TranslatedStrokes(old(strokes), selectionComponents, offset)
      ensures translated == SelectedStrokeKeys(old(strokes), selectionComponents)
    {
      var todo := strokes.Keys;
      translated := {};
      while todo != {}
        modifies this`strokes
        invariant todo <= old(strokes).Keys
        invariant strokes.Keys == old(strokes).Keys
        invariant forall k :: k in strokes ==>
          strokes[k] ==
          (if k !in todo && IsSelected(selectionComponents, k)
           then TranslateStroke(old(strokes)[k], offset) else old(strokes)[k])
        invariant forall k :: k in translated <==> k in old(strokes) && k !in todo && IsSelected(selectionComponents, k)
        decreases todo
      {
        var key :| key in todo;
        todo := todo - {key};
        if key in selectionComponents && selectionComponents[key] {
          strokes := strokes[key := TranslateStroke(strokes[key], offset)];
          translated := translated + {key};
        }
      }
    }

    /** Second phase of `translate_selection`: the render images of the moved strokes move by `offset`. */
    method TranslateImagesOf(translated: set<Key>, offset: Vec2)
      modifies this`renderComponents
      ensures renderComponents == TranslateImages(old(renderComponents), translated, offset)
    {
      var pending := translated;
      while pending != {}
        modifies this`renderComponents
        invariant pending <= translated
        invariant renderComponents.Keys == old(renderComponents).Keys
        invariant forall k :: k in renderComponents ==>
          renderComponents[k] ==
          (if k in translated && k !in pending
           then old(renderComponents)[k].(imageBounds := Translate(old(renderComponents)[k].imageBounds, offset))
           else old(renderComponents)[k])
        decreases pending
      {
        var key :| key in pending;
        pending := pending - {key};
        if key in renderComponents {
          renderComponents := renderComponents[key := renderComponents[key].(
            imageBounds := Translate(renderComponents[key].imageBounds, offset))];
        }
      }
    }

    /**
     * `translate_selection(offset)`: every selected stroke and its render
     * image move by `offset`, and so do the selection bounds when present;
     * nothing else changes.
     */
    method TranslateSelection(offset: Vec2)
      modifies this`strokes, this`renderComponents, this`selectionBounds
      ensures strokes == TranslatedStrokes(old(strokes), selectionComponents, offset)
      ensures renderComponents == TranslatedRender(old(renderComponents), old(strokes), selectionComponents, offset)
      ensures selectionBounds == TranslateOpt(old(selectionBounds), offset)
      ensures old(BoundsConsistent()) ==> BoundsConsistent()
    {
      var translated := TranslateSelectedStrokes(offset);
      TranslateImagesOf(translated, offset);
      selectionBounds := if selectionBounds.Some? then Some(Translate(selectionBounds.value, offset)) else None;
      if old(BoundsConsistent()) {
        TranslatedSelectionBounds(old(strokes), selectionComponents, offset);
      }
    }

    /**
     * One selected stroke of `duplicate_selection`: a clone is inserted
     * under a key no table holds, with default components, selected (a
     * second chrono stamp, and the selection bounds recomputed while the
     * clone still sits on its original), and then moved by `offset`; its
     * render image stays where it was inserted. `CloneOne` is that step on
     * the tables.
     */
    method DuplicateStroke(key: Key, offset: Vec2) returns (newKey: Key)
      requires key in strokes
      modifies this`strokes, this`selectionComponents, this`chronoComponents, this`chronoCounter,
               this`renderComponents, this`trashComponents, this`selectionBounds
      ensures Unused(old(Components(strokes, selectionComponents, trashComponents, renderComponents,
                                    chronoComponents, chronoCounter)), newKey)
      ensures Components(strokes, selectionComponents, trashComponents, renderComponents, chronoComponents, chronoCounter)
              == CloneOne(old(Components(strokes, selectionComponents, trashComponents, renderComponents,
                                         chronoComponents, chronoCounter)), Clone(key, newKey, old(strokes)[key]), offset)
      ensures selectionBounds == GenBounds(old(strokes)[newKey := old(strokes)[key]], SelectedKeys(selectionComponents))
    {
      newKey := InsertStroke(strokes[key]);
      SetSelected(newKey, true);
      strokes := strokes[newKey := TranslateStroke(strokes[newKey], offset)];
      assert selectionComponents == old(selectionComponents)[newKey := true];
      assert chronoComponents == old(chronoComponents)[newKey := old(chronoCounter) + 2];
    }

    /**
     * The loop of `duplicate_selection` over the previously selected keys:
     * each gets a selected clone moved by `offset`. `log` lists the clones
     * in the order they were made; it copies each key of `selected` once,
     * and the tables end as `Replay` of it says.
     */
    method CloneStrokes(selected: set<Key>, offset: Vec2) returns (ghost log: seq<Clone>)
      requires selected <= strokes.Keys
      modifies this`strokes, this`selectionComponents, this`chronoComponents, this`chronoCounter,
               this`renderComponents, this`trashComponents, this`selectionBounds
      ensures ValidLog(old(Components(strokes, selectionComponents, trashComponents, renderComponents,
                                      chronoComponents, chronoCounter)), log, offset)
      ensures KeysOf(log) == selected
      ensures Components(strokes, selectionComponents, trashComponents, renderComponents, chronoComponents, chronoCounter)
              == Replay(old(Components(strokes, selectionComponents, trashComponents, renderComponents,
                                       chronoComponents, chronoCounter)), log, offset)
    {
      ghost var a0 :=
        Components(strokes, selectionComponents, trashComponents, renderComponents, chronoComponents, chronoCounter);
      log := [];
      var todo := selected;
      while todo != {}
        invariant todo <= selected && KeysOf(log) == selected - todo
        invariant Components(strokes, selectionComponents, trashComponents, renderComponents, chronoComponents,
                             chronoCounter) == Replay(a0, log, offset)
        invariant ValidLog(a0, log, offset)
        decreases todo
      {
        var key :| key in todo;
        ReplayKeepsEntry(a0, log, offset, key);
        var newKey := DuplicateStroke(key, offset);
        ghost var cl := Clone(key, newKey, a0.strokes[key]);
        LogSnoc(a0, log, cl, offset);
        log := log + [cl];
        todo := todo - {key};
      }
    }

    /**
     * `duplicate_selection`: every selected stroke is cloned under a fresh
     * key, the clones become the selection and the originals are deselected
     * and left where they were. Each clone is moved by the duplication
     * offset once on its own and once more by the group translate, so it
     * ends twice the offset away from its original, while its render image,
     * inserted at the original's bounds, moves only with the group
     * translate. The deselection stamps every stroke with both a selection
     * and a chrono component (`order`, giving the chrono table
     * `deselected`), then each clone is stamped twice, in the order of
     * `log`. `DuplicatedArena`, `DuplicatedKeepsOld`, `DuplicatedSelection`
     * and `DuplicatedClone` spell out the final state entry by entry. Every
     * selected key must name a stroke: the original unwraps the stroke it
     * clones.
     */
    method DuplicateSelection()
      returns (ghost order: seq<Key>, ghost deselected: map<Key, int>, ghost log: seq<Clone>)
      requires KeysSelection() <= strokes.Keys
      modifies this`strokes, this`selectionComponents, this`chronoComponents, this`chronoCounter,
               this`renderComponents, this`trashComponents, this`selectionBounds
      ensures StampedInOrder(old(chronoComponents), old(chronoCounter), deselected, old(chronoCounter) + |order|, order)
      ensures forall k :: k in order <==> k in old(selectionComponents) && k in old(chronoComponents)
      ensures var d := Components(old(strokes), ConstantMap(old(selectionComponents).Keys, false), old(trashComponents),
                                  old(renderComponents), deselected, old(chronoCounter) + |order|);
        ValidLog(d, log, DuplicationOffset()) && KeysOf(log) == old(KeysSelection()) &&
        Components(strokes, selectionComponents, trashComponents, renderComponents, chronoComponents, chronoCounter)
        == Duplicated(d, log, DuplicationOffset())
      ensures BoundsConsistent()
    {
      var offset := DuplicationOffset();
      var selected := KeysSelection();
      order := DeselectAllStrokes();
      deselected := chronoComponents;
      ghost var d :=
        Components(strokes, selectionComponents, trashComponents, renderComponents, chronoComponents, chronoCounter);
      assert d == Components(old(strokes), ConstantMap(old(selectionComponents).Keys, false), old(trashComponents),
                             old(renderComponents), deselected, old(chronoCounter) + |order|);
      log := CloneStrokes(selected, offset);
      ghost var a := Replay(d, log, offset);
      assert strokes == a.strokes && selectionComponents == a.selection;
      TranslateSelection(offset);
      UpdateSelectionBounds();
    }
  }
}
