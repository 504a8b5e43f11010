/**
 * The value-level rules of the selection engine (selection_comp.rs): which
 * strokes the selector pass looks at and what it decides for each, how
 * chrono stamps are handed out, and the group maps applied by
 * `resize_selection` and `translate_selection`. The class in
 * SelectionComp is specified by these functions; the lemmas here state
 * what the rules promise.
 */
module SelectionRules {
  import opened Options
  import opened Geometry
  import opened Strokes
  import opened Tables

  /** `SelectionComponent::SELECTION_DUPLICATION_OFFSET_X` and `_Y`. */
  const SelectionDuplicationOffsetX: real := 20.0
  const SelectionDuplicationOffsetY: real := 20.0

  /** The vector `duplicate_selection` moves the clones by: 20 units right and 20 down. */
  function DuplicationOffset(): (r: Vec2)
    ensures r == Vec2(20.0, 20.0)
  {
    Vec2(SelectionDuplicationOffsetX, SelectionDuplicationOffsetY)
  }

  /** The selector pen, as far as the engine reads it: its drag box, if a drag is active. */
  datatype Selector = Selector(bounds: Option<Aabb>)

  /** The stroke has a selection component and it is set. */
  predicate IsSelected(sc: map<Key, bool>, k: Key) {
    k in sc && sc[k]
  }

  /** The keys whose selection component is set (`keys_selection`, as a set). */
  function SelectedKeys(sc: map<Key, bool>): (r: set<Key>)
    ensures r <= sc.Keys
    ensures forall k :: k in r <==> IsSelected(sc, k)
  {
    set k | k in sc && sc[k]
  }

  /** Setting one more flag adds exactly that key to the selection. */
  lemma SelectedKeysSet(sc: map<Key, bool>, k: Key)
    ensures SelectedKeys(sc[k := true]) == SelectedKeys(sc) + {k}
  {
    assert forall j :: j in SelectedKeys(sc[k := true]) <==> j in SelectedKeys(sc) + {k};
  }

  // ---------------------------------------------------------------------
  // The selector pass
  // ---------------------------------------------------------------------

  /** Skipped as hidden: both a render and a trash component exist, and it is not rendered or is trashed. */
  predicate Hidden(render: map<Key, RenderComponent>, trash: map<Key, bool>, k: Key) {
    k in render && k in trash && (!render[k].render || trash[k])
  }

  /** Without a viewport every stroke qualifies; with one, the stroke must touch it. */
  predicate InViewport(viewport: Option<Aabb>, b: Aabb) {
    viewport.None? || Intersects(viewport.value, b)
  }

  /** A stroke the selector pass decides about (when it also has a selection component). */
  predicate Eligible(strokes: map<Key, Stroke>, render: map<Key, RenderComponent>, trash: map<Key, bool>,
                     viewport: Option<Aabb>, k: Key)
  {
    k in strokes && !Hidden(render, trash, k) && InViewport(viewport, strokes[k].bounds)
  }

  /**
   * The selection rule for one eligible stroke. Shapes and images need
   * their whole bounds inside the selector. Marker and brush strokes are
   * also taken when the selector only touches their bounds but holds
   * every element of their hitbox.
   */
  predicate HitTest(sel: Aabb, s: Stroke)
    ensures Contains(sel, s.bounds) ==> HitTest(sel, s)
  {
    if IsFreehand(s.kind) then
      Contains(sel, s.bounds) ||
      (Intersects(sel, s.bounds) && forall h :: h in s.hitbox ==> Contains(sel, h))
    else
      Contains(sel, s.bounds)
  }

  /**
   * When the pass stamps a chrono value: on the hitbox branch of marker and
   * brush strokes and on a contained shape or image, but not on a marker or
   * brush stroke whose bounds are fully contained.
   */
  predicate StampsChrono(sel: Aabb, s: Stroke)
    ensures StampsChrono(sel, s) ==> HitTest(sel, s)
  {
    if IsFreehand(s.kind) then
      !Contains(sel, s.bounds) && Intersects(sel, s.bounds) &&
      forall h :: h in s.hitbox ==> Contains(sel, h)
    else
      Contains(sel, s.bounds)
  }

  /**
   * The per-stroke decision of `update_selection_for_selector`: the match on
   * the stroke variant, with the early return out of the hitbox loop.
   */
  method HitTestStroke(selectorBounds: Aabb, stroke: Stroke) returns (selected: bool, stamp: bool)
    ensures selected == HitTest(selectorBounds, stroke)
    ensures stamp == StampsChrono(selectorBounds, stroke)
  {
    selected, stamp := false, false;
    match stroke.kind {
      case Marker | Brush =>
        if Contains(selectorBounds, stroke.bounds) {
          selected := true;
        } else if Intersects(selectorBounds, stroke.bounds) {
          var i := 0;
          while i < |stroke.hitbox|
            invariant 0 <= i <= |stroke.hitbox|
            invariant forall j :: 0 <= j < i ==> Contains(selectorBounds, stroke.hitbox[j])
          {
            if !Contains(selectorBounds, stroke.hitbox[i]) {
              return;
            }
            i := i + 1;
          }
          selected, stamp := true, true;
        }
      case Shape | VectorImage | BitmapImage =>
        if Contains(selectorBounds, stroke.bounds) {
          selected, stamp := true, true;
        }
    }
  }

  /** The selection flags after the selector pass. */
  function SelectorPass(sc: map<Key, bool>, strokes: map<Key, Stroke>, render: map<Key, RenderComponent>,
                        trash: map<Key, bool>, sel: Aabb, viewport: Option<Aabb>): (r: map<Key, bool>)
    ensures r.Keys == sc.Keys
    ensures forall k :: k in sc && !Eligible(strokes, render, trash, viewport, k) ==> r[k] == sc[k]
  {
    map k | k in sc :: if Eligible(strokes, render, trash, viewport, k) then HitTest(sel, strokes[k]) else sc[k]
  }

  /** The strokes the selector pass stamps with a fresh chrono value. */
  function StampSet(sc: map<Key, bool>, chrono: map<Key, int>, strokes: map<Key, Stroke>,
                    render: map<Key, RenderComponent>, trash: map<Key, bool>,
                    sel: Aabb, viewport: Option<Aabb>): (r: set<Key>)
    ensures r <= chrono.Keys * sc.Keys
  {
    set k | k in chrono && k in sc && Eligible(strokes, render, trash, viewport, k) && StampsChrono(sel, strokes[k])
  }

  /** What the selector pass decides: the hit test of every eligible stroke with a selection component. */
  function SelectorDecisions(sc: map<Key, bool>, strokes: map<Key, Stroke>, render: map<Key, RenderComponent>,
                             trash: map<Key, bool>, sel: Aabb, viewport: Option<Aabb>): (r: map<Key, bool>)
    ensures forall k :: k in r <==> k in sc && Eligible(strokes, render, trash, viewport, k)
  {
    map k | k in sc && Eligible(strokes, render, trash, viewport, k) :: HitTest(sel, strokes[k])
  }

  /** The flags part-way through the selector scan: the eligible strokes among `done` are decided. */
  function SelectorPassOf(sc: map<Key, bool>, strokes: map<Key, Stroke>, render: map<Key, RenderComponent>,
                          trash: map<Key, bool>, sel: Aabb, viewport: Option<Aabb>, done: set<Key>): (r: map<Key, bool>)
    ensures r.Keys == sc.Keys
  {
    Overlay(sc, SelectorDecisions(sc, strokes, render, trash, sel, viewport), done)
  }

  /** The strokes stamped part-way through the selector scan. */
  function StampSetOf(sc: map<Key, bool>, chrono: map<Key, int>, strokes: map<Key, Stroke>,
                      render: map<Key, RenderComponent>, trash: map<Key, bool>,
                      sel: Aabb, viewport: Option<Aabb>, done: set<Key>): (r: set<Key>)
    ensures r <= done
  {
    set k | k in done && k in StampSet(sc, chrono, strokes, render, trash, sel, viewport)
  }

  // ---------------------------------------------------------------------
  // Chrono stamps
  // ---------------------------------------------------------------------

  /**
   * Chrono components `c0` with counter `n0` became `c1` with counter `n1`
   * by stamping the keys of `order`, in that order, one counter increment
   * each: the i-th key holds `n0 + 1 + i`, the counter grew by the number of
   * stamps, and every other key kept its value. A scan over a table visits
   * its keys in an order the model leaves open; `order` names it.
   */
  ghost predicate StampedInOrder(c0: map<Key, int>, n0: int, c1: map<Key, int>, n1: int, order: seq<Key>) {
    c1.Keys == c0.Keys && n1 == n0 + |order| &&
    (forall i :: 0 <= i < |order| ==> order[i] in c0 && c1[order[i]] == n0 + 1 + i) &&
    (forall k :: k in c0 && k !in order ==> c1[k] == c0[k])
  }

  lemma StampStep(c0: map<Key, int>, n0: int, c1: map<Key, int>, n1: int, order: seq<Key>, k: Key)
    requires StampedInOrder(c0, n0, c1, n1, order) && k in c0 && k !in order
    ensures StampedInOrder(c0, n0, c1[k := n1 + 1], n1 + 1, order + [k])
  {
    var c2 := c1[k := n1 + 1];
    var o2 := order + [k];
    forall i | 0 <= i < |o2|
      ensures o2[i] in c0 && c2[o2[i]] == n0 + 1 + i
    {
      if i < |order| {
        assert o2[i] == order[i] && order[i] != k;
      }
    }
  }

  /** Each stamp is fresh: above the old counter, at most the new one, and different from every other stamp. */
  lemma StampsDistinct(c0: map<Key, int>, n0: int, c1: map<Key, int>, n1: int, order: seq<Key>, j: Key, k: Key)
    requires StampedInOrder(c0, n0, c1, n1, order)
    requires j in order && k in order && j != k
    ensures n0 < c1[j] <= n1 && n0 < c1[k] <= n1
    ensures c1[j] != c1[k]
  {
    var a :| 0 <= a < |order| && order[a] == j;
    var b :| 0 <= b < |order| && order[b] == k;
    assert a != b;
  }

  /**
   * The selector scan after the strokes `done`: their flags are decided, the
   * strokes among them that the rules stamp are exactly those of `order`,
   * and they were stamped in that order.
   */
  ghost predicate SelectorScanned(sc0: map<Key, bool>, c0: map<Key, int>, n0: int, strokes: map<Key, Stroke>,
                                  render: map<Key, RenderComponent>, trash: map<Key, bool>, sel: Aabb,
                                  viewport: Option<Aabb>, done: set<Key>,
                                  sc: map<Key, bool>, c: map<Key, int>, n: int, order: seq<Key>)
  {
    sc == SelectorPassOf(sc0, strokes, render, trash, sel, viewport, done) &&
    (forall k :: k in order <==> k in StampSetOf(sc0, c0, strokes, render, trash, sel, viewport, done)) &&
    StampedInOrder(c0, n0, c, n, order)
  }

  /** Before the scan nothing is decided and nothing stamped. */
  lemma SelectorScanStart(sc0: map<Key, bool>, c0: map<Key, int>, n0: int, strokes: map<Key, Stroke>,
                          render: map<Key, RenderComponent>, trash: map<Key, bool>, sel: Aabb, viewport: Option<Aabb>)
    ensures SelectorScanned(sc0, c0, n0, strokes, render, trash, sel, viewport, {}, sc0, c0, n0, [])
  {
    OverlayEnds(sc0, SelectorDecisions(sc0, strokes, render, trash, sel, viewport), {});
  }

  /** Deciding one more stroke updates at most its own flag. */
  lemma SelectorPassStep(sc0: map<Key, bool>, strokes: map<Key, Stroke>, render: map<Key, RenderComponent>,
                         trash: map<Key, bool>, sel: Aabb, viewport: Option<Aabb>, done: set<Key>, key: Key)
    requires key in strokes
    ensures var p := SelectorPassOf(sc0, strokes, render, trash, sel, viewport, done);
      SelectorPassOf(sc0, strokes, render, trash, sel, viewport, done + {key}) ==
        (if key in sc0 && Eligible(strokes, render, trash, viewport, key) then p[key := HitTest(sel, strokes[key])] else p)
  {
    var d := SelectorDecisions(sc0, strokes, render, trash, sel, viewport);
    OverlayStep(sc0, d, done, key);
  }

  /** Deciding one more stroke adds it to the stamped strokes exactly when the rules stamp it. */
  lemma StampSetStep(sc0: map<Key, bool>, c0: map<Key, int>, strokes: map<Key, Stroke>,
                     render: map<Key, RenderComponent>, trash: map<Key, bool>,
                     sel: Aabb, viewport: Option<Aabb>, done: set<Key>, key: Key)
    ensures var t := StampSetOf(sc0, c0, strokes, render, trash, sel, viewport, done);
      StampSetOf(sc0, c0, strokes, render, trash, sel, viewport, done + {key}) ==
        (if key in StampSet(sc0, c0, strokes, render, trash, sel, viewport) then t + {key} else t)
  {
  }

  /**
   * One stroke through the selector step, as `SelectStroke` promises it,
   * carries the scan from `done` to `done + {key}`.
   */
  lemma SelectorScanStep(sc0: map<Key, bool>, c0: map<Key, int>, n0: int, strokes: map<Key, Stroke>,
                         render: map<Key, RenderComponent>, trash: map<Key, bool>, sel: Aabb,
                         viewport: Option<Aabb>, done: set<Key>, key: Key,
                         sc: map<Key, bool>, c: map<Key, int>, n: int, order: seq<Key>,
                         sc1: map<Key, bool>, c1: map<Key, int>, n1: int, stamped: bool)
    requires SelectorScanned(sc0, c0, n0, strokes, render, trash, sel, viewport, done, sc, c, n, order)
    requires key in strokes && key !in done
    requires sc1 == if key in sc && Eligible(strokes, render, trash, viewport, key)
                    then sc[key := HitTest(sel, strokes[key])] else sc
    requires stamped <==> key in sc && key in c && Eligible(strokes, render, trash, viewport, key) &&
                          StampsChrono(sel, strokes[key])
    requires stamped ==> n1 == n + 1 && c1 == c[key := n1]
    requires !stamped ==> n1 == n && c1 == c
    ensures SelectorScanned(sc0, c0, n0, strokes, render, trash, sel, viewport, done + {key},
                            sc1, c1, n1, if stamped then order + [key] else order)
  {
    SelectorPassStep(sc0, strokes, render, trash, sel, viewport, done, key);
    StampSetStep(sc0, c0, strokes, render, trash, sel, viewport, done, key);
    assert stamped <==> key in StampSet(sc0, c0, strokes, render, trash, sel, viewport);
    if stamped {
      assert key !in order;
      StampStep(c0, n0, c, n, order, key);
    }
  }

  /** After a scan over every stroke the selector pass and its stamps are complete. */
  lemma SelectorScanEnd(sc0: map<Key, bool>, c0: map<Key, int>, n0: int, strokes: map<Key, Stroke>,
                        render: map<Key, RenderComponent>, trash: map<Key, bool>, sel: Aabb,
                        viewport: Option<Aabb>, sc: map<Key, bool>, c: map<Key, int>, n: int, order: seq<Key>)
    requires SelectorScanned(sc0, c0, n0, strokes, render, trash, sel, viewport, strokes.Keys, sc, c, n, order)
    ensures sc == SelectorPass(sc0, strokes, render, trash, sel, viewport)
    ensures forall k :: k in order <==> k in StampSet(sc0, c0, strokes, render, trash, sel, viewport)
    ensures StampedInOrder(c0, n0, c, n, order)
  {
    OverlayEnds(sc0, SelectorDecisions(sc0, strokes, render, trash, sel, viewport), strokes.Keys);
  }

  // ---------------------------------------------------------------------
  // Group resize
  // ---------------------------------------------------------------------

  /** Per-axis ratio of the new extent to the old one. */
  function ScaleVector(selectionBounds: Aabb, newBounds: Aabb): Vec2
    requires NonDegenerate(selectionBounds)
  {
    Vec2(Extents(newBounds).x / Extents(selectionBounds).x,
         Extents(newBounds).y / Extents(selectionBounds).y)
  }

  /** The group map along one axis: offset from the old corner, scaled, placed at the new corner. */
  function AxisMap(t: real, from: real, scale: real, to: real): real {
    (t - from) * scale + to
  }

  /** `calc_new_stroke_bounds`: where a stroke lands when the group box `selectionBounds` is mapped onto `newBounds`. */
  function CalcNewStrokeBounds(strokeBounds: Aabb, selectionBounds: Aabb, newBounds: Aabb): (r: Aabb)
    requires NonDegenerate(selectionBounds)
    ensures r.mins.x - newBounds.mins.x ==
            (strokeBounds.mins.x - selectionBounds.mins.x) * ScaleVector(selectionBounds, newBounds).x
    ensures r.mins.y - newBounds.mins.y ==
            (strokeBounds.mins.y - selectionBounds.mins.y) * ScaleVector(selectionBounds, newBounds).y
  {
    var offset := Vec2(newBounds.mins.x - selectionBounds.mins.x, newBounds.mins.y - selectionBounds.mins.y);
    var scale := ScaleVector(selectionBounds, newBounds);
    var minX := (strokeBounds.mins.x - selectionBounds.mins.x) * scale.x + selectionBounds.mins.x + offset.x;
    var minY := (strokeBounds.mins.y - selectionBounds.mins.y) * scale.y + selectionBounds.mins.y + offset.y;
    Aabb(Vec2(minX, minY),
         Vec2(minX + Extents(strokeBounds).x * scale.x, minY + Extents(strokeBounds).y * scale.y))
  }

  /**
   * The corners of a resized stroke are the group map of its old corners,
   * and its extent is the old extent times the scale.
   */
  lemma CalcNewStrokeBoundsCorners(strokeBounds: Aabb, selectionBounds: Aabb, newBounds: Aabb)
    requires NonDegenerate(selectionBounds)
    ensures var r := CalcNewStrokeBounds(strokeBounds, selectionBounds, newBounds);
      var s := ScaleVector(selectionBounds, newBounds);
      r.mins == Vec2(AxisMap(strokeBounds.mins.x, selectionBounds.mins.x, s.x, newBounds.mins.x),
                     AxisMap(strokeBounds.mins.y, selectionBounds.mins.y, s.y, newBounds.mins.y)) &&
      r.maxs == Vec2(AxisMap(strokeBounds.maxs.x, selectionBounds.mins.x, s.x, newBounds.mins.x),
                     AxisMap(strokeBounds.maxs.y, selectionBounds.mins.y, s.y, newBounds.mins.y)) &&
      Extents(r) == Vec2(Extents(strokeBounds).x * s.x, Extents(strokeBounds).y * s.y)
  {
    var s := ScaleVector(selectionBounds, newBounds);
    AxisMapDistributes(strokeBounds.mins.x, strokeBounds.maxs.x, selectionBounds.mins.x, s.x, newBounds.mins.x);
    AxisMapDistributes(strokeBounds.mins.y, strokeBounds.maxs.y, selectionBounds.mins.y, s.y, newBounds.mins.y);
  }

  lemma AxisMapDistributes(lo: real, hi: real, from: real, scale: real, to: real)
    ensures AxisMap(lo, from, scale, to) + (hi - lo) * scale == AxisMap(hi, from, scale, to)
  {
    assert (lo - from) * scale + (hi - lo) * scale == (hi - from) * scale;
  }

  function ResizeBoxes(boxes: seq<Aabb>, selectionBounds: Aabb, newBounds: Aabb): (r: seq<Aabb>)
    requires NonDegenerate(selectionBounds)
    ensures |r| == |boxes|
    ensures forall i :: 0 <= i < |boxes| ==> r[i] == CalcNewStrokeBounds(boxes[i], selectionBounds, newBounds)
  {
    if boxes == [] then []
    else [CalcNewStrokeBounds(boxes[0], selectionBounds, newBounds)] + ResizeBoxes(boxes[1..], selectionBounds, newBounds)
  }

  /**
   * `stroke.resize(new_stroke_bounds)`: the stroke takes its new bounds and
   * its hitbox is carried by the same group map.
   */
  function ResizeStroke(s: Stroke, selectionBounds: Aabb, newBounds: Aabb): (r: Stroke)
    requires NonDegenerate(selectionBounds)
    ensures r.kind == s.kind && |r.hitbox| == |s.hitbox|
  {
    s.(bounds := CalcNewStrokeBounds(s.bounds, selectionBounds, newBounds),
       hitbox := ResizeBoxes(s.hitbox, selectionBounds, newBounds))
  }

  /** The strokes after `resize_selection`: selected ones resized, the rest as they were. */
  function ResizedStrokes(strokes: map<Key, Stroke>, sc: map<Key, bool>, selectionBounds: Aabb, newBounds: Aabb)
    : (r: map<Key, Stroke>)
    requires NonDegenerate(selectionBounds)
    ensures r.Keys == strokes.Keys
    ensures forall k :: k in strokes && !IsSelected(sc, k) ==> r[k] == strokes[k]
    ensures forall k :: k in strokes ==> r[k].kind == strokes[k].kind
  {
    map k | k in strokes :: if IsSelected(sc, k) then ResizeStroke(strokes[k], selectionBounds, newBounds) else strokes[k]
  }

  /** The selected strokes of the arena: those `resize_selection` and `translate_selection` act on. */
  function SelectedStrokeKeys(strokes: map<Key, Stroke>, sc: map<Key, bool>): (r: set<Key>)
    ensures forall k :: k in r <==> k in strokes && IsSelected(sc, k)
  {
    set k | k in strokes && IsSelected(sc, k)
  }

  /** The bounds `resize_selection` collects for the selected strokes in its first phase. */
  function NewStrokeBounds(strokes: map<Key, Stroke>, sc: map<Key, bool>, selectionBounds: Aabb, newBounds: Aabb)
    : (r: map<Key, Aabb>)
    requires NonDegenerate(selectionBounds)
    ensures r.Keys == SelectedStrokeKeys(strokes, sc)
  {
    map k | k in SelectedStrokeKeys(strokes, sc) :: CalcNewStrokeBounds(strokes[k].bounds, selectionBounds, newBounds)
  }

  /** The selected strokes, each resized by the group map. */
  function ResizedSelected(strokes: map<Key, Stroke>, sc: map<Key, bool>, selectionBounds: Aabb, newBounds: Aabb)
    : (r: map<Key, Stroke>)
    requires NonDegenerate(selectionBounds)
    ensures r.Keys == SelectedStrokeKeys(strokes, sc)
  {
    map k | k in SelectedStrokeKeys(strokes, sc) :: ResizeStroke(strokes[k], selectionBounds, newBounds)
  }

  /** The arena part-way through the resize scan: the selected strokes among `done` are resized. */
  function ResizedStrokesOf(strokes: map<Key, Stroke>, sc: map<Key, bool>, selectionBounds: Aabb, newBounds: Aabb,
                            done: set<Key>): (r: map<Key, Stroke>)
    requires NonDegenerate(selectionBounds)
    ensures r.Keys == strokes.Keys
  {
    Overlay(strokes, ResizedSelected(strokes, sc, selectionBounds, newBounds), done)
  }

  /** The bounds collected part-way through the resize scan, for the selected strokes among `done`. */
  function NewStrokeBoundsOf(strokes: map<Key, Stroke>, sc: map<Key, bool>, selectionBounds: Aabb, newBounds: Aabb,
                             done: set<Key>): (r: map<Key, Aabb>)
    requires NonDegenerate(selectionBounds)
    ensures r.Keys <= strokes.Keys
  {
    Restrict(NewStrokeBounds(strokes, sc, selectionBounds, newBounds), done)
  }

  /** One more key of the resize scan: a selected stroke is resized and its new bounds recorded. */
  lemma ResizeScanStep(strokes: map<Key, Stroke>, sc: map<Key, bool>, selectionBounds: Aabb, newBounds: Aabb,
                       done: set<Key>, key: Key)
    requires NonDegenerate(selectionBounds) && key in strokes && key !in done
    ensures var s := ResizedStrokesOf(strokes, sc, selectionBounds, newBounds, done);
      s[key] == strokes[key] &&
      ResizedStrokesOf(strokes, sc, selectionBounds, newBounds, done + {key}) ==
        (if IsSelected(sc, key) then s[key := ResizeStroke(s[key], selectionBounds, newBounds)] else s)
    ensures var b := NewStrokeBoundsOf(strokes, sc, selectionBounds, newBounds, done);
      NewStrokeBoundsOf(strokes, sc, selectionBounds, newBounds, done + {key}) ==
        (if IsSelected(sc, key) then b[key := CalcNewStrokeBounds(strokes[key].bounds, selectionBounds, newBounds)] else b)
  {
    OverlayStep(strokes, ResizedSelected(strokes, sc, selectionBounds, newBounds), done, key);
    RestrictStep(NewStrokeBounds(strokes, sc, selectionBounds, newBounds), done, key);
  }

  /** Before the scan nothing is resized; after it, the arena and the collected bounds are the full resize. */
  lemma ResizeScanEnds(strokes: map<Key, Stroke>, sc: map<Key, bool>, selectionBounds: Aabb, newBounds: Aabb)
    requires NonDegenerate(selectionBounds)
    ensures ResizedStrokesOf(strokes, sc, selectionBounds, newBounds, {}) == strokes
    ensures NewStrokeBoundsOf(strokes, sc, selectionBounds, newBounds, {}) == map[]
    ensures ResizedStrokesOf(strokes, sc, selectionBounds, newBounds, strokes.Keys) ==
            ResizedStrokes(strokes, sc, selectionBounds, newBounds)
    ensures NewStrokeBoundsOf(strokes, sc, selectionBounds, newBounds, strokes.Keys) ==
            NewStrokeBounds(strokes, sc, selectionBounds, newBounds)
  {
    OverlayEnds(strokes, ResizedSelected(strokes, sc, selectionBounds, newBounds), {});
    OverlayEnds(strokes, ResizedSelected(strokes, sc, selectionBounds, newBounds), strokes.Keys);
    RestrictEnds(NewStrokeBounds(strokes, sc, selectionBounds, newBounds), {});
    RestrictEnds(NewStrokeBounds(strokes, sc, selectionBounds, newBounds), strokes.Keys);
  }

  /** The second phase of `resize_selection`: each listed render image takes its new bounds and is flagged. */
  function ResizeImages(render: map<Key, RenderComponent>, newStrokeBounds: map<Key, Aabb>): (r: map<Key, RenderComponent>)
    ensures r.Keys == render.Keys
  {
    map k | k in render ::
      if k in newStrokeBounds then render[k].(imageBounds := newStrokeBounds[k], regenerateFlag := true)
      else render[k]
  }

  /** The render components after `resize_selection`: image bounds follow the stroke, regeneration is requested. */
  function ResizedRender(render: map<Key, RenderComponent>, strokes: map<Key, Stroke>, sc: map<Key, bool>,
                         selectionBounds: Aabb, newBounds: Aabb): (r: map<Key, RenderComponent>)
    requires NonDegenerate(selectionBounds)
    ensures r.Keys == render.Keys
    ensures forall k :: k in render && k !in SelectedStrokeKeys(strokes, sc) ==> r[k] == render[k]
  {
    ResizeImages(render, NewStrokeBounds(strokes, sc, selectionBounds, newBounds))
  }

  // ---------------------------------------------------------------------
  // Group translate
  // ---------------------------------------------------------------------

  /** The strokes after `translate_selection(v)`: selected ones moved by `v`, the rest as they were. */
  function TranslatedStrokes(strokes: map<Key, Stroke>, sc: map<Key, bool>, v: Vec2): (r: map<Key, Stroke>)
    ensures r.Keys == strokes.Keys
    ensures forall k :: k in strokes && !IsSelected(sc, k) ==> r[k] == strokes[k]
    ensures forall k :: k in strokes ==> r[k].kind == strokes[k].kind && Extents(r[k].bounds) == Extents(strokes[k].bounds)
  {
    map k | k in strokes :: if IsSelected(sc, k) then TranslateStroke(strokes[k], v) else strokes[k]
  }

  /** The second phase of `translate_selection`: each listed render image moves by `v`. */
  function TranslateImages(render: map<Key, RenderComponent>, keys: set<Key>, v: Vec2): (r: map<Key, RenderComponent>)
    ensures r.Keys == render.Keys
  {
    map k | k in render ::
      if k in keys then render[k].(imageBounds := Translate(render[k].imageBounds, v)) else render[k]
  }

  /** The render components after `translate_selection(v)`: image bounds of moved strokes moved by `v`. */
  function TranslatedRender(render: map<Key, RenderComponent>, strokes: map<Key, Stroke>, sc: map<Key, bool>,
                            v: Vec2): (r: map<Key, RenderComponent>)
    ensures r.Keys == render.Keys
    ensures forall k :: k in render && k !in SelectedStrokeKeys(strokes, sc) ==> r[k] == render[k]
  {
    TranslateImages(render, SelectedStrokeKeys(strokes, sc), v)
  }

  // ---------------------------------------------------------------------
  // What the rules promise
  // ---------------------------------------------------------------------

  /** Widening the selector box never drops a stroke it selected. */
  lemma HitTestMonotone(small: Aabb, big: Aabb, s: Stroke)
    requires Contains(big, small) && HitTest(small, s)
    ensures HitTest(big, s)
  {
    if Contains(small, s.bounds) {
      ContainsTransitive(big, small, s.bounds);
    } else {
      assert IsFreehand(s.kind);
      IntersectsGrow(big, small, s.bounds);
      forall h | h in s.hitbox
        ensures Contains(big, h)
      {
        ContainsTransitive(big, small, h);
      }
    }
  }

  /** A stroke with well-formed bounds is only selected by a selector box that touches it. */
  lemma HitTestTouches(sel: Aabb, s: Stroke)
    requires WellFormed(s.bounds) && HitTest(sel, s)
    ensures Intersects(sel, s.bounds)
  {
    if Contains(sel, s.bounds) {
      ContainsIntersects(sel, s.bounds);
    }
  }

  /** Every stroke the pass stamps ends selected. */
  lemma StampedEndsSelected(sc: map<Key, bool>, chrono: map<Key, int>, strokes: map<Key, Stroke>,
                            render: map<Key, RenderComponent>, trash: map<Key, bool>,
                            sel: Aabb, viewport: Option<Aabb>, k: Key)
    requires k in StampSet(sc, chrono, strokes, render, trash, sel, viewport)
    ensures IsSelected(SelectorPass(sc, strokes, render, trash, sel, viewport), k)
  {
  }

  /** Translating the selection by `v` and then by `-v` gives back every stroke. */
  lemma TranslatedStrokesInverse(strokes: map<Key, Stroke>, sc: map<Key, bool>, v: Vec2)
    ensures TranslatedStrokes(TranslatedStrokes(strokes, sc, v), sc, Neg(v)) == strokes
  {
    var there := TranslatedStrokes(strokes, sc, v);
    var back := TranslatedStrokes(there, sc, Neg(v));
    forall k | k in strokes
      ensures back[k] == strokes[k]
    {
      if IsSelected(sc, k) {
        TranslateStrokeInverse(strokes[k], v);
      }
    }
  }

  /** Translating by `v` and then by `-v` gives back every render component. */
  lemma TranslatedRenderInverse(render: map<Key, RenderComponent>, strokes: map<Key, Stroke>,
                                sc: map<Key, bool>, v: Vec2)
    ensures TranslatedRender(TranslatedRender(render, strokes, sc, v), TranslatedStrokes(strokes, sc, v), sc, Neg(v))
            == render
  {
    var there := TranslatedRender(render, strokes, sc, v);
    var back := TranslatedRender(there, TranslatedStrokes(strokes, sc, v), sc, Neg(v));
    forall k | k in render
      ensures back[k] == render[k]
    {
      if k in strokes && IsSelected(sc, k) {
        TranslateInverse(render[k].imageBounds, v);
      }
    }
  }

  /** Translating the selected strokes moves the union of their bounds by the same vector. */
  lemma TranslatedSelectionBounds(strokes: map<Key, Stroke>, sc: map<Key, bool>, v: Vec2)
    ensures GenBounds(TranslatedStrokes(strokes, sc, v), SelectedKeys(sc))
            == TranslateOpt(GenBounds(strokes, SelectedKeys(sc)), v)
  {
    GenBoundsTranslate(strokes, TranslatedStrokes(strokes, sc, v), SelectedKeys(sc), v);
  }

  /** The table giving every key of `keys` the value `v`. */
  function ConstantMap<V>(keys: set<Key>, v: V): (r: map<Key, V>)
    ensures r.Keys == keys
  {
    if keys == {} then map[] else map k | k in keys :: v
  }

  /** The render component `insert_stroke` gives a stroke: rendered, imaged at its bounds, regeneration pending. */
  function DefaultRender(stroke: Stroke): (r: RenderComponent)
    ensures r.render && r.regenerateFlag && r.imageBounds == stroke.bounds
  {
    RenderComponent(true, stroke.bounds, true)
  }

  /** The group box itself is mapped exactly onto the new bounds. */
  lemma CalcNewStrokeBoundsOfGroup(selectionBounds: Aabb, newBounds: Aabb)
    requires NonDegenerate(selectionBounds)
    ensures CalcNewStrokeBounds(selectionBounds, selectionBounds, newBounds) == newBounds
  {
    var e := Extents(selectionBounds);
    var n := Extents(newBounds);
    assert e.x * (n.x / e.x) == n.x;
    assert e.y * (n.y / e.y) == n.y;
  }

  /**
   * The resize law without division: a resized stroke sits in the new
   * bounds at the same relative offset, and with the same relative extent,
   * as it sat in the old group bounds.
   */
  lemma ResizeKeepsProportions(strokeBounds: Aabb, selectionBounds: Aabb, newBounds: Aabb)
    requires NonDegenerate(selectionBounds)
    ensures var r := CalcNewStrokeBounds(strokeBounds, selectionBounds, newBounds);
      var e := Extents(selectionBounds);
      var n := Extents(newBounds);
      (r.mins.x - newBounds.mins.x) * e.x == (strokeBounds.mins.x - selectionBounds.mins.x) * n.x &&
      (r.mins.y - newBounds.mins.y) * e.y == (strokeBounds.mins.y - selectionBounds.mins.y) * n.y &&
      Extents(r).x * e.x == Extents(strokeBounds).x * n.x &&
      Extents(r).y * e.y == Extents(strokeBounds).y * n.y
  {
    var e := Extents(selectionBounds);
    var n := Extents(newBounds);
    assert (n.x / e.x) * e.x == n.x;
    assert (n.y / e.y) * e.y == n.y;
    var s := ScaleVector(selectionBounds, newBounds);
    assert ((strokeBounds.mins.x - selectionBounds.mins.x) * s.x) * e.x
        == (strokeBounds.mins.x - selectionBounds.mins.x) * (s.x * e.x);
    assert ((strokeBounds.mins.y - selectionBounds.mins.y) * s.y) * e.y
        == (strokeBounds.mins.y - selectionBounds.mins.y) * (s.y * e.y);
    assert (Extents(strokeBounds).x * s.x) * e.x == Extents(strokeBounds).x * (s.x * e.x);
    assert (Extents(strokeBounds).y * s.y) * e.y == Extents(strokeBounds).y * (s.y * e.y);
  }

  lemma AxisMapMin(a: real, b: real, from: real, scale: real, to: real)
    requires 0.0 <= scale
    ensures Min(AxisMap(a, from, scale, to), AxisMap(b, from, scale, to)) == AxisMap(Min(a, b), from, scale, to)
    ensures Max(AxisMap(a, from, scale, to), AxisMap(b, from, scale, to)) == AxisMap(Max(a, b), from, scale, to)
  {
    if a <= b {
      assert (b - from) * scale - (a - from) * scale == (b - a) * scale;
    } else {
      assert (a - from) * scale - (b - from) * scale == (a - b) * scale;
    }
  }

  /** A group map that does not flip an axis commutes with union. */
  lemma MergeResize(a: Aabb, b: Aabb, selectionBounds: Aabb, newBounds: Aabb)
    requires NonDegenerate(selectionBounds)
    requires 0.0 <= ScaleVector(selectionBounds, newBounds).x && 0.0 <= ScaleVector(selectionBounds, newBounds).y
    ensures Merge(CalcNewStrokeBounds(a, selectionBounds, newBounds), CalcNewStrokeBounds(b, selectionBounds, newBounds))
            == CalcNewStrokeBounds(Merge(a, b), selectionBounds, newBounds)
  {
    var s := ScaleVector(selectionBounds, newBounds);
    CalcNewStrokeBoundsCorners(a, selectionBounds, newBounds);
    CalcNewStrokeBoundsCorners(b, selectionBounds, newBounds);
    CalcNewStrokeBoundsCorners(Merge(a, b), selectionBounds, newBounds);
    AxisMapMin(a.mins.x, b.mins.x, selectionBounds.mins.x, s.x, newBounds.mins.x);
    AxisMapMin(a.mins.y, b.mins.y, selectionBounds.mins.y, s.y, newBounds.mins.y);
    AxisMapMin(a.maxs.x, b.maxs.x, selectionBounds.mins.x, s.x, newBounds.mins.x);
    AxisMapMin(a.maxs.y, b.maxs.y, selectionBounds.mins.y, s.y, newBounds.mins.y);
  }

  lemma {:induction false} GenBoundsResize(s1: map<Key, Stroke>, s2: map<Key, Stroke>, keys: set<Key>,
                                           selectionBounds: Aabb, newBounds: Aabb)
    requires NonDegenerate(selectionBounds)
    requires 0.0 <= ScaleVector(selectionBounds, newBounds).x && 0.0 <= ScaleVector(selectionBounds, newBounds).y
    requires forall k :: k in keys ==> (k in s1 <==> k in s2)
    requires forall k :: k in keys && k in s1 ==>
      s2[k].bounds == CalcNewStrokeBounds(s1[k].bounds, selectionBounds, newBounds)
    ensures GenBounds(s2, keys).Some? <==> GenBounds(s1, keys).Some?
    ensures GenBounds(s1, keys).Some? ==>
      GenBounds(s2, keys).value == CalcNewStrokeBounds(GenBounds(s1, keys).value, selectionBounds, newBounds)
    decreases keys
  {
    var present := keys * s1.Keys;
    assert present == keys * s2.Keys;
    if present != {} {
      var m := MinKey(present);
      GenBoundsResize(s1, s2, present - {m}, selectionBounds, newBounds);
      var rest := GenBounds(s1, present - {m});
      if rest.Some? {
        MergeResize(s1[m].bounds, rest.value, selectionBounds, newBounds);
      }
    }
  }

  /**
   * When the selection bounds are the union of the selected strokes and
   * both boxes are well-formed, the resized strokes have exactly the new
   * bounds as their union.
   */
  lemma ResizedSelectionBounds(strokes: map<Key, Stroke>, sc: map<Key, bool>, selectionBounds: Aabb, newBounds: Aabb)
    requires NonDegenerate(selectionBounds) && WellFormed(selectionBounds) && WellFormed(newBounds)
    requires GenBounds(strokes, SelectedKeys(sc)) == Some(selectionBounds)
    ensures GenBounds(ResizedStrokes(strokes, sc, selectionBounds, newBounds), SelectedKeys(sc)) == Some(newBounds)
  {
    var e := Extents(selectionBounds);
    var n := Extents(newBounds);
    assert 0.0 < e.x && 0.0 < e.y && 0.0 <= n.x && 0.0 <= n.y;
    assert 0.0 <= n.x / e.x && 0.0 <= n.y / e.y;
    GenBoundsResize(strokes, ResizedStrokes(strokes, sc, selectionBounds, newBounds), SelectedKeys(sc),
                    selectionBounds, newBounds);
    CalcNewStrokeBoundsOfGroup(selectionBounds, newBounds);
  }

  // ---------------------------------------------------------------------
  // Duplication
  // ---------------------------------------------------------------------

  /** One clone made by the loop of `duplicate_selection`: the key copied, the clone's key and the stroke copied. */
  datatype Clone = Clone(key: Key, newKey: Key, original: Stroke)

  /** The arena and the component tables that `duplicate_selection` changes, as one value. */
  datatype Components = Components(strokes: map<Key, Stroke>, selection: map<Key, bool>, trash: map<Key, bool>,
                                   render: map<Key, RenderComponent>, chrono: map<Key, int>, counter: int)

  /** No table of `a` holds `k`. */
  predicate Unused(a: Components, k: Key) {
    k !in a.strokes && k !in a.selection && k !in a.trash && k !in a.render && k !in a.chrono
  }

  /**
   * One clone as `duplicate_selection` makes it: `insert_stroke` puts the
   * copy under its key with a default render image, a visible trash flag
   * and a chrono stamp, `set_selected` selects it with a second stamp, and
   * the copy is moved by `v`.
   */
  function CloneOne(a: Components, cl: Clone, v: Vec2): Components {
    Components(a.strokes[cl.newKey := TranslateStroke(cl.original, v)], a.selection[cl.newKey := true],
               a.trash[cl.newKey := false], a.render[cl.newKey := DefaultRender(cl.original)],
               a.chrono[cl.newKey := a.counter + 2], a.counter + 2)
  }

  /** The components after the clones of `log`, made in that order from `a0`. */
  function Replay(a0: Components, log: seq<Clone>, v: Vec2): Components
    decreases |log|
  {
    if log == [] then a0 else CloneOne(Replay(a0, log[..|log| - 1], v), log[|log| - 1], v)
  }

  /** The keys copied by the clones of `log`. */
  function KeysOf(log: seq<Clone>): set<Key>
    decreases |log|
  {
    if log == [] then {} else KeysOf(log[..|log| - 1]) + {log[|log| - 1].key}
  }

  /**
   * The clones of `log` copy distinct strokes of `a0`, each as it is in
   * `a0`, and each clone's key was unused when it was made.
   */
  ghost predicate ValidLog(a0: Components, log: seq<Clone>, v: Vec2)
    decreases |log|
  {
    log == [] ||
    (var init, cl := log[..|log| - 1], log[|log| - 1];
     ValidLog(a0, init, v) && cl.key in a0.strokes && cl.key !in KeysOf(init) &&
     cl.original == a0.strokes[cl.key] && Unused(Replay(a0, init, v), cl.newKey))
  }

  /** Appending a clone to the log. */
  lemma LogSnoc(a0: Components, log: seq<Clone>, cl: Clone, v: Vec2)
    ensures Replay(a0, log + [cl], v) == CloneOne(Replay(a0, log, v), cl, v)
    ensures KeysOf(log + [cl]) == KeysOf(log) + {cl.key}
    ensures NewKeysOf(log + [cl]) == NewKeysOf(log) + {cl.newKey}
    ensures ValidLog(a0, log + [cl], v) <==>
      ValidLog(a0, log, v) && cl.key in a0.strokes && cl.key !in KeysOf(log) &&
      cl.original == a0.strokes[cl.key] && Unused(Replay(a0, log, v), cl.newKey)
  {
    assert (log + [cl])[..|log|] == log;
  }

  /** The keys of the clones of `log`. */
  function NewKeysOf(log: seq<Clone>): set<Key>
    decreases |log|
  {
    if log == [] then {} else NewKeysOf(log[..|log| - 1]) + {log[|log| - 1].newKey}
  }

  /** The clones add their own keys to the arena, none of them a key `a0` used, and two stamps each. */
  lemma {:induction false} ReplayKeys(a0: Components, log: seq<Clone>, v: Vec2)
    requires ValidLog(a0, log, v)
    ensures Replay(a0, log, v).strokes.Keys == a0.strokes.Keys + NewKeysOf(log)
    ensures forall i :: 0 <= i < |log| ==> Unused(a0, log[i].newKey)
    ensures Replay(a0, log, v).counter == a0.counter + 2 * |log|
    decreases |log|
  {
    if log != [] {
      var init := log[..|log| - 1];
      ReplayKeys(a0, init, v);
      forall i | 0 <= i < |log|
        ensures Unused(a0, log[i].newKey)
      {
        if i < |init| {
          assert log[i] == init[i];
        } else {
          ReplayKeepsEntry(a0, init, v, log[i].newKey);
        }
      }
    }
  }

  /** The clones leave every entry `a0` has under the key `k` as it was. */
  lemma {:induction false} ReplayKeepsEntry(a0: Components, log: seq<Clone>, v: Vec2, k: Key)
    requires ValidLog(a0, log, v)
    ensures var a := Replay(a0, log, v);
      (k in a0.strokes ==> k in a.strokes && a.strokes[k] == a0.strokes[k]) &&
      (k in a0.selection ==> k in a.selection && a.selection[k] == a0.selection[k]) &&
      (k in a0.trash ==> k in a.trash && a.trash[k] == a0.trash[k]) &&
      (k in a0.render ==> k in a.render && a.render[k] == a0.render[k]) &&
      (k in a0.chrono ==> k in a.chrono && a.chrono[k] == a0.chrono[k])
    decreases |log|
  {
    if log != [] {
      ReplayKeepsEntry(a0, log[..|log| - 1], v, k);
    }
  }

  /**
   * The `i`-th clone holds its original moved by `v`, selected, not
   * trashed, with the default render image of its original and the chrono
   * stamp `2 * (i + 1)` above the counter of `a0`.
   */
  lemma {:induction false} ReplayClone(a0: Components, log: seq<Clone>, v: Vec2, i: nat)
    requires ValidLog(a0, log, v) && i < |log|
    ensures var a, c := Replay(a0, log, v), log[i].newKey;
      c in a.strokes && a.strokes[c] == TranslateStroke(log[i].original, v) &&
      c in a.selection && a.selection[c] && c in a.trash && !a.trash[c] &&
      c in a.render && a.render[c] == DefaultRender(log[i].original) &&
      c in a.chrono && a.chrono[c] == a0.counter + 2 * (i + 1)
    decreases |log|
  {
    var init := log[..|log| - 1];
    ReplayKeys(a0, init, v);
    if i < |init| {
      assert log[i] == init[i];
      ReplayClone(a0, init, v, i);
    }
  }


  /** The `i`-th clone of a valid log copies a stroke of `a0` as it is there. */
  lemma {:induction false} LogEntry(a0: Components, log: seq<Clone>, v: Vec2, i: nat)
    requires ValidLog(a0, log, v) && i < |log|
    ensures log[i].key in a0.strokes && log[i].original == a0.strokes[log[i].key]
    ensures log[i].key in KeysOf(log) && log[i].newKey in NewKeysOf(log)
    decreases |log|
  {
    var init := log[..|log| - 1];
    if i < |init| {
      assert log[i] == init[i];
      LogEntry(a0, init, v, i);
    }
  }

  /** Two clones of a valid log copy different strokes under different keys. */
  lemma {:induction false} LogDistinct(a0: Components, log: seq<Clone>, v: Vec2, i: nat, j: nat)
    requires ValidLog(a0, log, v) && i < j < |log|
    ensures log[i].key != log[j].key && log[i].newKey != log[j].newKey
    decreases |log|
  {
    var init := log[..|log| - 1];
    assert log[i] == init[i];
    if j < |init| {
      assert log[j] == init[j];
      LogDistinct(a0, init, v, i, j);
    } else {
      LogEntry(a0, init, v, i);
      ReplayKeys(a0, init, v);
    }
  }

  /** Every stroke a valid log copies has its clone in the log. */
  lemma {:induction false} LogIndexOf(log: seq<Clone>, k: Key) returns (i: nat)
    requires k in KeysOf(log)
    ensures i < |log| && log[i].key == k
    decreases |log|
  {
    var init := log[..|log| - 1];
    if k in KeysOf(init) {
      i := LogIndexOf(init, k);
      assert log[i] == init[i];
    } else {
      i := |log| - 1;
    }
  }

  /** Every key a log adds belongs to one of its clones. */
  lemma {:induction false} LogIndexOfNew(log: seq<Clone>, c: Key) returns (i: nat)
    requires c in NewKeysOf(log)
    ensures i < |log| && log[i].newKey == c
    decreases |log|
  {
    var init := log[..|log| - 1];
    if c in NewKeysOf(init) {
      i := LogIndexOfNew(init, c);
      assert log[i] == init[i];
    } else {
      i := |log| - 1;
    }
  }

  /**
   * The components after `duplicate_selection` from the deselected state
   * `d`: the clones of `log` are made, and then the group translate moves
   * the selected strokes, that is the clones, and their render images by `v`.
   */
  function Duplicated(d: Components, log: seq<Clone>, v: Vec2): Components {
    var a := Replay(d, log, v);
    Components(TranslatedStrokes(a.strokes, a.selection, v), a.selection, a.trash,
               TranslatedRender(a.render, a.strokes, a.selection, v), a.chrono, a.counter)
  }

  /** The clones add their own keys to the selection table. */
  lemma {:induction false} ReplaySelectionKeys(a0: Components, log: seq<Clone>, v: Vec2)
    ensures Replay(a0, log, v).selection.Keys == a0.selection.Keys + NewKeysOf(log)
    decreases |log|
  {
    if log != [] {
      ReplaySelectionKeys(a0, log[..|log| - 1], v);
    }
  }

  /** Duplicating from a state with nothing selected selects exactly the clones. */
  lemma DuplicatedSelection(d: Components, log: seq<Clone>, v: Vec2)
    requires ValidLog(d, log, v) && SelectedKeys(d.selection) == {}
    ensures SelectedKeys(Duplicated(d, log, v).selection) == NewKeysOf(log)
  {
    var a := Replay(d, log, v);
    ReplaySelectionKeys(d, log, v);
    forall c | c in NewKeysOf(log)
      ensures IsSelected(a.selection, c)
    {
      var i := LogIndexOfNew(log, c);
      ReplayClone(d, log, v, i);
    }
    forall k | IsSelected(a.selection, k)
      ensures k in NewKeysOf(log)
    {
      ReplayKeepsEntry(d, log, v, k);
      assert k !in SelectedKeys(d.selection);
    }
  }

  /**
   * Duplicating from a state with nothing selected leaves the original
   * strokes and their render images where they were, and adds exactly the
   * clones' keys to the arena.
   */
  lemma DuplicatedArena(d: Components, log: seq<Clone>, v: Vec2)
    requires ValidLog(d, log, v) && SelectedKeys(d.selection) == {}
    ensures var a := Duplicated(d, log, v);
      a.strokes.Keys == d.strokes.Keys + NewKeysOf(log) &&
      (forall k :: k in d.strokes ==> a.strokes[k] == d.strokes[k]) &&
      (forall k :: k in d.render ==> k in a.render && a.render[k] == d.render[k])
  {
    var a := Replay(d, log, v);
    ReplayKeys(d, log, v);
    DuplicatedSelection(d, log, v);
    forall k | k in d.strokes || k in d.render
      ensures k !in NewKeysOf(log)
      ensures k in d.strokes ==> k in a.strokes && a.strokes[k] == d.strokes[k]
      ensures k in d.render ==> k in a.render && a.render[k] == d.render[k]
    {
      ReplayKeepsEntry(d, log, v, k);
      if k in NewKeysOf(log) {
        var i := LogIndexOfNew(log, k);
      }
    }
  }

  /**
   * Duplicating leaves the originals unselected, keeps their trash flags
   * and chrono stamps, and raises the counter by two stamps per clone.
   */
  lemma DuplicatedKeepsOld(d: Components, log: seq<Clone>, v: Vec2)
    requires ValidLog(d, log, v) && SelectedKeys(d.selection) == {}
    ensures var a := Duplicated(d, log, v);
      (forall k :: k in d.selection ==> k in a.selection && !a.selection[k]) &&
      (forall k :: k in d.trash ==> k in a.trash && a.trash[k] == d.trash[k]) &&
      (forall k :: k in d.chrono ==> k in a.chrono && a.chrono[k] == d.chrono[k]) &&
      a.counter == d.counter + 2 * |log|
  {
    ReplayKeys(d, log, v);
    forall k
      ensures var a := Replay(d, log, v);
        (k in d.selection ==> k in a.selection && !a.selection[k]) &&
        (k in d.trash ==> k in a.trash && a.trash[k] == d.trash[k]) &&
        (k in d.chrono ==> k in a.chrono && a.chrono[k] == d.chrono[k])
    {
      ReplayKeepsEntry(d, log, v, k);
      assert k in d.selection ==> k !in SelectedKeys(d.selection);
    }
  }

  /**
   * The `i`-th clone after duplicating: its original moved twice by `v`,
   * selected, not trashed, rendered at its original's bounds moved once by
   * `v` with regeneration pending, and stamped `2 * (i + 1)` above the
   * counter of `d`.
   */
  lemma DuplicatedClone(d: Components, log: seq<Clone>, v: Vec2, i: nat)
    requires ValidLog(d, log, v) && i < |log|
    ensures var a, c, s := Duplicated(d, log, v), log[i].newKey, log[i].original;
      c in a.strokes && a.strokes[c] == TranslateStroke(TranslateStroke(s, v), v) &&
      a.strokes[c].bounds == Translate(s.bounds, Add(v, v)) &&
      c in a.selection && a.selection[c] && c in a.trash && !a.trash[c] &&
      c in a.render && a.render[c] == RenderComponent(true, Translate(s.bounds, v), true) &&
      c in a.chrono && a.chrono[c] == d.counter + 2 * (i + 1)
  {
    ReplayClone(d, log, v, i);
    TranslateTwice(log[i].original.bounds, v, v);
  }
}
