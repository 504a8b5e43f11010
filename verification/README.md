# rnote selection engine in Dafny

This project models the selection engine of rnote's strokes state
(`src/strokes/selection_comp.rs`). The canvas state is the class
`SelectionComp.StrokesState`. It holds these fields:

- the stroke arena;
- the selection, chrono, render and trash component tables;
- the chrono counter;
- the optional selection bounds.

The engine's operations are methods on that class:

- queries: `can_select`, `selected`, `keys_selection`, `selection_len`;
- state changes: `set_selected`, `deselect_all_strokes`, `update_selection_bounds`;
- the selector hit test: `update_selection_for_selector`;
- group transforms: `resize_selection` with `calc_new_stroke_bounds`, `translate_selection`, `duplicate_selection`.

Each method is proved against value-level specification functions in
`SelectionRules`: the selector pass, the chrono stamping, and the resize and
translate maps. The lemmas there state what the rules promise. Examples are
a translate round trip, the bounds of a resized group mapping exactly onto
the new bounds, and every stamp being fresh.

Modules and files:

- `options.dfy` (`Options`): the optional value.
- `tables.dfy` (`Tables`): a table part-way through a scan over its keys.
  The decided entries are taken over for the keys already visited.
- `geometry.dfy` (`Geometry`): vectors and axis-aligned boxes with `real`
  coordinates. `contains` and `intersects` are inclusive. It also has
  union and translate.
- `strokes.dfy` (`Strokes`): the stroke variants, bounds and hitboxes, the
  stroke-local translate, and `gen_bounds` (the union of the bounds of a
  key set, or None).
- `selection_rules.dfy` (`SelectionRules`): the pure rules and their lemmas.
- `selection_comp.dfy` (`SelectionComp`): the class and its methods.
- `selection_scenarios.dfy` (`SelectionScenarios`): concrete runs. These
  include the count-comparison finding below and a client-level translate
  round trip.

Assumptions about collaborators whose code is not part of this model:

- `gen_bounds`, the AABB `contains`/`intersects`/`merge` and
  `aabb_translate` have their usual meaning. The original hands
  `gen_bounds` the keys of `keys_selection()` in scan order; the model
  picks the order itself and merges the keys smallest first.
  `GenBoundsCovers` and `GenBoundsLeast` show the result is the least box
  holding every named stroke, so the order does not change it.
- `insert_stroke` hands out a key that no table uses yet. It gives the stroke these
  default components: unselected, not trashed, rendered with its own
  bounds and a pending regeneration, and a chrono stamp from the
  incremented counter.
- `stroke.resize(bounds)` gives the stroke the new bounds and carries
  every hitbox element by the same group map. `stroke.translate(v)`
  shifts the bounds and every hitbox element.

Scans over a component table are sequential loops that visit the keys in an
order the model leaves open. Where that order shows (which key gets which
chrono stamp), the methods return a ghost `order` and
`SelectionRules.StampedInOrder` describes the stamps in that order.
The selector scan (`SelectionComp.ScanSelector`) works on the three tables
it changes: the flags, the chrono stamps and the counter. `ApplySelector`
writes the results back into the state.

`deselect_all_strokes` stamps a chrono value on every stroke that has both
a selection and a chrono component, whether it was selected or not: the loop
at `src/strokes/selection_comp.rs:96-105` does not test the flag before it
stamps. The model does the same.

`duplicate_selection` is modelled through a ghost log of the clones it
makes, in the order it makes them (`SelectionRules.Clone`). `Replay` folds
the single-clone step `CloneOne` over that log, and `Duplicated` adds the
group translate at the end. The lemmas about `Replay` and `Duplicated` state
the resulting tables entry by entry.

## Model

| member | source | states |
|---|---|---|
| Strokes.GenBounds | src/strokes/selection_comp.rs:91-93 | the union is None exactly when none of the keys names a stroke of the arena |
| Strokes.GenBoundsCovers | src/strokes/selection_comp.rs:91-93 | every named stroke's bounds lie inside the generated bounds |
| Strokes.GenBoundsLeast | src/strokes/selection_comp.rs:91-93 | any box holding every named stroke holds the generated bounds, so they are the least such box |
| Strokes.GenBoundsFrame | src/strokes/selection_comp.rs:91-93 | the union depends only on the bounds of the named strokes |
| Strokes.GenBoundsTranslate | src/strokes/selection_comp.rs:91-93 | moving every named stroke by v moves the union by v |
| Strokes.TranslateStroke | src/strokes/selection_comp.rs:124-125 | a translated stroke keeps its variant and hitbox length, and its bounds move by v |
| Strokes.TranslateBoxes | src/strokes/selection_comp.rs:124-125 | every hitbox element moves by v and the length is kept |
| Strokes.TranslateStrokeInverse | src/strokes/selection_comp.rs:316-330 | moving a stroke by v and then by -v gives the stroke back |
| Geometry.TranslateOpt | src/strokes/selection_comp.rs:341-345 | optional bounds stay present exactly when they were present |
| Geometry.Translate | src/strokes/selection_comp.rs:333-334 | a translated box keeps its extents |
| Geometry.Merge | src/strokes/selection_comp.rs:91-93 | the merged box holds both boxes and lies inside any box holding both |
| Geometry.TranslateTwice | src/strokes/selection_comp.rs:124-128 | moving by u and then by v is moving by u + v |
| Strokes.FreshKey | src/strokes/selection_comp.rs:120 | the key handed out is used by no table, and is above every key in use |
| SelectionRules.SelectedKeysSet | src/strokes/selection_comp.rs:51-70 | setting a key's flag adds exactly that key to the selected keys |
| SelectionRules.SelectedKeys | src/strokes/selection_comp.rs:72-85 | the keys collected are exactly those whose selection flag is set |
| SelectionRules.HitTestStroke | src/strokes/selection_comp.rs:161-230 | shapes and images are selected iff the selector contains their bounds; marker and brush strokes iff it contains them, or touches them and contains every hitbox element (vacuous for an empty hitbox); a stamp is due on the hitbox branch and on the shape and image branches, never for a fully contained marker or brush stroke |
| SelectionRules.SelectorPass | src/strokes/selection_comp.rs:145-232 | the pass keeps the table's keys, and hidden strokes, strokes outside the viewport and strokes missing from the arena keep their flag |
| SelectionRules.SelectorDecisions | src/strokes/selection_comp.rs:145-161 | the pass decides about exactly the eligible strokes that have a selection component |
| SelectionRules.SelectorPassOf | src/strokes/selection_comp.rs:145-232 | part-way through the scan the flags table keeps its keys |
| SelectionRules.SelectorPassStep | src/strokes/selection_comp.rs:145-232 | deciding one more stroke changes at most its own flag, to the hit test when it is eligible |
| SelectionRules.StampSetStep | src/strokes/selection_comp.rs:177-227 | deciding one more stroke adds it to the stamped strokes exactly when the rules stamp it |
| SelectionRules.SelectorScanStart | src/strokes/selection_comp.rs:145-232 | before the scan nothing is decided and nothing is stamped |
| SelectionRules.SelectorScanStep | src/strokes/selection_comp.rs:145-231 | one stroke through the per-stroke step carries the scan invariant from the visited keys to one more key |
| SelectionRules.SelectorScanEnd | src/strokes/selection_comp.rs:145-232 | after every stroke is visited the flags are the selector pass and the stamps are exactly the stamp set, in scan order |
| SelectionRules.StampSet | src/strokes/selection_comp.rs:177-227 | only strokes with both a chrono and a selection component are stamped |
| SelectionRules.StampStep | src/strokes/selection_comp.rs:177-180 | one more stamp on an unstamped key extends an in-order stamping by one counter step |
| SelectionRules.StampsDistinct | src/strokes/selection_comp.rs:177-180 | every stamp lies above the old counter and at most at the new counter, and no two stamped strokes share a value |
| SelectionRules.StampedEndsSelected | src/strokes/selection_comp.rs:177-227 | every stroke the pass stamps ends selected |
| SelectionRules.HitTestMonotone | src/strokes/selection_comp.rs:161-230 | a larger selector box never drops a stroke a smaller one selected |
| SelectionRules.HitTestTouches | src/strokes/selection_comp.rs:161-230 | a selected stroke with well-formed bounds touches the selector box |
| SelectionRules.CalcNewStrokeBoundsCorners | src/strokes/selection_comp.rs:245-280 | the new corners are (corner - B.min) * scale + N.min on each axis, and the new extent is the old extent times the scale |
| SelectionRules.AxisMapDistributes | src/strokes/selection_comp.rs:269-278 | the maximum computed from min plus scaled extent equals the group map of the old maximum |
| SelectionRules.CalcNewStrokeBoundsOfGroup | src/strokes/selection_comp.rs:245-280 | a stroke whose bounds equal the selection bounds B maps exactly onto the new bounds N when B has nonzero extents |
| SelectionRules.ResizeKeepsProportions | src/strokes/selection_comp.rs:245-280 | a resized stroke keeps its offset and extent relative to the group box, stated without division |
| SelectionRules.ResizeBoxes | src/strokes/selection_comp.rs:291 | every hitbox element is mapped by the same group map and the length is kept |
| SelectionRules.ResizeStroke | src/strokes/selection_comp.rs:291 | a resized stroke keeps its variant and hitbox length |
| SelectionRules.ResizedStrokes | src/strokes/selection_comp.rs:284-297 | the arena keeps its keys; unselected strokes are unchanged and every stroke keeps its variant |
| SelectionRules.ResizedSelected | src/strokes/selection_comp.rs:284-297 | resized strokes are given for exactly the selected strokes of the arena |
| SelectionRules.ResizedStrokesOf | src/strokes/selection_comp.rs:284-297 | part-way through the resize scan the arena keeps its keys |
| SelectionRules.NewStrokeBoundsOf | src/strokes/selection_comp.rs:284-297 | part-way through the resize scan only strokes of the arena have collected bounds |
| SelectionRules.ResizeScanStep | src/strokes/selection_comp.rs:284-297 | one more key of the scan resizes that stroke and records its new bounds exactly when it is selected |
| SelectionRules.ResizeScanEnds | src/strokes/selection_comp.rs:284-297 | before the scan nothing is resized; after every key the arena and the collected bounds are the full resize |
| SelectionRules.NewStrokeBounds | src/strokes/selection_comp.rs:284-297 | new bounds are collected for exactly the selected strokes of the arena |
| SelectionRules.ResizeImages | src/strokes/selection_comp.rs:299-308 | the render table keeps its keys |
| SelectionRules.ResizedRender | src/strokes/selection_comp.rs:282-311 | render components of strokes that are not selected are unchanged |
| SelectionRules.MergeResize | src/strokes/selection_comp.rs:245-280 | a group map that does not flip an axis commutes with the union of two boxes |
| SelectionRules.GenBoundsResize | src/strokes/selection_comp.rs:282-311 | resizing every named stroke resizes their union by the same map |
| SelectionRules.ResizedSelectionBounds | src/strokes/selection_comp.rs:282-311 | when the selection bounds are the union of the selected strokes, the resized strokes have exactly the new bounds as their union |
| SelectionRules.SelectedStrokeKeys | src/strokes/selection_comp.rs:320-330 | the strokes acted on are exactly the arena's selected strokes |
| SelectionRules.TranslatedStrokes | src/strokes/selection_comp.rs:317-330 | the arena keeps its keys; unselected strokes are unchanged; every stroke keeps its variant and extents |
| SelectionRules.TranslateImages | src/strokes/selection_comp.rs:332-339 | the render table keeps its keys |
| SelectionRules.TranslatedRender | src/strokes/selection_comp.rs:316-339 | render components of strokes that are not selected are unchanged |
| SelectionRules.TranslatedStrokesInverse | src/strokes/selection_comp.rs:316-330 | translating the selection by v and then by -v restores every stroke |
| SelectionRules.TranslatedRenderInverse | src/strokes/selection_comp.rs:332-339 | translating by v and then by -v restores every render component |
| SelectionRules.TranslatedSelectionBounds | src/strokes/selection_comp.rs:341-345 | the union of the translated selected strokes is the old union moved by v, so shifting the selection bounds keeps them exact |
| SelectionRules.LogSnoc | src/strokes/selection_comp.rs:119-126 | one more clone at the end of the log is one more clone step on the tables, and the log stays valid exactly when that clone copies an uncopied stroke of the start state under a key no table holds |
| SelectionRules.ReplayKeys | src/strokes/selection_comp.rs:119-126 | after the clones the arena holds the old keys plus the clones' keys, no clone reuses a key of any old table, and the counter grew by two per clone |
| SelectionRules.ReplaySelectionKeys | src/strokes/selection_comp.rs:119-126 | the clones add their own keys to the selection table and nothing else |
| SelectionRules.ReplayKeepsEntry | src/strokes/selection_comp.rs:119-126 | every entry any table held before the clones is left as it was |
| SelectionRules.ReplayClone | src/strokes/selection_comp.rs:119-126 | the i-th clone holds its original moved once by the offset, is selected and not trashed, has the default render image of its original, and is stamped 2(i+1) above the counter before the loop |
| SelectionRules.LogEntry | src/strokes/selection_comp.rs:119-120 | each clone copies a stroke of the arena as it was before the loop |
| SelectionRules.LogDistinct | src/strokes/selection_comp.rs:119-120 | two clones copy different strokes and get different keys |
| SelectionRules.LogIndexOf | src/strokes/selection_comp.rs:119-120 | every stroke the log copies has a clone in it |
| SelectionRules.LogIndexOfNew | src/strokes/selection_comp.rs:119-120 | every key the log adds belongs to one of its clones |
| SelectionRules.DuplicatedSelection | src/strokes/selection_comp.rs:110-130 | duplicating from a state with nothing selected selects exactly the clones |
| SelectionRules.DuplicatedArena | src/strokes/selection_comp.rs:110-130 | the originals keep their strokes and render images, and the arena gains exactly the clones' keys |
| SelectionRules.DuplicatedKeepsOld | src/strokes/selection_comp.rs:110-130 | the originals stay unselected and keep their trash flags and chrono stamps; the counter grows by two per clone |
| SelectionRules.DuplicatedClone | src/strokes/selection_comp.rs:110-130 | the i-th clone ends as its original moved twice by the offset, selected, not trashed, imaged at the original's bounds moved once with regeneration pending, and stamped 2(i+1) above the counter after deselection |
| SelectionRules.DuplicationOffset | src/strokes/selection_comp.rs:25-26 | the duplication offset is (20, 20) |
| SelectionRules.HitTest | src/strokes/selection_comp.rs:165-230 | a stroke whose bounds the selector contains is always selected, whatever its variant |
| SelectionRules.StampsChrono | src/strokes/selection_comp.rs:165-230 | a stroke is stamped only when it is selected |
| SelectionRules.CalcNewStrokeBounds | src/strokes/selection_comp.rs:245-280 | the new minimum corner lies at the old offset from the group's corner, scaled per axis, from the new group's corner |
| Geometry.Contains | src/strokes/selection_comp.rs:167-171 | a box contains only boxes no wider and no taller than itself |
| Geometry.Intersects | src/strokes/selection_comp.rs:157-169 | for well-formed boxes, the boxes intersect exactly when their ranges overlap on both axes |
| SelectionComp.StrokesState.BoundsConsistent | src/strokes/selection_comp.rs:91-93 | when the invariant holds, the selection bounds are absent exactly when no selected key names a stroke |
| SelectionComp.StrokesState.CanSelect | src/strokes/selection_comp.rs:34-37 | selecting is supported exactly when `selected` returns a value |
| SelectionComp.StrokesState.Selected | src/strokes/selection_comp.rs:39-49 | Some(true) exactly for selected keys, Some(false) exactly for keys with an unset selection component, None otherwise |
| SelectionComp.StrokesState.KeysSelection | src/strokes/selection_comp.rs:72-85 | exactly the keys whose selection component is set |
| SelectionComp.StrokesState.SelectionLen | src/strokes/selection_comp.rs:87-89 | at most the number of selection components, and zero exactly when no flag is set |
| SelectionComp.StrokesState.SvgSelectionEnvelope | src/strokes/selection_comp.rs:348-383 | the export envelope is None exactly when there are no selection bounds; otherwise it sits at the origin with the selection's extents |
| SelectionComp.StrokesState.InsertStroke | src/strokes/selection_comp.rs:120 | a fresh key with default components and a new chrono stamp; the selection and its bounds stay valid |
| SelectionComp.StrokesState.UpdateSelectionBounds | src/strokes/selection_comp.rs:91-93 | the selection bounds become the union of the selected strokes' bounds |
| SelectionComp.StrokesState.SetSelected | src/strokes/selection_comp.rs:51-70 | nothing changes without a selection component; otherwise the flag is set, the counter grows by one and stamps the key only when selecting a key with a chrono component, and the selection bounds are recomputed |
| SelectionComp.StrokesState.DeselectAllStrokes | src/strokes/selection_comp.rs:95-108 | no key stays selected and the bounds are None; exactly the keys with both a selection and a chrono component are stamped, one counter step each |
| SelectionComp.SelectStroke | src/strokes/selection_comp.rs:145-231 | one stroke of the pass: skipped strokes are untouched; otherwise the flag becomes the hit test and the stroke is stamped exactly when the rules ask for it and it has a chrono component |
| SelectionComp.ScanSelector | src/strokes/selection_comp.rs:145-232 | a scan over every stroke gives exactly the selector pass, and stamps exactly the stamp set in scan order |
| SelectionComp.StrokesState.ApplySelector | src/strokes/selection_comp.rs:145-232 | the flags become the selector pass, and exactly the stamp set is stamped in scan order |
| SelectionComp.StrokesState.UpdateSelectionForSelector | src/strokes/selection_comp.rs:132-241 | without selector bounds it returns false and changes nothing; otherwise it runs the pass and returns true exactly when the selected count changed; only then are the bounds recomputed, and otherwise they are kept as they were |
| SelectionComp.StrokesState.UpdateSelectionForSelectorByMembership | src/strokes/selection_comp.rs:132-241 | without selector bounds nothing changes; otherwise the flags become the selector pass and exactly the stamp set is stamped in scan order; it reports a change exactly when the set of selected keys changed; the bounds are recomputed on a change and kept otherwise, so exact bounds stay exact |
| SelectionComp.StrokesState.ResizeSelectedStrokes | src/strokes/selection_comp.rs:283-297 | the selected strokes are resized, and their new bounds are collected |
| SelectionComp.StrokesState.ApplyNewImageBounds | src/strokes/selection_comp.rs:299-308 | the collected bounds go to the render images, which are flagged for regeneration |
| SelectionComp.StrokesState.ResizeSelection | src/strokes/selection_comp.rs:243-312 | without selection bounds nothing changes; otherwise selected strokes and their images are resized, unselected ones are kept, and the bounds become the new bounds; exact bounds stay exact for well-formed boxes |
| SelectionComp.StrokesState.TranslateSelectedStrokes | src/strokes/selection_comp.rs:317-330 | exactly the selected strokes move, and exactly their keys are returned |
| SelectionComp.StrokesState.TranslateImagesOf | src/strokes/selection_comp.rs:332-339 | the render images of the moved strokes move by the offset |
| SelectionComp.StrokesState.TranslateSelection | src/strokes/selection_comp.rs:315-346 | selected strokes, their images and the selection bounds move by the offset, nothing else changes, and exact bounds stay exact |
| SelectionComp.StrokesState.DuplicateStroke | src/strokes/selection_comp.rs:120-125 | the clone goes under a key no table held, and the tables become exactly one clone step: the clone is the original moved by the offset, selected, not trashed, with the default render image and two new chrono stamps; the selection bounds are recomputed while the clone still sits on its original |
| SelectionComp.StrokesState.CloneStrokes | src/strokes/selection_comp.rs:119-126 | the log copies every key of the selection exactly once, each from the arena as it was, under keys no table held, and the tables end as the log replayed on the start state |
| SelectionComp.StrokesState.DuplicateSelection | src/strokes/selection_comp.rs:110-130 | the deselection stamps exactly the keys with both a selection and a chrono component, in scan order; the log then copies each previously selected key once; the tables end as `Duplicated` of the deselected state, which the Duplicated lemmas spell out entry by entry; the selection bounds are exact |
| SelectionScenarios.SwapKeepsCountButMovesBounds | src/strokes/selection_comp.rs:234-240 | a selector swapping one selected stroke for another keeps the count but changes the union of the bounds |
| SelectionScenarios.StaleBoundsAfterSwap | src/strokes/selection_comp.rs:132-241 | in that scenario the as-written pass reports no change and leaves bounds that do not match the selection |
| SelectionScenarios.FreshBoundsAfterSwap | src/strokes/selection_comp.rs:132-241 | in the same scenario the membership-based pass reports the change and the bounds are exact |
| SelectionScenarios.TranslateRoundTrip | src/strokes/selection_comp.rs:315-346 | translating the selection by v and then by -v restores strokes, render images and selection bounds |

## Left out

- The `rayon` fan-out (`par_bridge`) is not modelled. Every scan is a sequential loop in an order the model leaves open.
- The GTK render-node rebuilds (`image_to_texturenode`, `upcast`) are not modelled. Only the writes of the image bounds and of `regenerate_flag` are.
- `regenerate_rendering_for_selection_threaded` is background rendering and is not modelled.
- `export_selection_as_svg` is not modelled: it is file I/O through gio.
- The markup built by `gen_svg_selection` is not modelled. It depends on `compose::wrap_svg` and on each stroke's `gen_svg_data`, which are not part of this model. `SvgSelectionEnvelope` only models the wrapper bounds and when the result is None.
- Coordinates are `real`, not `f64`. Rounding, infinities and NaN are not modelled.
- ResizeSelection: requires nonzero extents of the selection bounds, where the original divides by them unguarded.
- ResizeSelection: keeps exact bounds exact only for well-formed old and new bounds (min at most max). A negative extent flips an axis, and the union of flipped boxes is not the flipped union.
- DuplicateSelection: requires every selected key to name a stroke. The original unwraps the stroke it clones and panics otherwise.
- `log::warn!` calls are not modelled.
- The chrono counter is an unbounded integer. The original's fixed-width counter could wrap, which is not modelled.
- The bodies of `gen_bounds`, `insert_stroke`, `stroke.resize`, `stroke.translate` and the p2d box operations live in files that are not part of this model. They are defined here with the meaning stated above.
- CloneStrokes: does not state the selection bounds between clones. Each clone step recomputes them (see DuplicateStroke), and DuplicateSelection states them exact at the end.
- UpdateSelectionForSelector: modelled as written, so its bounds can go stale after a change that keeps the count; see Findings.

## Findings

| source | as written | input that shows it | evidently intended | confidence | as-written member | corrected member |
|---|---|---|---|---|---|---|
| src/strokes/selection_comp.rs:234-240 | a change is reported, and the selection bounds recomputed, only when the number of selected strokes differs from before | a unit shape at the origin is selected and a unit shape at (10, 10) is not; the selector is (9, 9)-(12, 12); one stroke is selected before and one after | report a change whenever the selection changes (the doc comment at line 132) and recompute the bounds then | not executed | SelectionScenarios.StaleBoundsAfterSwap | SelectionComp.StrokesState.UpdateSelectionForSelectorByMembership |
