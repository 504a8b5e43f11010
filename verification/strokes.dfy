/**
 * The strokes the selection engine works on, and the two collaborators of
 * the strokes state that live outside selection_comp.rs: `gen_bounds`
 * (union of the bounds of some keys) and the stroke-local translate.
 */
module Strokes {
  import opened Options
  import opened Geometry

  /** Arena key of a stroke; keys are handed out in increasing order and never reused. */
  type Key = nat

  datatype StrokeKind = Marker | Brush | Shape | VectorImage | BitmapImage

  /** Marker and brush strokes carry a hitbox that follows their ink. */
  predicate IsFreehand(kind: StrokeKind) {
    kind.Marker? || kind.Brush?
  }

  /** A stroke as the selection engine sees it: its variant, its bounds and its hitbox. */
  datatype Stroke = Stroke(kind: StrokeKind, bounds: Aabb, hitbox: seq<Aabb>)

  /** The part of a render component the selection engine reads or writes. */
  datatype RenderComponent = RenderComponent(render: bool, imageBounds: Aabb, regenerateFlag: bool)

  function TranslateBoxes(boxes: seq<Aabb>, v: Vec2): (r: seq<Aabb>)
    ensures |r| == |boxes|
    ensures forall i :: 0 <= i < |boxes| ==> r[i] == Translate(boxes[i], v)
  {
    if boxes == [] then [] else [Translate(boxes[0], v)] + TranslateBoxes(boxes[1..], v)
  }

  /** `stroke.translate(offset)`: bounds and every hitbox element move by `v`, nothing else changes. */
  function TranslateStroke(s: Stroke, v: Vec2): (r: Stroke)
    ensures r.kind == s.kind && r.bounds == Translate(s.bounds, v)
    ensures |r.hitbox| == |s.hitbox|
  {
    s.(bounds := Translate(s.bounds, v), hitbox := TranslateBoxes(s.hitbox, v))
  }

  lemma {:induction false} TranslateBoxesInverse(boxes: seq<Aabb>, v: Vec2)
    ensures TranslateBoxes(TranslateBoxes(boxes, v), Neg(v)) == boxes
  {
    if boxes != [] {
      TranslateBoxesInverse(boxes[1..], v);
      TranslateInverse(boxes[0], v);
      assert TranslateBoxes(boxes, v)[1..] == TranslateBoxes(boxes[1..], v);
    }
  }

  /** Moving a stroke by `v` and back by `-v` gives the stroke back. */
  lemma TranslateStrokeInverse(s: Stroke, v: Vec2)
    ensures TranslateStroke(TranslateStroke(s, v), Neg(v)) == s
  {
    TranslateBoxesInverse(s.hitbox, v);
    TranslateInverse(s.bounds, v);
  }

  lemma SmallestKey(s: set<Key>) returns (m: Key)
    requires s != {}
    ensures m in s && forall j :: j in s ==> m <= j
    decreases s
  {
    var x :| x in s;
    if s == {x} {
      m := x;
    } else {
      var rest := SmallestKey(s - {x});
      m := if x < rest then x else rest;
      forall j | j in s
        ensures m <= j
      {
        if j != x { assert j in s - {x}; }
      }
    }
  }

  lemma MinKeyExists(s: set<Key>)
    requires s != {}
    ensures exists k :: k in s && forall j :: j in s ==> k <= j
  {
    var m := SmallestKey(s);
  }

  /** The smallest key of a nonempty key set. */
  function MinKey(s: set<Key>): (k: Key)
    requires s != {}
    ensures k in s && forall j :: j in s ==> k <= j
  {
    MinKeyExists(s);
    var k :| k in s && forall j :: j in s ==> k <= j;
    k
  }

  /**
   * A key above every key of `used`. The arena hands out keys that no
   * table uses; this is one such key.
   */
  function FreshKey(used: set<Key>): (k: Key)
    ensures k !in used
    ensures forall j :: j in used ==> j < k
    decreases used
  {
    if used == {} then 0
    else
      var m := MinKey(used);
      var r := FreshKey(used - {m});
      assert forall j :: j in used ==> j == m || j in used - {m};
      if m < r then r else m + 1
  }

  /**
   * `gen_bounds(keys)`: the union of the bounds of those of `keys` that
   * name a stroke, or None when none does. The keys are merged smallest
   * first; the lemmas below show that the result is the least box holding
   * every such stroke, whatever the order.
   */
  function GenBounds(strokes: map<Key, Stroke>, keys: set<Key>): (r: Option<Aabb>)
    ensures r.None? <==> keys * strokes.Keys == {}
    decreases keys
  {
    var present := keys * strokes.Keys;
    if present == {} then None
    else
      var k := MinKey(present);
      var rest := GenBounds(strokes, present - {k});
      Some(if rest.None? then strokes[k].bounds else Merge(strokes[k].bounds, rest.value))
  }

  /** Every stroke named by `keys` lies inside the generated bounds. */
  lemma {:induction false} GenBoundsCovers(strokes: map<Key, Stroke>, keys: set<Key>, k: Key)
    requires k in keys && k in strokes
    ensures GenBounds(strokes, keys).Some?
    ensures Contains(GenBounds(strokes, keys).value, strokes[k].bounds)
    decreases keys
  {
    var present := keys * strokes.Keys;
    var m := MinKey(present);
    if k != m {
      GenBoundsCovers(strokes, present - {m}, k);
    }
  }

  /** Any box holding every stroke named by `keys` holds the generated bounds. */
  lemma {:induction false} GenBoundsLeast(strokes: map<Key, Stroke>, keys: set<Key>, c: Aabb)
    requires forall k :: k in keys && k in strokes ==> Contains(c, strokes[k].bounds)
    requires GenBounds(strokes, keys).Some?
    ensures Contains(c, GenBounds(strokes, keys).value)
    decreases keys
  {
    var present := keys * strokes.Keys;
    var m := MinKey(present);
    if GenBounds(strokes, present - {m}).Some? {
      GenBoundsLeast(strokes, present - {m}, c);
    }
  }

  /** The generated bounds only depend on the bounds of the strokes named by `keys`. */
  lemma {:induction false} GenBoundsFrame(s1: map<Key, Stroke>, s2: map<Key, Stroke>, keys: set<Key>)
    requires forall k :: k in keys ==> (k in s1 <==> k in s2)
    requires forall k :: k in keys && k in s1 ==> s1[k].bounds == s2[k].bounds
    ensures GenBounds(s1, keys) == GenBounds(s2, keys)
    decreases keys
  {
    var present := keys * s1.Keys;
    assert present == keys * s2.Keys;
    if present != {} {
      var m := MinKey(present);
      GenBoundsFrame(s1, s2, present - {m});
    }
  }

  /** Moving every stroke named by `keys` by `v` moves their union by `v`. */
  lemma {:induction false} GenBoundsTranslate(s1: map<Key, Stroke>, s2: map<Key, Stroke>, keys: set<Key>, v: Vec2)
    requires forall k :: k in keys ==> (k in s1 <==> k in s2)
    requires forall k :: k in keys && k in s1 ==> s2[k].bounds == Translate(s1[k].bounds, v)
    ensures GenBounds(s2, keys) == TranslateOpt(GenBounds(s1, keys), v)
    decreases keys
  {
    var present := keys * s1.Keys;
    assert present == keys * s2.Keys;
    if present != {} {
      var m := MinKey(present);
      GenBoundsTranslate(s1, s2, present - {m}, v);
      var rest := GenBounds(s1, present - {m});
      if rest.Some? {
        MergeTranslate(s1[m].bounds, rest.value, v);
      }
    }
  }
}
