/**
 * Bounds recalculation. The descriptor and cached bounds of an instance live in
 * its `Info`; the frame the formula is relative to comes from its parent's
 * `Info` (found through the `Link`), or from the canvas size when it has no
 * parent. The canvas size is passed in as `width` and `height`.
 */
module Placement {
  import opened Wrappers
  import opened Geometry
  import opened Arena

  /** The instance and, if it has one, its parent have an `Info`. */
  predicate FrameKnown(tree: Tree, attrs: Attrs, id: NodeId)
  {
    id in tree && id in attrs && (tree[id].parent.Some? ==> tree[id].parent.value in attrs)
  }

  /** The rectangle the formula is relative to: the parent's current bounds, or the canvas at the origin. */
  function Frame(tree: Tree, attrs: Attrs, id: NodeId, width: real, height: real): (r: Bounds)
    requires FrameKnown(tree, attrs, id)
    ensures tree[id].parent.None? ==> r.x == 0.0 && r.y == 0.0 && r.w == width && r.h == height
    ensures tree[id].parent.Some? ==> r == attrs[tree[id].parent.value].bounds
  {
    match tree[id].parent
    case None => Viewport(width, height)
    case Some(q) => attrs[q].bounds
  }

  /**
   * The infos after the descriptor of `id` became `l` and its bounds were recomputed
   * from it: only this instance changes, its children are not recomputed. The frame
   * does not depend on the instance's own descriptor, so writing first and
   * recomputing afterwards gives this state too.
   */
  function Relayout(tree: Tree, attrs: Attrs, id: NodeId, l: Layout, width: real, height: real): (r: Attrs)
    requires FrameKnown(tree, attrs, id)
    ensures r.Keys == attrs.Keys
    ensures r[id] == attrs[id].(layout := l, bounds := Resolve(l, Frame(tree, attrs, id, width, height)))
    ensures forall o | o in attrs && o != id :: r[o] == attrs[o]
  {
    attrs[id := attrs[id].(layout := l, bounds := Resolve(l, Frame(tree, attrs, id, width, height)))]
  }

  /** `recalculateBounds`: the bounds recomputed from the unchanged descriptor; nothing else changes. */
  function Recalculated(tree: Tree, attrs: Attrs, id: NodeId, width: real, height: real): (r: Attrs)
    requires FrameKnown(tree, attrs, id)
    ensures r.Keys == attrs.Keys
    ensures r[id] == attrs[id].(bounds := Resolve(attrs[id].layout, Frame(tree, attrs, id, width, height)))
    ensures forall o | o in attrs && o != id :: r[o] == attrs[o]
  {
    Relayout(tree, attrs, id, attrs[id].layout, width, height)
  }

  /** The four bounds after a recalculation, written out for a root and for a parented instance. */
  lemma RecalculatedFormula(tree: Tree, attrs: Attrs, id: NodeId, width: real, height: real)
    requires FrameKnown(tree, attrs, id)
    ensures var l, b := attrs[id].layout, Recalculated(tree, attrs, id, width, height)[id].bounds;
            tree[id].parent.None? ==>
              b.x == 0.0 + l.xscale * width + l.xoff && b.y == 0.0 + l.yscale * height + l.yoff &&
              b.w == l.wscale * width + l.woff && b.h == l.hscale * height + l.hoff
    ensures var l, b := attrs[id].layout, Recalculated(tree, attrs, id, width, height)[id].bounds;
            tree[id].parent.Some? ==>
              var pb := attrs[tree[id].parent.value].bounds;
              b.x == pb.x + l.xscale * pb.w + l.xoff && b.y == pb.y + l.yscale * pb.h + l.yoff &&
              b.w == l.wscale * pb.w + l.woff && b.h == l.hscale * pb.h + l.hoff
  {
  }

  /** A second relayout overrides the first, unless the instance is its own parent. */
  lemma RelayoutTwice(tree: Tree, attrs: Attrs, id: NodeId, l1: Layout, l2: Layout, width: real, height: real)
    requires FrameKnown(tree, attrs, id) && tree[id].parent != Some(id)
    ensures Relayout(tree, Relayout(tree, attrs, id, l1, width, height), id, l2, width, height)
            == Relayout(tree, attrs, id, l2, width, height)
  {
    var once := Relayout(tree, attrs, id, l1, width, height);
    assert Frame(tree, once, id, width, height) == Frame(tree, attrs, id, width, height);
  }

  /** Recalculating twice is recalculating once, unless the instance is its own parent. */
  lemma RecalculatedIdempotent(tree: Tree, attrs: Attrs, id: NodeId, width: real, height: real)
    requires FrameKnown(tree, attrs, id) && tree[id].parent != Some(id)
    ensures Recalculated(tree, Recalculated(tree, attrs, id, width, height), id, width, height)
            == Recalculated(tree, attrs, id, width, height)
  {
    RelayoutTwice(tree, attrs, id, attrs[id].layout, attrs[id].layout, width, height);
  }

  /** The infos after the setter of field `f` stored `v` and recalculated the bounds once. */
  function FieldSet(tree: Tree, attrs: Attrs, id: NodeId, f: Field, v: real, width: real, height: real): (r: Attrs)
    requires FrameKnown(tree, attrs, id)
    ensures r.Keys == attrs.Keys
    ensures r[id].layout.Get(f) == v
    ensures forall g | g != f :: r[id].layout.Get(g) == attrs[id].layout.Get(g)
    ensures r[id].name == attrs[id].name && r[id].className == attrs[id].className
    ensures r[id].bounds == Resolve(r[id].layout, Frame(tree, attrs, id, width, height))
    ensures forall o | o in attrs && o != id :: r[o] == attrs[o]
  {
    Relayout(tree, attrs, id, attrs[id].layout.With(f, v), width, height)
  }

  /** `setPosition`: the four position fields written, the size fields kept, bounds recalculated once. */
  function Positioned(tree: Tree, attrs: Attrs, id: NodeId, xscale: real, xoff: real, yscale: real, yoff: real,
                      width: real, height: real): (r: Attrs)
    requires FrameKnown(tree, attrs, id)
    ensures r.Keys == attrs.Keys
    ensures r[id].layout.xscale == xscale && r[id].layout.xoff == xoff
    ensures r[id].layout.yscale == yscale && r[id].layout.yoff == yoff
    ensures r[id].layout.wscale == attrs[id].layout.wscale && r[id].layout.woff == attrs[id].layout.woff
    ensures r[id].layout.hscale == attrs[id].layout.hscale && r[id].layout.hoff == attrs[id].layout.hoff
    ensures r[id].name == attrs[id].name && r[id].className == attrs[id].className
    ensures r[id].bounds == Resolve(r[id].layout, Frame(tree, attrs, id, width, height))
    ensures forall o | o in attrs && o != id :: r[o] == attrs[o]
  {
    Relayout(tree, attrs, id, attrs[id].layout.(xoff := xoff, xscale := xscale, yoff := yoff, yscale := yscale),
             width, height)
  }

  /** `setSize`: the four size fields written, the position fields kept, bounds recalculated once. */
  function Sized(tree: Tree, attrs: Attrs, id: NodeId, wscale: real, woff: real, hscale: real, hoff: real,
                 width: real, height: real): (r: Attrs)
    requires FrameKnown(tree, attrs, id)
    ensures r.Keys == attrs.Keys
    ensures r[id].layout.wscale == wscale && r[id].layout.woff == woff
    ensures r[id].layout.hscale == hscale && r[id].layout.hoff == hoff
    ensures r[id].layout.xscale == attrs[id].layout.xscale && r[id].layout.xoff == attrs[id].layout.xoff
    ensures r[id].layout.yscale == attrs[id].layout.yscale && r[id].layout.yoff == attrs[id].layout.yoff
    ensures r[id].name == attrs[id].name && r[id].className == attrs[id].className
    ensures r[id].bounds == Resolve(r[id].layout, Frame(tree, attrs, id, width, height))
    ensures forall o | o in attrs && o != id :: r[o] == attrs[o]
  {
    Relayout(tree, attrs, id, attrs[id].layout.(wscale := wscale, woff := woff, hscale := hscale, hoff := hoff),
             width, height)
  }

  /**
   * `setPosition` ends in the same state as the four single-field setters one after
   * another (which recalculate four times), provided the instance is not its own parent.
   */
  lemma PositionedIsFourSetters(tree: Tree, attrs: Attrs, id: NodeId, xscale: real, xoff: real, yscale: real,
                                yoff: real, width: real, height: real)
    requires FrameKnown(tree, attrs, id) && tree[id].parent != Some(id)
    ensures var a1 := FieldSet(tree, attrs, id, XOff, xoff, width, height);
            var a2 := FieldSet(tree, a1, id, XScale, xscale, width, height);
            var a3 := FieldSet(tree, a2, id, YOff, yoff, width, height);
            FieldSet(tree, a3, id, YScale, yscale, width, height)
            == Positioned(tree, attrs, id, xscale, xoff, yscale, yoff, width, height)
  {
    var l0 := attrs[id].layout;
    var l1 := l0.With(XOff, xoff);
    var l2 := l1.With(XScale, xscale);
    var l3 := l2.With(YOff, yoff);
    var l4 := l3.With(YScale, yscale);
    RelayoutTwice(tree, attrs, id, l1, l2, width, height);
    RelayoutTwice(tree, attrs, id, l2, l3, width, height);
    RelayoutTwice(tree, attrs, id, l3, l4, width, height);
    assert l4 == l0.(xoff := xoff, xscale := xscale, yoff := yoff, yscale := yscale);
  }

  /** The same for `setSize` against the four size setters. */
  lemma SizedIsFourSetters(tree: Tree, attrs: Attrs, id: NodeId, wscale: real, woff: real, hscale: real,
                           hoff: real, width: real, height: real)
    requires FrameKnown(tree, attrs, id) && tree[id].parent != Some(id)
    ensures var a1 := FieldSet(tree, attrs, id, WScale, wscale, width, height);
            var a2 := FieldSet(tree, a1, id, WOff, woff, width, height);
            var a3 := FieldSet(tree, a2, id, HScale, hscale, width, height);
            FieldSet(tree, a3, id, HOff, hoff, width, height)
            == Sized(tree, attrs, id, wscale, woff, hscale, hoff, width, height)
  {
    var l0 := attrs[id].layout;
    var l1 := l0.With(WScale, wscale);
    var l2 := l1.With(WOff, woff);
    var l3 := l2.With(HScale, hscale);
    var l4 := l3.With(HOff, hoff);
    RelayoutTwice(tree, attrs, id, l1, l2, width, height);
    RelayoutTwice(tree, attrs, id, l2, l3, width, height);
    RelayoutTwice(tree, attrs, id, l3, l4, width, height);
    assert l4 == l0.(wscale := wscale, woff := woff, hscale := hscale, hoff := hoff);
  }
}
