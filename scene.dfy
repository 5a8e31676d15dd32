/**
 * The scene graph as mutable state: one object holding the arena of instances.
 * Each method performs what the corresponding `Instance` member does, field by
 * field, and is proved to end in the state the functions of Arena and
 * Placement describe; the trace records the hook runs of `update` and `draw`.
 */
module SceneGraph {
  import opened Wrappers
  import opened Geometry
  import opened Arena
  import opened Placement
  import opened Traversal

  class Scene {
    var tree: Tree
    var attrs: Attrs
    var next: NodeId
    /** The hook runs so far, oldest first. */
    var trace: seq<Event>
    /** How many times `recalculateBounds` has run. */
    ghost var recalculations: nat

    /** The class invariant: every instance has both records, the tree is linked, ids are below `next`. */
    ghost predicate Valid()
      reads this`tree, this`attrs, this`next
    {
      tree.Keys == attrs.Keys && Linked(tree) && forall id | id in tree :: id < next
    }

    constructor ()
      ensures Valid() && tree == map[] && attrs == map[] && trace == [] && recalculations == 0
    {
      tree, attrs, next, trace, recalculations := map[], map[], 0, [], 0;
    }

    /** `new Instance()` (or a subclass named `className`): a detached instance with all numbers zero. */
    method NewInstance(className: string) returns (id: NodeId)
      requires Valid()
      modifies this`tree, this`attrs, this`next
      ensures Valid()
      ensures id !in old(tree) && tree == old(tree)[id := NewLink] && attrs == old(attrs)[id := NewInfo(className)]
      ensures attrs[id].name == className && attrs[id].className == className
      ensures attrs[id].layout == ZeroLayout && attrs[id].bounds == ZeroBounds
      ensures tree[id].children == [] && tree[id].parent == None
    {
      id := next;
      assert id !in tree;
      assert forall p | p in tree :: id !in tree[p].children;
      tree := tree[id := NewLink];
      attrs := attrs[id := NewInfo(className)];
      next := next + 1;
    }

    /** Assigning the public `name` field. */
    method Rename(id: NodeId, name: string)
      requires Valid() && id in attrs
      modifies this`attrs
      ensures Valid() && attrs == old(attrs)[id := old(attrs)[id].(name := name)]
    {
      attrs := attrs[id := attrs[id].(name := name)];
    }

    lemma FrameKnownHere(id: NodeId)
      requires Valid() && id in tree
      ensures FrameKnown(tree, attrs, id)
    {
    }

    /** `recalculateBounds`, with the canvas size as `width` and `height`. */
    method RecalculateBounds(id: NodeId, width: real, height: real)
      requires Valid() && id in tree
      modifies this`attrs, this`recalculations
      ensures FrameKnown(tree, old(attrs), id)
      ensures Valid() && attrs == Recalculated(tree, old(attrs), id, width, height)
      ensures recalculations == old(recalculations) + 1
    {
      FrameKnownHere(id);
      var parent := tree[id].parent;
      var parentBounds := if parent.Some? then attrs[parent.value].bounds else Bounds(0.0, 0.0, width, height);
      var l := attrs[id].layout;
      var b := Resolve(l, parentBounds);
      assert parentBounds == Frame(tree, attrs, id, width, height);
      attrs := attrs[id := attrs[id].(bounds := b)];
      recalculations := recalculations + 1;
    }

    /** The eight descriptor setters (`xscale = v`, ..., `hoff = v`): write one field, recalculate once. */
    method SetField(id: NodeId, f: Field, v: real, width: real, height: real)
      requires Valid() && id in tree
      modifies this`attrs, this`recalculations
      ensures FrameKnown(tree, old(attrs), id)
      ensures Valid() && attrs == FieldSet(tree, old(attrs), id, f, v, width, height)
      ensures recalculations == old(recalculations) + 1
    {
      FrameKnownHere(id);
      ghost var before := attrs;
      attrs := attrs[id := attrs[id].(layout := attrs[id].layout.With(f, v))];
      assert Frame(tree, attrs, id, width, height) == Frame(tree, before, id, width, height);
      RecalculateBounds(id, width, height);
    }

    /** `setPosition`: write the four position fields, then recalculate once. */
    method SetPosition(id: NodeId, xscale: real, xoff: real, yscale: real, yoff: real, width: real, height: real)
      requires Valid() && id in tree
      modifies this`attrs, this`recalculations
      ensures FrameKnown(tree, old(attrs), id)
      ensures Valid() && attrs == Positioned(tree, old(attrs), id, xscale, xoff, yscale, yoff, width, height)
      ensures recalculations == old(recalculations) + 1
    {
      FrameKnownHere(id);
      ghost var before := attrs;
      var l := attrs[id].layout;
      l := l.(xoff := xoff);
      l := l.(xscale := xscale);
      l := l.(yoff := yoff);
      l := l.(yscale := yscale);
      attrs := attrs[id := attrs[id].(layout := l)];
      assert Frame(tree, attrs, id, width, height) == Frame(tree, before, id, width, height);
      RecalculateBounds(id, width, height);
    }

    /** `setSize`: write the four size fields, then recalculate once. */
    method SetSize(id: NodeId, wscale: real, woff: real, hscale: real, hoff: real, width: real, height: real)
      requires Valid() && id in tree
      modifies this`attrs, this`recalculations
      ensures FrameKnown(tree, old(attrs), id)
      ensures Valid() && attrs == Sized(tree, old(attrs), id, wscale, woff, hscale, hoff, width, height)
      ensures recalculations == old(recalculations) + 1
    {
      FrameKnownHere(id);
      ghost var before := attrs;
      var l := attrs[id].layout;
      l := l.(wscale := wscale);
      l := l.(woff := woff);
      l := l.(hscale := hscale);
      l := l.(hoff := hoff);
      attrs := attrs[id := attrs[id].(layout := l)];
      assert Frame(tree, attrs, id, width, height) == Frame(tree, before, id, width, height);
      RecalculateBounds(id, width, height);
    }

    /** The `parent` getter: the back-reference, which agrees with the children lists. */
    function Parent(id: NodeId): (r: Option<NodeId>)
      requires Valid() && id in tree
      reads this
      ensures r.Some? ==> r.value in tree && id in tree[r.value].children
      ensures r.None? ==> forall p | p in tree :: id !in tree[p].children
    {
      tree[id].parent
    }

    /** `remove` as its comment describes it (identity search, true on success); see Arena.Detach. */
    method Remove(p: NodeId, c: NodeId) returns (found: bool)
      requires Valid() && p in tree && c in tree
      modifies this`tree
      ensures Valid() && (found, tree) == Detach(old(tree), p, c)
    {
      DetachLinked(tree, p, c);
      var children := tree[p].children;
      var index := IndexOf(children, c);
      if index == -1 {
        return false;
      }
      tree := tree[p := tree[p].(children := children[..index] + children[index + 1..])];
      tree := tree[c := tree[c].(parent := None)];
      found := true;
    }

    /** `add`: detach `c` from its old parent, if any, then take it as the last child of `p`. */
    method Add(p: NodeId, c: NodeId)
      requires Valid() && p in tree && c in tree
      modifies this`tree
      ensures ParentKnown(old(tree), c)
      ensures Valid() && tree == Attach(old(tree), p, c)
    {
      AttachMoves(tree, p, c);
      ghost var before := tree;
      if tree[c].parent.Some? {
        var removed := Remove(tree[c].parent.value, c);
      }
      assert tree == Orphaned(before, c);
      tree := tree[c := tree[c].(parent := Some(p))];
      tree := tree[p := tree[p].(children := tree[p].children + [c])];
    }

    /** The `parent` setter: `c.parent = p` makes `p` add `c`. */
    method SetParent(c: NodeId, p: NodeId)
      requires Valid() && p in tree && c in tree
      modifies this`tree
      ensures ParentKnown(old(tree), c)
      ensures Valid() && tree == Attach(old(tree), p, c)
    {
      Add(p, c);
    }

    /** The `updateThis` hook; its body is empty, only its run is recorded. */
    method UpdateThis(id: NodeId)
      requires Valid()
      modifies this`trace
      ensures Valid() && trace == old(trace) + [Event(UpdateHook, id)]
    {
      trace := trace + [Event(UpdateHook, id)];
    }

    /** The `drawThis` hook; its body is empty, only its run is recorded. */
    method DrawThis(id: NodeId)
      requires Valid()
      modifies this`trace
      ensures Valid() && trace == old(trace) + [Event(DrawHook, id)]
    {
      trace := trace + [Event(DrawHook, id)];
    }

    /** `update`: this instance's hook, then each child's `update` in list order. */
    method Update(id: NodeId, ghost rank: map<NodeId, nat>)
      requires Valid() && Ranked(tree, rank) && id in rank
      modifies this`trace
      ensures Valid() && trace == old(trace) + Walk(tree, rank, UpdateHook, id)
      decreases rank[id]
    {
      UpdateThis(id);
      ghost var start := trace;
      ChildrenBelow(tree, rank, id);
      var children := tree[id].children;
      for i := 0 to |children|
        invariant Below(tree, rank, children[..i], rank[id])
        invariant trace == start + WalkAll(tree, rank, UpdateHook, children[..i], rank[id])
      {
        WalkAllSnoc(tree, rank, UpdateHook, children, i, rank[id]);
        Update(children[i], rank);
        ConcatAssoc(start, WalkAll(tree, rank, UpdateHook, children[..i], rank[id]), Walk(tree, rank, UpdateHook, children[i]));
      }
      assert children[..|children|] == children;
      ConcatAssoc(old(trace), [Event(UpdateHook, id)], WalkAll(tree, rank, UpdateHook, children, rank[id]));
    }

    /** `draw`: this instance's hook, then each child's `draw` in list order, so children paint on top. */
    method Draw(id: NodeId, ghost rank: map<NodeId, nat>)
      requires Valid() && Ranked(tree, rank) && id in rank
      modifies this`trace
      ensures Valid() && trace == old(trace) + Walk(tree, rank, DrawHook, id)
      decreases rank[id]
    {
      DrawThis(id);
      ghost var start := trace;
      ChildrenBelow(tree, rank, id);
      var children := tree[id].children;
      for i := 0 to |children|
        invariant Below(tree, rank, children[..i], rank[id])
        invariant trace == start + WalkAll(tree, rank, DrawHook, children[..i], rank[id])
      {
        WalkAllSnoc(tree, rank, DrawHook, children, i, rank[id]);
        Draw(children[i], rank);
        ConcatAssoc(start, WalkAll(tree, rank, DrawHook, children[..i], rank[id]), Walk(tree, rank, DrawHook, children[i]));
      }
      assert children[..|children|] == children;
      ConcatAssoc(old(trace), [Event(DrawHook, id)], WalkAll(tree, rank, DrawHook, children, rank[id]));
    }
  }

  /**
   * An instance may be added as its own child, which makes a cycle that `update`
   * could never leave. `update` on another, childless instance is unaffected: it
   * runs that instance's hook once and returns.
   */
  method UpdateBesideSelfLoop(s: Scene, a: NodeId, r: NodeId)
    requires s.Valid() && a in s.tree && r in s.tree && a != r
    requires s.tree[a].parent == None && s.tree[r].children == []
    modifies s
    ensures s.Valid() && a in s.tree && s.tree[a].children == old(s.tree[a].children) + [a] && s.tree[a].parent == Some(a)
    ensures s.trace == old(s.trace) + [Event(UpdateHook, r)]
  {
    s.Add(a, a);
    assert s.tree[r].children == [];
    LeafWalk(s.tree, UpdateHook, r);
    s.Update(r, map[r := 0]);
  }
}
