# A verified model of the p5-lib `Instance` scene graph

`Instance` (instance.js) is the base class of a small retained-mode GUI library
for p5.js. Every GUI element is an instance with:

- a layout descriptor: scale and offset for x, y, width and height
  (`xscale/xoff/yscale/yoff/wscale/woff/hscale/hoff`);
- cached absolute bounds (`x/y/w/h`), recomputed by `recalculateBounds`. The
  formula is `frame.x + xscale*frame.w + xoff` for x, and the same shape for
  y, width and height. The frame is the parent's bounds, or the canvas
  `(0, 0, width, height)` for an instance without a parent;
- an ordered `children` list and a parent back-reference, maintained by `add`,
  `remove` and the `parent` setter;
- the per-frame traversals `update` and `draw`. Each runs the instance's own
  hook (`updateThis` / `drawThis`), then the traversal of each child in list
  order.

This is how the model is built:

- **Arena.** The instances live in an arena keyed by stable ids (`Arena.NodeId`).
  The fields of one instance are split into two records under the same id. The
  `Link` holds the children and the parent. The `Info` holds the type tag, the
  name, the descriptor and the bounds. Tree operations touch only links and
  bounds operations touch only infos, which keeps the proofs small.
- **Pure steps.** Every state change of an instance is a function from the
  arena before to the arena after. Module `Arena` has `Detach`, `Attach` and
  `FindFirstChild`. Module `Placement` has `Recalculated`, `FieldSet`,
  `Positioned` and `Sized`. Module `Traversal` has `Walk`, the hook events of a
  traversal.
- **The class.** `SceneGraph.Scene` holds the arena as mutable fields. Its
  methods do what the JavaScript members do, field by field. Each method is
  proved to end in the state the matching function gives, and to keep the
  invariant `Linked`: children lists and back-references agree, and no list
  names a child twice.
- **Parameters for globals.** The p5 globals `width`/`height` are parameters of
  every operation that recalculates bounds. Numbers are `real`.
- **Hooks.** The hooks do nothing besides appending an `Event` to the scene's
  `trace`. This makes the visit order something a contract can state.

The model follows the code where the two differ from a reading of the
comments:

- `add` does not recompute the attached child's bounds.
- Recalculating an instance never reaches its descendants.
- `remove` does not recompute the removed child's bounds.

Two places where the code does not do what it evidently intends are listed
under Findings. For those the model uses the intended behaviour, and it states
the as-written behaviour next to it.

## Model

| member | source | states |
|---|---|---|
| Geometry.Layout.With | instance.js:35-53 | after the setter of one field, that field's getter returns the stored value and every other getter returns what it returned before; storing a field's current value leaves the descriptor unchanged |
| Geometry.Resolve | instance.js:58-61 | the bounds formula; with zero position scales the instance sits at the frame's origin plus its offsets, and with zero size scales its size is exactly its offsets |
| Geometry.RootExample | instance.js:55-62 | a root on an 800 by 600 canvas with xscale 0.5 and xoff 10 gets x = 410 |
| Geometry.ResolveFill | instance.js:6-8 | scales (0, 0, 1, 1) with zero offsets give exactly the frame |
| Geometry.ResolveWithinFrame | instance.js:6-8 | with scales from 0 to 1 (position scale plus size scale at most 1) and zero offsets, the bounds lie inside a frame of non-negative size |
| Geometry.IntersectsPoint | instance.js:146-148 | only a rectangle of positive width and height holds a point, and no point on its outline (corners and edges) passes |
| Geometry.InteriorNonEmpty | instance.js:146-148 | some point passes `intersectsPoint` exactly when width and height are both positive |
| Geometry.Intersects | instance.js:142-145 | corrected overlap test (`this.y` for `me.y`); two rectangles overlap only if their widths, and their heights, sum to something positive |
| Geometry.IntersectsSymmetric | instance.js:142-145 | the corrected overlap test gives the same answer with the two rectangles swapped |
| Geometry.IntersectsIffCommonPoint | instance.js:142-148 | for positive sizes, the corrected `intersects` holds exactly when some point passes `intersectsPoint` for both rectangles |
| Geometry.IntersectsAsWritten | instance.js:142-145 | the test as written, with short-circuit `&&`: it never returns true, and it throws a ReferenceError on `me` exactly when the first comparison holds |
| Geometry.IntersectsAsWrittenThrowsOnOverlap | instance.js:142-145 | every pair of rectangles that overlaps makes the test as written throw |
| Geometry.IntersectsAsWrittenExample | instance.js:142-145 | two equal unit squares overlap, yet the test as written throws |
| Arena.AtMostOneParent | instance.js:76-96 | in a linked tree, an instance is in the children list of at most one parent |
| Arena.NewInfo | instance.js:12-30 | a new instance is named after its type tag and has all eight descriptor fields and all four bounds at zero |
| Arena.FindIndex | instance.js:92 | the search gives the lowest index whose element matches, or -1 exactly when no element matches |
| Arena.IndexOf | instance.js:92 | the identity search gives -1 exactly when the child is absent, otherwise the index of its first occurrence |
| Arena.IndexOfKey | instance.js:92 | `indexOf` with strict equality: the first index holding the key, or -1 exactly when no element equals it |
| Arena.IndexOfKeyChild | instance.js:92 | searching for the child itself gives the identity search of the corrected `remove` |
| Arena.RemoveFirst | instance.js:94 | the splice leaves a list that does not hold the child unchanged |
| Arena.RemoveFirstSpliced | instance.js:94 | the splice deletes one occurrence of the child: length drops by one, multiset loses one copy, elements before keep their index and elements after shift down by one |
| Arena.RemoveFirstUnique | instance.js:94 | on a duplicate-free list the splice leaves exactly the other elements and stays duplicate-free |
| Arena.FindFirstChild | instance.js:97-99 | the result is none exactly when no child has the name; otherwise it is the child of lowest index that has it |
| Arena.Detach | instance.js:91-96 | intended `remove`: true exactly when the child is listed; if not listed nothing changes; if listed, its first occurrence is spliced out and its parent cleared, and no other list or parent changes |
| Arena.Adopt | instance.js:88-89 | the child's parent becomes `p` and `p`'s children are the old ones with the child appended; nothing else changes |
| Arena.Attach | instance.js:83-90 | `add`: the child is first removed from its old parent, then its parent is `p` and it is last in `p`'s children after `p`'s earlier children in order; other lists and parents are unchanged |
| Arena.Orphaned | instance.js:85-87 | the first half of `add`: the old parent's list loses the child's first occurrence, the child's parent is cleared when that parent listed it, and no other list or parent changes |
| Arena.DetachLinked | instance.js:91-96 | intended `remove` keeps the tree linked, and afterwards the child is not in the list |
| Arena.OrphanedLinked | instance.js:85-87 | removing from the old parent leaves the tree linked and the child with no parent and in no list |
| Arena.AdoptLinked | instance.js:88-89 | appending a parentless child keeps the tree linked and lists the child exactly once |
| Arena.AttachMoves | instance.js:83-90 | after `add` the tree is linked, the child's parent is `p`, `p` lists it exactly once and no other instance lists it |
| Arena.AttachDetachRoundTrip | instance.js:83-96 | adding a parentless child and then removing it returns true and restores the tree exactly |
| Arena.DetachAsWritten | instance.js:91-96 | `remove` as written, line by line: an index of -1 returns false with nothing changed; any other index would splice one element out, clear the parent and return undefined |
| Arena.DetachAsWrittenNeverRemoves | instance.js:92-93 | no child is the arrow function, so for every argument `remove` as written returns false and changes nothing |
| Arena.AttachAsWritten | instance.js:83-90 | `add` as written sets the parent and appends to `p`'s children, while every other children list stays as it was |
| Arena.DetachAsWrittenKeepsChild | instance.js:92-96 | for a listed child, `remove` as written keeps it and returns false, while the intended removal shortens the list by one and returns true |
| Arena.AttachAsWrittenBreaksLinked | instance.js:85-89 | `add` as written on a child that has another parent leaves it in both lists, so the tree is no longer linked |
| Placement.Relayout | instance.js:55-62 | the new descriptor and bounds from the formula for this one instance; all other instance infos, its children's included, are unchanged |
| Placement.Frame | instance.js:56-57 | the frame of a root is the canvas at the origin with the canvas size; the frame of a parented instance is its parent's current bounds |
| Placement.Recalculated | instance.js:55-62 | `recalculateBounds` recomputes this instance's bounds from its descriptor and its frame, and changes nothing else |
| Placement.RecalculatedFormula | instance.js:55-62 | the recomputed x, y, w and h, written out for a root (canvas frame) and for a parented instance (parent's bounds) |
| Placement.RelayoutTwice | instance.js:55-62 | for an instance that is not its own parent, a second relayout overrides the first |
| Placement.RecalculatedIdempotent | instance.js:55-62 | recalculating twice gives the same state as recalculating once, for an instance that is not its own parent |
| Placement.FieldSet | instance.js:35-53 | each setter writes exactly its field, keeps the other seven, keeps the name and tag, ends with bounds equal to the formula, and leaves other instances unchanged |
| Placement.Positioned | instance.js:101-107 | `setPosition` writes the four position fields, keeps the four size fields, and ends with bounds equal to the formula |
| Placement.Sized | instance.js:108-114 | `setSize` writes the four size fields, keeps the four position fields, and ends with bounds equal to the formula |
| Placement.PositionedIsFourSetters | instance.js:101-107 | `setPosition` ends in the same state as the four single-field setters in a row, for an instance that is not its own parent |
| Placement.SizedIsFourSetters | instance.js:108-114 | `setSize` ends in the same state as the four single-field setters in a row, for an instance that is not its own parent |
| Traversal.Walk | instance.js:119-139 | a traversal has at least one event and starts with the instance's own hook |
| Traversal.WalkAll | instance.js:124-126 | the traversals of a children list have at least one event per child |
| Traversal.WalkEvents | instance.js:119-139 | every event of a traversal runs that traversal's hook on an instance ranked no higher than the start, so nothing outside the ranked part is visited |
| Traversal.LeafWalk | instance.js:119-127 | a childless instance can always be traversed, whatever cycles exist elsewhere, and its traversal is its own hook alone |
| Traversal.WalkAllSnoc | instance.js:124-126 | one more loop iteration appends exactly the next child's traversal |
| Traversal.WalkRankFree | instance.js:119-139 | the visit order does not depend on the rank used to prove termination |
| Traversal.ChildSlot | instance.js:119-127 | the instance's own hook runs first; child i's whole traversal appears uninterrupted at its slot |
| Traversal.SiblingsInOrder | instance.js:131-139 | for i < j, child i's whole traversal ends before child j's begins, so later children paint over earlier ones |
| Traversal.SameVisitOrder | instance.js:119-139 | `update` and `draw` visit the same instances in the same order |
| SceneGraph.Scene.NewInstance | instance.js:12-30 | a new instance has a fresh id, no parent, no children, all eight descriptor fields and all four bounds zero, and is named after its type tag |
| SceneGraph.Scene.Rename | instance.js:29 | assigning `name` changes only that instance's name |
| SceneGraph.Scene.RecalculateBounds | instance.js:55-62 | the state becomes `Placement.Recalculated` of the old state; the invariant is kept; exactly one recalculation is counted |
| SceneGraph.Scene.SetField | instance.js:35-53 | the state becomes `Placement.FieldSet` of the old state; exactly one recalculation |
| SceneGraph.Scene.SetPosition | instance.js:101-107 | the state becomes `Placement.Positioned` of the old state; exactly one recalculation for four fields |
| SceneGraph.Scene.SetSize | instance.js:108-114 | the state becomes `Placement.Sized` of the old state; exactly one recalculation for four fields |
| SceneGraph.Scene.Parent | instance.js:76-78 | the getter's answer agrees with the children lists: the parent lists the instance, and no instance lists a parentless one |
| SceneGraph.Scene.Remove | instance.js:91-96 | the result and the new tree are `Arena.Detach` of the old tree; the invariant is kept |
| SceneGraph.Scene.Add | instance.js:83-90 | the new tree is `Arena.Attach` of the old tree; the invariant is kept |
| SceneGraph.Scene.SetParent | instance.js:79-82 | setting `c.parent = p` is `p.add(c)` |
| SceneGraph.Scene.UpdateThis | instance.js:116-118 | the hook's run is appended to the trace |
| SceneGraph.Scene.DrawThis | instance.js:128-130 | the hook's run is appended to the trace |
| SceneGraph.Scene.Update | instance.js:119-127 | the trace grows by exactly `Traversal.Walk`: pre-order, own hook first, then children in list order; the invariant is kept |
| SceneGraph.Scene.Draw | instance.js:131-139 | the trace grows by exactly `Traversal.Walk` for the draw hook; the invariant is kept |
| SceneGraph.UpdateBesideSelfLoop | instance.js:83-90 | after `a.add(a)` on a parentless `a` the scene is still valid, `a` is its own parent and lists itself last; `update` on another, childless instance then runs its hook once and returns |

## Left out

- guiframe.js and guiimage.js. They only override `drawThis` with p5 drawing calls (`fill`, `stroke`, `rect`, `image`) and `color()`. These are rendering calls without logic.
- The bodies of `updateThis` and `drawThis`. They are empty override points, so each is modelled only as an event appended to the trace. A subclass hook that changed the tree during a traversal is not modelled. The model's loop walks the children list as it was when the loop began. That is the same list, because the base hooks change nothing.
- The `instanceof Instance` checks and the errors they throw (instance.js:80, 84). Every argument in the model is an id of an instance in the arena, so the checks cannot fail.
- Object identity and lifetime. Ids come from a counter and stand for object identity. Instances are never collected, so the arena only grows.
- The global `width`/`height`. They are explicit parameters. JavaScript floating point is replaced by exact `real` arithmetic.
- `className` by reflection (`this.constructor.name`). The tag is given to `NewInstance`. `toString` only formats text and is left out.
- The plain getters (`x`, `y`, `w`, `h`, `xscale`, ..., `name`). They are reads of the records: `attrs[id].bounds`, `attrs[id].layout.Get(f)`, `attrs[id].name`. `Geometry.Layout.Get` is that field read and has no contract of its own; its laws are stated by `Geometry.Layout.With`. The fresh link `Arena.NewLink` is a constant, and `SceneGraph.Scene.NewInstance` states what it holds.
- Name equality in `findFirstChild` is string equality. JavaScript `===` on names of other types is not modelled.
- The eight setters. They are one method, `SceneGraph.Scene.SetField`, which takes an enumeration `Geometry.Field` naming the field.
- SceneGraph.Scene.Update: requires a rank on the instances reachable from `id`, strictly decreasing from each ranked instance to its children. Such a rank exists exactly when no cycle is reachable from `id`; cycles elsewhere do not matter (see SceneGraph.UpdateBesideSelfLoop). `add` allows cycles (`a.add(a)`, or adding an ancestor), and on a reachable cycle the source recurses until the stack overflows. Non-termination is not modelled.
- SceneGraph.Scene.Draw: requires the same rank, for the same reason.
- Placement.PositionedIsFourSetters: requires that the instance is not its own parent. After `a.add(a)` the frame is the instance's own bounds, so each of the four setters sees a different frame and the results differ.
- Placement.SizedIsFourSetters: the same restriction, for the same reason.
- Placement.RecalculatedIdempotent and Placement.RelayoutTwice: the same restriction, for the same reason.

## Findings

| source | as written | input that shows it | evidently intended | confidence | as-written member | corrected member |
|---|---|---|---|---|---|---|
| instance.js:92-96 | `indexOf` is given the arrow function `(child) => child === instance`, so it searches for that function value, always yields -1, and `remove` returns false without removing. The success path would also return undefined, not true. As a result, `add` on a child that has a parent leaves it in the old parent's list too. | parent `q` with children `[c]`; `remove(c)` on `q`, or `add(c)` on another parent `p` | search by identity (`findIndex`), splice the first occurrence out, clear the parent, return true | high; not executed | Arena.AttachAsWrittenBreaksLinked | Arena.AttachMoves |
| instance.js:143 | the second comparison reads `me.y`, and `me` is not declared. Whenever the first comparison holds, the call throws a ReferenceError, so the method never returns true. | two equal unit squares at the origin | `this.y` in place of `me.y`: a strict axis-aligned overlap test | high; not executed | Geometry.IntersectsAsWrittenExample | Geometry.IntersectsIffCommonPoint |
