/**
 * The per-frame traversals `update` and `draw`: an instance runs its own hook
 * (`updateThis` / `drawThis`), then the traversal of each child in list order.
 * The visit order is specified here as the sequence of hook events it produces.
 * A traversal terminates only below an acyclic part of the arena; a `rank` on the
 * instances reached, strictly decreasing from every ranked instance to its
 * children, witnesses that. Instances outside the rank, cycles among them
 * included, do not matter.
 */
module Traversal {
  import opened Arena

  datatype Hook = UpdateHook | DrawHook

  /** One run of a hook on one instance. */
  datatype Event = Event(hook: Hook, node: NodeId)

  /** Every child of a ranked instance is ranked lower, so following children from it always stops. */
  ghost predicate Ranked(tree: Tree, rank: map<NodeId, nat>)
  {
    forall p | p in rank :: p in tree && forall c | c in tree[p].children :: c in rank && rank[c] < rank[p]
  }

  ghost predicate Below(tree: Tree, rank: map<NodeId, nat>, ids: seq<NodeId>, bound: nat)
  {
    forall c | c in ids :: c in rank && rank[c] < bound
  }

  /** The events of a traversal started at `id`: its own hook, then each child's traversal. */
  ghost function Walk(tree: Tree, rank: map<NodeId, nat>, h: Hook, id: NodeId): (r: seq<Event>)
    requires Ranked(tree, rank) && id in rank
    ensures |r| >= 1 && r[0] == Event(h, id)
    decreases rank[id], 1
  {
    [Event(h, id)] + WalkAll(tree, rank, h, tree[id].children, rank[id])
  }

  /** The traversals of `ids`, one after the other: at least one event each. */
  ghost function WalkAll(tree: Tree, rank: map<NodeId, nat>, h: Hook, ids: seq<NodeId>, bound: nat): (r: seq<Event>)
    requires Ranked(tree, rank) && Below(tree, rank, ids, bound)
    ensures |r| >= |ids|
    decreases bound, 0, |ids|
  {
    if ids == [] then [] else Walk(tree, rank, h, ids[0]) + WalkAll(tree, rank, h, ids[1..], bound)
  }

  /** Every event in `w` is a run of hook `h` on an instance ranked below `bound`. */
  ghost predicate EventsBelow(rank: map<NodeId, nat>, h: Hook, w: seq<Event>, bound: nat)
  {
    forall k | 0 <= k < |w| :: w[k].hook == h && w[k].node in rank && rank[w[k].node] < bound
  }

  /**
   * Every event of a traversal is a run of its own hook, on an instance reachable
   * from `id` and so ranked no higher: nothing outside the ranked part is visited.
   */
  lemma {:induction false} WalkEvents(tree: Tree, rank: map<NodeId, nat>, h: Hook, id: NodeId)
    requires Ranked(tree, rank) && id in rank
    ensures EventsBelow(rank, h, Walk(tree, rank, h, id), rank[id] + 1)
    decreases rank[id], 1
  {
    ChildrenBelow(tree, rank, id);
    WalkAllEvents(tree, rank, h, tree[id].children, rank[id]);
    var rest := WalkAll(tree, rank, h, tree[id].children, rank[id]);
    var w: seq<Event> := [Event(h, id)] + rest;
    forall k | 0 < k < |w|
      ensures w[k].hook == h && w[k].node in rank && rank[w[k].node] < rank[id] + 1
    {
      assert w[k] == rest[k - 1];
    }
  }

  lemma {:induction false} WalkAllEvents(tree: Tree, rank: map<NodeId, nat>, h: Hook, ids: seq<NodeId>, bound: nat)
    requires Ranked(tree, rank) && Below(tree, rank, ids, bound)
    ensures EventsBelow(rank, h, WalkAll(tree, rank, h, ids, bound), bound)
    decreases bound, 0, |ids|
  {
    if ids != [] {
      WalkAllCons(tree, rank, h, ids, bound);
      WalkEvents(tree, rank, h, ids[0]);
      WalkAllEvents(tree, rank, h, ids[1..], bound);
      var first, rest := Walk(tree, rank, h, ids[0]), WalkAll(tree, rank, h, ids[1..], bound);
      var w: seq<Event> := first + rest;
      forall k | 0 <= k < |w|
        ensures w[k].hook == h && w[k].node in rank && rank[w[k].node] < bound
      {
        if k < |first| {
          assert w[k] == first[k];
        } else {
          assert w[k] == rest[k - |first|];
        }
      }
    }
  }

  /** A childless instance can always be traversed: its traversal is its own hook alone. */
  lemma LeafWalk(tree: Tree, h: Hook, id: NodeId)
    requires id in tree && tree[id].children == []
    ensures Ranked(tree, map[id := 0]) && Walk(tree, map[id := 0], h, id) == [Event(h, id)]
  {
  }

  /** The children of a ranked instance are ranked below it. */
  lemma ChildrenBelow(tree: Tree, rank: map<NodeId, nat>, id: NodeId)
    requires Ranked(tree, rank) && id in rank
    ensures id in tree && Below(tree, rank, tree[id].children, rank[id])
  {
  }

  lemma ConcatAssoc(a: seq<Event>, b: seq<Event>, c: seq<Event>)
    ensures (a + b) + c == a + (b + c)
  {
  }

  /** The parts of a list below a bound are below it too. */
  lemma BelowParts(tree: Tree, rank: map<NodeId, nat>, a: seq<NodeId>, b: seq<NodeId>, bound: nat)
    requires Below(tree, rank, a + b, bound)
    ensures Below(tree, rank, a, bound) && Below(tree, rank, b, bound)
    ensures a != [] ==> Below(tree, rank, a[1..] + b, bound) && a[0] in rank && rank[a[0]] < bound
  {
    assert forall c | c in a :: c in a + b;
    assert forall c | c in b :: c in a + b;
    if a != [] {
      assert a[0] in a;
      assert forall c | c in a[1..] + b :: c in a + b;
    }
  }

  /** One step of `WalkAll`: the first traversal, then the rest. */
  lemma WalkAllCons(tree: Tree, rank: map<NodeId, nat>, h: Hook, ids: seq<NodeId>, bound: nat)
    requires Ranked(tree, rank) && Below(tree, rank, ids, bound) && ids != []
    ensures ids[0] in rank && Below(tree, rank, ids[1..], bound)
    ensures WalkAll(tree, rank, h, ids, bound) == Walk(tree, rank, h, ids[0]) + WalkAll(tree, rank, h, ids[1..], bound)
  {
    assert ids[0] in ids;
    assert forall c | c in ids[1..] :: c in ids;
  }

  lemma {:induction false} WalkAllAppend(tree: Tree, rank: map<NodeId, nat>, h: Hook, a: seq<NodeId>, b: seq<NodeId>,
                                         bound: nat)
    requires Ranked(tree, rank) && Below(tree, rank, a + b, bound)
    ensures Below(tree, rank, a, bound) && Below(tree, rank, b, bound)
    ensures WalkAll(tree, rank, h, a + b, bound) == WalkAll(tree, rank, h, a, bound) + WalkAll(tree, rank, h, b, bound)
  {
    BelowParts(tree, rank, a, b, bound);
    if a == [] {
      assert a + b == b;
    } else {
      var ab := a + b;
      assert ab[0] == a[0] && ab[1..] == a[1..] + b;
      WalkAllCons(tree, rank, h, ab, bound);
      WalkAllCons(tree, rank, h, a, bound);
      WalkAllAppend(tree, rank, h, a[1..], b, bound);
      ConcatAssoc(Walk(tree, rank, h, a[0]), WalkAll(tree, rank, h, a[1..], bound), WalkAll(tree, rank, h, b, bound));
    }
  }

  /** The traversals of the first `i + 1` children are those of the first `i`, then child `i`'s. */
  lemma {:induction false} WalkAllSnoc(tree: Tree, rank: map<NodeId, nat>, h: Hook, ids: seq<NodeId>, i: nat, bound: nat)
    requires Ranked(tree, rank) && Below(tree, rank, ids, bound) && i < |ids|
    ensures Below(tree, rank, ids[..i], bound) && ids[i] in rank
    ensures WalkAll(tree, rank, h, ids[..i + 1], bound)
            == WalkAll(tree, rank, h, ids[..i], bound) + Walk(tree, rank, h, ids[i])
  {
    assert ids[..i + 1] == ids[..i] + [ids[i]];
    assert ids[i] in ids;
    WalkAllAppend(tree, rank, h, ids[..i], [ids[i]], bound);
    assert [ids[i]][1..] == [];
  }

  /**
   * The rank only witnesses termination: any two ranks give the same traversal.
   * Likewise the bound on a list of children.
   */
  lemma {:induction false} WalkRankFree(tree: Tree, r1: map<NodeId, nat>, r2: map<NodeId, nat>, h: Hook, id: NodeId)
    requires Ranked(tree, r1) && Ranked(tree, r2) && id in r1 && id in r2
    ensures Walk(tree, r1, h, id) == Walk(tree, r2, h, id)
    decreases r1[id], 1
  {
    WalkAllRankFree(tree, r1, r2, h, tree[id].children, r1[id], r2[id]);
  }

  lemma {:induction false} WalkAllRankFree(tree: Tree, r1: map<NodeId, nat>, r2: map<NodeId, nat>, h: Hook,
                                           ids: seq<NodeId>, b1: nat, b2: nat)
    requires Ranked(tree, r1) && Ranked(tree, r2) && Below(tree, r1, ids, b1) && Below(tree, r2, ids, b2)
    ensures WalkAll(tree, r1, h, ids, b1) == WalkAll(tree, r2, h, ids, b2)
    decreases b1, 0, |ids|
  {
    if ids != [] {
      assert ids[0] in ids;
      assert forall c | c in ids[1..] :: c in ids;
      WalkRankFree(tree, r1, r2, h, ids[0]);
      WalkAllRankFree(tree, r1, r2, h, ids[1..], b1, b2);
    }
  }

  /** Where the traversal of child `i` starts within the traversal of its parent. */
  ghost function Slot(tree: Tree, rank: map<NodeId, nat>, h: Hook, id: NodeId, i: nat): nat
    requires Ranked(tree, rank) && id in rank && i <= |tree[id].children|
  {
    var ch := tree[id].children;
    assert forall c | c in ch[..i] :: c in ch;
    1 + |WalkAll(tree, rank, h, ch[..i], rank[id])|
  }

  /**
   * The hook of the instance itself runs first; the traversal of child `i` appears,
   * whole and uninterrupted, at its slot.
   */
  lemma {:induction false} ChildSlot(tree: Tree, rank: map<NodeId, nat>, h: Hook, id: NodeId, i: nat)
    requires Ranked(tree, rank) && id in rank && i < |tree[id].children|
    ensures var w, c := Walk(tree, rank, h, id), tree[id].children[i];
            c in rank && w[0] == Event(h, id) &&
            Slot(tree, rank, h, id, i) + |Walk(tree, rank, h, c)| <= |w| &&
            w[Slot(tree, rank, h, id, i)..Slot(tree, rank, h, id, i) + |Walk(tree, rank, h, c)|] == Walk(tree, rank, h, c)
  {
    var ch := tree[id].children;
    var c := ch[i];
    assert ch == ch[..i + 1] + ch[i + 1..];
    WalkAllAppend(tree, rank, h, ch[..i + 1], ch[i + 1..], rank[id]);
    WalkAllSnoc(tree, rank, h, ch, i, rank[id]);
    var before, mine, after := WalkAll(tree, rank, h, ch[..i], rank[id]), Walk(tree, rank, h, c),
                               WalkAll(tree, rank, h, ch[i + 1..], rank[id]);
    assert WalkAll(tree, rank, h, ch, rank[id]) == (before + mine) + after;
    MiddleSlice([Event(h, id)], before, mine, after);
  }

  lemma MiddleSlice(e: seq<Event>, a: seq<Event>, b: seq<Event>, c: seq<Event>)
    ensures (e + ((a + b) + c))[|e| + |a|..|e| + |a| + |b|] == b
  {
  }

  /** Later siblings are visited after an earlier sibling's whole traversal: children paint over earlier ones. */
  lemma {:induction false} SiblingsInOrder(tree: Tree, rank: map<NodeId, nat>, h: Hook, id: NodeId, i: nat, j: nat)
    requires Ranked(tree, rank) && id in rank && i < j < |tree[id].children|
    ensures tree[id].children[i] in rank
    ensures Slot(tree, rank, h, id, i) + |Walk(tree, rank, h, tree[id].children[i])| <= Slot(tree, rank, h, id, j)
  {
    var ch := tree[id].children;
    assert ch[..j] == ch[..i + 1] + ch[i + 1..j];
    assert forall c | c in ch[..j] :: c in ch;
    WalkAllAppend(tree, rank, h, ch[..i + 1], ch[i + 1..j], rank[id]);
    WalkAllSnoc(tree, rank, h, ch, i, rank[id]);
  }

  /** The instances a sequence of events is about, in order. */
  function NodesOf(events: seq<Event>): (r: seq<NodeId>)
    ensures |r| == |events| && forall k :: 0 <= k < |events| ==> r[k] == events[k].node
  {
    seq(|events|, k requires 0 <= k < |events| => events[k].node)
  }

  /** `update` and `draw` visit the same instances in the same order. */
  lemma {:induction false} SameVisitOrder(tree: Tree, rank: map<NodeId, nat>, id: NodeId)
    requires Ranked(tree, rank) && id in rank
    ensures NodesOf(Walk(tree, rank, UpdateHook, id)) == NodesOf(Walk(tree, rank, DrawHook, id))
    decreases rank[id], 1
  {
    AllSameVisitOrder(tree, rank, tree[id].children, rank[id]);
    NodesOfAppend([Event(UpdateHook, id)], WalkAll(tree, rank, UpdateHook, tree[id].children, rank[id]));
    NodesOfAppend([Event(DrawHook, id)], WalkAll(tree, rank, DrawHook, tree[id].children, rank[id]));
  }

  lemma {:induction false} AllSameVisitOrder(tree: Tree, rank: map<NodeId, nat>, ids: seq<NodeId>, bound: nat)
    requires Ranked(tree, rank) && Below(tree, rank, ids, bound)
    ensures NodesOf(WalkAll(tree, rank, UpdateHook, ids, bound)) == NodesOf(WalkAll(tree, rank, DrawHook, ids, bound))
    decreases bound, 0, |ids|
  {
    if ids != [] {
      assert ids[0] in ids;
      assert forall c | c in ids[1..] :: c in ids;
      SameVisitOrder(tree, rank, ids[0]);
      AllSameVisitOrder(tree, rank, ids[1..], bound);
      NodesOfAppend(Walk(tree, rank, UpdateHook, ids[0]), WalkAll(tree, rank, UpdateHook, ids[1..], bound));
      NodesOfAppend(Walk(tree, rank, DrawHook, ids[0]), WalkAll(tree, rank, DrawHook, ids[1..], bound));
    }
  }

  lemma NodesOfAppend(a: seq<Event>, b: seq<Event>)
    ensures NodesOf(a + b) == NodesOf(a) + NodesOf(b)
  {
  }
}
