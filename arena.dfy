/**
 * The scene's instances as an arena keyed by stable ids. The fields of an
 * instance are kept in two records under the same id: its `Link` (the ordered,
 * owning children list and the parent back-reference) and its `Info` (type tag,
 * name, descriptor and cached bounds). The tree operations of this module touch
 * links only; the bounds operations in placement.dfy touch infos only.
 */
module Arena {
  import opened Wrappers
  import opened Geometry

  type NodeId = nat

  /** `children` and `_internalParent` of an instance. */
  datatype Link = Link(children: seq<NodeId>, parent: Option<NodeId>)

  /** `className`, `name`, the eight descriptor fields and the four cached bounds of an instance. */
  datatype Info = Info(className: string, name: string, layout: Layout, bounds: Bounds)

  type Tree = map<NodeId, Link>
  type Attrs = map<NodeId, Info>

  /** A freshly constructed instance is detached with no children ... */
  const NewLink := Link([], None)

  /** ... is named after its type tag and has all numbers zero. */
  function NewInfo(className: string): (r: Info)
    ensures r.className == className && r.name == className
    ensures forall f :: r.layout.Get(f) == 0.0
    ensures r.bounds.x == 0.0 && r.bounds.y == 0.0 && r.bounds.w == 0.0 && r.bounds.h == 0.0
  {
    Info(className, className, ZeroLayout, ZeroBounds)
  }

  predicate NoDuplicates(s: seq<NodeId>)
  {
    forall i, j :: 0 <= i < j < |s| ==> s[i] != s[j]
  }

  /**
   * The children lists and the parent back-references agree: `c` is listed by `p`
   * exactly when `c`'s parent is `p`, and no list names a child twice. Hence an
   * instance is a child of at most one parent (see AtMostOneParent).
   */
  ghost predicate Linked(tree: Tree)
  {
    ChildrenPointBack(tree) && ParentsListChild(tree) && ListsUnique(tree)
  }

  ghost predicate ChildrenPointBack(tree: Tree)
  {
    forall p, c | p in tree && c in tree[p].children :: c in tree && tree[c].parent == Some(p)
  }

  ghost predicate ParentsListChild(tree: Tree)
  {
    forall c | c in tree && tree[c].parent.Some? ::
      tree[c].parent.value in tree && c in tree[tree[c].parent.value].children
  }

  ghost predicate ListsUnique(tree: Tree)
  {
    forall p | p in tree :: NoDuplicates(tree[p].children)
  }

  lemma AtMostOneParent(tree: Tree, c: NodeId, p: NodeId, q: NodeId)
    requires Linked(tree) && p in tree && q in tree
    requires c in tree[p].children && c in tree[q].children
    ensures p == q
  {
    assert tree[c].parent == Some(p) && tree[c].parent == Some(q);
  }

  /** Only an instance's own parent lists it. */
  lemma ListedOnlyByParent(tree: Tree, q: NodeId, c: NodeId)
    requires ChildrenPointBack(tree) && q in tree
    ensures c in tree[q].children ==> c in tree && tree[c].parent == Some(q)
  {
  }

  // ---------------------------------------------------------------- searching

  /** `Array.prototype.findIndex`: the lowest index whose element satisfies `p`, or -1. */
  function FindIndex<T>(s: seq<T>, p: T -> bool): (r: int)
    ensures -1 <= r < |s|
    ensures r == -1 <==> forall i :: 0 <= i < |s| ==> !p(s[i])
    ensures 0 <= r ==> p(s[r]) && forall i :: 0 <= i < r ==> !p(s[i])
  {
    if s == [] then -1
    else if p(s[0]) then 0
    else
      var r := FindIndex(s[1..], p);
      assert forall i :: 1 <= i < |s| ==> s[i] == s[1..][i - 1];
      if r == -1 then -1 else r + 1
  }

  /** The search by identity: the position of the first occurrence of `c`, or -1. */
  function IndexOf(s: seq<NodeId>, c: NodeId): (r: int)
    ensures -1 <= r < |s|
    ensures r == -1 <==> c !in s
    ensures 0 <= r ==> s[r] == c && c !in s[..r]
  {
    FindIndex(s, x => x == c)
  }

  /** The list with its first occurrence of `c` spliced out (the corrected `remove`'s `splice`). */
  function RemoveFirst(s: seq<NodeId>, c: NodeId): (r: seq<NodeId>)
    ensures c !in s ==> r == s
  {
    var i := IndexOf(s, c);
    if i == -1 then s else s[..i] + s[i + 1..]
  }

  /** Splicing out removes one occurrence of `c` and keeps every other element in its relative order. */
  lemma {:induction false} RemoveFirstSpliced(s: seq<NodeId>, c: NodeId)
    requires c in s
    ensures var i, r := IndexOf(s, c), RemoveFirst(s, c);
            |r| == |s| - 1 && multiset(r) == multiset(s) - multiset{c} &&
            (forall k :: 0 <= k < i ==> r[k] == s[k]) && (forall k :: i <= k < |r| ==> r[k] == s[k + 1])
  {
    var i, r := IndexOf(s, c), RemoveFirst(s, c);
    var pre, post := s[..i], s[i + 1..];
    assert s == pre + [c] + post;
    assert r == pre + post;
    assert multiset(s) == multiset(pre) + multiset{c} + multiset(post);
    assert multiset(r) == multiset(pre) + multiset(post);
    forall k | i <= k < |r|
      ensures r[k] == s[k + 1]
    {
      assert r[k] == post[k - i];
    }
  }

  /** On a list without duplicates, splicing out `c` removes exactly `c` and keeps the list duplicate-free. */
  lemma {:induction false} RemoveFirstUnique(s: seq<NodeId>, c: NodeId)
    requires NoDuplicates(s)
    ensures NoDuplicates(RemoveFirst(s, c))
    ensures forall x :: x in RemoveFirst(s, c) <==> x in s && x != c
  {
    if c in s {
      var i := IndexOf(s, c);
      var r := RemoveFirst(s, c);
      RemoveFirstSpliced(s, c);
      forall x
        ensures x in r <==> x in s && x != c
      {
        if x in s && x != c {
          var k :| 0 <= k < |s| && s[k] == x;
          assert k != i;
          assert r[if k < i then k else k - 1] == x;
        }
      }
    }
  }

  predicate HasName(attrs: Attrs, c: NodeId, name: string)
  {
    c in attrs && attrs[c].name == name
  }

  /** `findFirstChild`: the child of lowest index with the given name, if there is one. */
  function FindFirstChild(tree: Tree, attrs: Attrs, id: NodeId, name: string): (r: Option<NodeId>)
    requires id in tree
    ensures var ch := tree[id].children;
            r.None? <==> forall i :: 0 <= i < |ch| ==> !HasName(attrs, ch[i], name)
    ensures var ch := tree[id].children;
            r.Some? ==> exists i :: 0 <= i < |ch| && ch[i] == r.value && HasName(attrs, ch[i], name) &&
                                    forall j :: 0 <= j < i ==> !HasName(attrs, ch[j], name)
  {
    var ch := tree[id].children;
    var i := FindIndex(ch, c => HasName(attrs, c, name));
    if i == -1 then None else Some(ch[i])
  }

  // ---------------------------------------------------------------- the tree

  /**
   * `remove` as its comment describes it: search the children by identity; if `c`
   * is not there, report false and change nothing; otherwise splice out its first
   * occurrence, clear its parent and report true.
   */
  function Detach(tree: Tree, p: NodeId, c: NodeId): (res: (bool, Tree))
    requires p in tree && c in tree
    ensures res.1.Keys == tree.Keys
    ensures res.0 <==> c in tree[p].children
    ensures !res.0 ==> res.1 == tree
    ensures res.0 ==> res.1[p].children == RemoveFirst(tree[p].children, c) && res.1[c].parent == None
    ensures forall id | id in tree && id != p :: res.1[id].children == tree[id].children
    ensures forall id | id in tree && id != c :: res.1[id].parent == tree[id].parent
  {
    if c !in tree[p].children then (false, tree)
    else
      var spliced := tree[p := tree[p].(children := RemoveFirst(tree[p].children, c))];
      (true, spliced[c := spliced[c].(parent := None)])
  }

  /** The old parent of `c`, if any, is in the arena. */
  predicate ParentKnown(tree: Tree, c: NodeId)
  {
    c in tree && (tree[c].parent.Some? ==> tree[c].parent.value in tree)
  }

  /** The second half of `add`: set the parent of `c` to `p` and append `c` to `p`'s children. */
  function Adopt(tree: Tree, p: NodeId, c: NodeId): (r: Tree)
    requires p in tree && c in tree
    ensures r.Keys == tree.Keys
    ensures r[c].parent == Some(p) && r[p].children == tree[p].children + [c]
    ensures forall id | id in tree && id != p :: r[id].children == tree[id].children
    ensures forall id | id in tree && id != c :: r[id].parent == tree[id].parent
  {
    var reparented := tree[c := tree[c].(parent := Some(p))];
    reparented[p := reparented[p].(children := reparented[p].children + [c])]
  }

  /**
   * `add`: a child that already has a parent is first removed from it; then its
   * parent becomes `p` and it is appended to `p`'s children.
   */
  function Attach(tree: Tree, p: NodeId, c: NodeId): (r: Tree)
    requires p in tree && ParentKnown(tree, c)
    ensures r.Keys == tree.Keys
    ensures r[c].parent == Some(p)
    ensures r[p].children ==
              (if tree[c].parent == Some(p) then RemoveFirst(tree[p].children, c) else tree[p].children) + [c]
    ensures tree[c].parent.Some? && tree[c].parent.value != p ==>
              r[tree[c].parent.value].children == RemoveFirst(tree[tree[c].parent.value].children, c)
    ensures forall id | id in tree && id != p && Some(id) != tree[c].parent :: r[id].children == tree[id].children
    ensures forall id | id in tree && id != c :: r[id].parent == tree[id].parent
  {
    Adopt(Orphaned(tree, c), p, c)
  }

  /** The first half of `add`: `c` removed from its old parent, if it has one. */
  function Orphaned(tree: Tree, c: NodeId): (r: Tree)
    requires ParentKnown(tree, c)
    ensures r.Keys == tree.Keys
    ensures tree[c].parent.None? || c in tree[tree[c].parent.value].children ==> r[c].parent == None
    ensures tree[c].parent.Some? ==>
              r[tree[c].parent.value].children == RemoveFirst(tree[tree[c].parent.value].children, c)
    ensures forall id | id in tree && Some(id) != tree[c].parent :: r[id].children == tree[id].children
    ensures forall id | id in tree && id != c :: r[id].parent == tree[id].parent
  {
    if tree[c].parent.Some? then Detach(tree, tree[c].parent.value, c).1 else tree
  }

  /** Removing keeps the children lists and the back-references in agreement. */
  lemma DetachLinked(tree: Tree, p: NodeId, c: NodeId)
    requires Linked(tree) && p in tree && c in tree
    ensures var r := Detach(tree, p, c).1;
            Linked(r) && c !in r[p].children
  {
    var (found, r) := Detach(tree, p, c);
    if found {
      var s := tree[p].children;
      RemoveFirstUnique(s, c);
      assert r[p].children == RemoveFirst(s, c);
      assert ChildrenPointBack(r) by {
        forall q, d | q in r && d in r[q].children
          ensures d in r && r[d].parent == Some(q)
        {
          assert d in tree[q].children && d != c by {
            if q != p {
              assert r[q].children == tree[q].children;
              assert tree[d].parent == Some(q) && tree[c].parent == Some(p);
            }
          }
          assert r[d].parent == tree[d].parent;
        }
      }
      assert ParentsListChild(r) by {
        forall d | d in r && r[d].parent.Some?
          ensures r[d].parent.value in r && d in r[r[d].parent.value].children
        {
          assert d != c && r[d].parent == tree[d].parent;
          assert d in tree[tree[d].parent.value].children;
        }
      }
      assert ListsUnique(r) by {
        forall q | q in r
          ensures NoDuplicates(r[q].children)
        {
          if q != p { assert r[q].children == tree[q].children; }
        }
      }
    }
  }

  /** In a linked tree, removing `c` from its old parent leaves it without parent and listed nowhere. */
  lemma OrphanedLinked(tree: Tree, c: NodeId)
    requires Linked(tree) && c in tree
    ensures ParentKnown(tree, c)
    ensures var r := Orphaned(tree, c);
            Linked(r) && r[c].parent == None && forall q | q in r :: c !in r[q].children
  {
    var r := Orphaned(tree, c);
    if tree[c].parent.Some? {
      DetachLinked(tree, tree[c].parent.value, c);
    }
    forall q | q in r
      ensures c !in r[q].children
    {
      ListedOnlyByParent(r, q, c);
    }
  }

  /** Adopting an instance that has no parent keeps the tree linked and lists it exactly once. */
  lemma AdoptLinked(tree: Tree, p: NodeId, c: NodeId)
    requires Linked(tree) && p in tree && c in tree && tree[c].parent == None
    ensures var r := Adopt(tree, p, c);
            Linked(r) && multiset(r[p].children)[c] == 1 && forall q | q in r && q != p :: c !in r[q].children
  {
    var r := Adopt(tree, p, c);
    var s := tree[p].children;
    ListedOnlyByParent(tree, p, c);
    assert NoDuplicates(r[p].children) by {
      forall i, j | 0 <= i < j < |s| + 1
        ensures r[p].children[i] != r[p].children[j]
      {
        if j == |s| { assert r[p].children[i] == s[i]; }
      }
    }
    assert multiset(r[p].children) == multiset(s) + multiset{c};
    forall q, d | q in r && d in r[q].children
      ensures d in r && r[d].parent == Some(q)
    {
      if !(q == p && d == c) {
        assert d in tree[q].children;
      }
    }
    forall q | q in r && q != p
      ensures c !in r[q].children
    {
      ListedOnlyByParent(tree, q, c);
    }
  }

  /**
   * Moving an instance: afterwards its parent is `p`, `p` lists it exactly once,
   * and no other instance lists it; the tree stays linked.
   */
  lemma AttachMoves(tree: Tree, p: NodeId, c: NodeId)
    requires Linked(tree) && p in tree && c in tree
    ensures ParentKnown(tree, c)
    ensures var r := Attach(tree, p, c);
            && Linked(r)
            && r[c].parent == Some(p)
            && multiset(r[p].children)[c] == 1
            && forall q | q in r && q != p :: c !in r[q].children
  {
    OrphanedLinked(tree, c);
    AdoptLinked(Orphaned(tree, c), p, c);
  }

  /** Attaching a detached instance and removing it again restores the tree, and the removal reports true. */
  lemma AttachDetachRoundTrip(tree: Tree, p: NodeId, c: NodeId)
    requires Linked(tree) && p in tree && c in tree && tree[c].parent == None
    ensures ParentKnown(tree, c)
    ensures Detach(Attach(tree, p, c), p, c) == (true, tree)
  {
    var s := tree[p].children;
    ListedOnlyByParent(tree, p, c);
    var a := Adopt(tree, p, c);
    assert (s + [c])[..|s|] == s;
    assert RemoveFirst(s + [c], c) == s by {
      assert IndexOf(s + [c], c) == |s|;
    }
    var spliced := a[p := a[p].(children := s)];
    var r := spliced[c := spliced[c].(parent := None)];
    assert Detach(a, p, c) == (true, r);
    assert r.Keys == tree.Keys;
    forall id | id in tree
      ensures r[id] == tree[id]
    {
      if id != p && id != c {
        assert r[id] == a[id];
      }
    }
    assert r == tree;
  }

  /** A value `indexOf` compares the children with by strict equality: an instance, or an arrow function. */
  datatype SearchKey = Child(id: NodeId) | ArrowFn

  /** `Array.prototype.indexOf` on a children list: the first index holding `k`, or -1. */
  function IndexOfKey(s: seq<NodeId>, k: SearchKey): (r: int)
    ensures -1 <= r < |s|
    ensures r == -1 <==> forall i :: 0 <= i < |s| ==> Child(s[i]) != k
    ensures 0 <= r ==> Child(s[r]) == k && forall i :: 0 <= i < r ==> Child(s[i]) != k
  {
    FindIndex(s, x => Child(x) == k)
  }

  /** Searching for an instance itself is the identity search of the corrected `remove`. */
  lemma IndexOfKeyChild(s: seq<NodeId>, c: NodeId)
    ensures IndexOfKey(s, Child(c)) == IndexOf(s, c)
  {
  }

  /** What `remove` as written returns: `false` from its early exit, `undefined` from falling off its end. */
  datatype Returned = ReturnedFalse | ReturnedUndefined

  /**
   * `remove` as written: `indexOf` is given the arrow function `(child) => child === instance`;
   * when the index is -1 it returns false, otherwise it splices that index out, clears the
   * parent of `c` and returns undefined.
   */
  function DetachAsWritten(tree: Tree, p: NodeId, c: NodeId): (res: (Returned, Tree))
    requires p in tree && c in tree
    ensures res.1.Keys == tree.Keys
    ensures res.0 == ReturnedFalse ==> res.1 == tree
    ensures res.0 == ReturnedUndefined ==> |res.1[p].children| == |tree[p].children| - 1 && res.1[c].parent == None
  {
    var index := IndexOfKey(tree[p].children, ArrowFn);
    if index == -1 then (ReturnedFalse, tree)
    else (ReturnedUndefined, ClearParent(SpliceAt(tree, p, index), c))
  }

  /** `children.splice(index, 1)` on the children of `p`, for an index inside the list. */
  function SpliceAt(tree: Tree, p: NodeId, index: int): (r: Tree)
    ensures r.Keys == tree.Keys
    ensures p in tree && 0 <= index < |tree[p].children| ==>
              r[p].children == tree[p].children[..index] + tree[p].children[index + 1..] && r[p].parent == tree[p].parent
    ensures forall id | id in tree && id != p :: r[id] == tree[id]
  {
    if p in tree && 0 <= index < |tree[p].children|
    then tree[p := tree[p].(children := tree[p].children[..index] + tree[p].children[index + 1..])]
    else tree
  }

  /** `instance._internalParent = null`. */
  function ClearParent(tree: Tree, c: NodeId): (r: Tree)
    ensures r.Keys == tree.Keys
    ensures c in tree ==> r[c].parent == None && r[c].children == tree[c].children
    ensures forall id | id in tree && id != c :: r[id] == tree[id]
  {
    if c in tree then tree[c := tree[c].(parent := None)] else tree
  }

  /** No child is the arrow function, so `remove` as written returns false and changes nothing, for every argument. */
  lemma DetachAsWrittenNeverRemoves(tree: Tree, p: NodeId, c: NodeId)
    requires p in tree && c in tree
    ensures DetachAsWritten(tree, p, c) == (ReturnedFalse, tree)
  {
    assert IndexOfKey(tree[p].children, ArrowFn) == -1;
  }

  /** `add` as written, whose removal from the old parent never removes: every other list stays as it was. */
  function AttachAsWritten(tree: Tree, p: NodeId, c: NodeId): (r: Tree)
    requires p in tree && ParentKnown(tree, c)
    ensures r.Keys == tree.Keys && r[c].parent == Some(p) && r[p].children == tree[p].children + [c]
    ensures forall id | id in tree && id != p :: r[id].children == tree[id].children
  {
    if tree[c].parent.Some? then
      DetachAsWrittenNeverRemoves(tree, tree[c].parent.value, c);
      Adopt(DetachAsWritten(tree, tree[c].parent.value, c).1, p, c)
    else
      Adopt(tree, p, c)
  }

  /** As written, removing a listed child leaves the list as it was, where the intended removal shortens it. */
  lemma DetachAsWrittenKeepsChild(tree: Tree, p: NodeId, c: NodeId)
    requires p in tree && c in tree && c in tree[p].children
    ensures c in DetachAsWritten(tree, p, c).1[p].children && DetachAsWritten(tree, p, c).0 == ReturnedFalse
    ensures |Detach(tree, p, c).1[p].children| == |tree[p].children| - 1 && Detach(tree, p, c).0
  {
    DetachAsWrittenNeverRemoves(tree, p, c);
    RemoveFirstSpliced(tree[p].children, c);
  }

  /**
   * As written, moving a parented instance to another parent leaves it listed by the
   * old parent as well: the tree is no longer linked.
   */
  lemma AttachAsWrittenBreaksLinked(tree: Tree, p: NodeId, c: NodeId)
    requires Linked(tree) && p in tree && c in tree
    requires tree[c].parent.Some? && tree[c].parent.value != p
    ensures ParentKnown(tree, c)
    ensures var q, r := tree[c].parent.value, AttachAsWritten(tree, p, c);
            c in r[q].children && c in r[p].children && !Linked(r)
  {
    var q, r := tree[c].parent.value, AttachAsWritten(tree, p, c);
    assert r[q].children == tree[q].children;
    assert r[c].parent != Some(q);
  }
}
