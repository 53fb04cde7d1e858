/**
 * Properties of the node operations of module Nodes: the descendant search
 * against an independent pre-order listing, the stacks left by Trace and
 * FindCycle as paths of parent-to-child links, and round trips of the
 * child-list mutations.
 */
module NodeProperties {
  import opened Wrappers
  import opened Nodes

  // ---------------------------------------------------------------------------
  // Reference definition of the descendant order

  /**
   * The strict descendants of `p` reached through its children from index
   * `i` on, listed in depth-first pre-order: each child, then that child's
   * own descendants, then the next sibling.
   */
  ghost function PreOrderFrom(s: Store, rank: map<NodeId, nat>, p: NodeId, i: nat): (r: seq<NodeId>)
    requires Valid(s) && Ranked(s, rank) && p in s.nodes
    requires i <= |s.nodes[p].children|
    decreases rank[p], |s.nodes[p].children| - i
  {
    var kids := s.nodes[p].children;
    if i == |kids| then []
    else [kids[i]] + PreOrderFrom(s, rank, kids[i], 0) + PreOrderFrom(s, rank, p, i + 1)
  }

  ghost function PreOrder(s: Store, rank: map<NodeId, nat>, id: NodeId): seq<NodeId>
    requires Valid(s) && Ranked(s, rank) && id in s.nodes
  {
    PreOrderFrom(s, rank, id, 0)
  }

  /** Everything listed below `p` is a node of the arena ranked strictly below `p`. */
  lemma {:induction false} PreOrderBelow(s: Store, rank: map<NodeId, nat>, p: NodeId, i: nat)
    requires Valid(s) && Ranked(s, rank) && p in s.nodes
    requires i <= |s.nodes[p].children|
    ensures forall x :: x in PreOrderFrom(s, rank, p, i) ==> x in s.nodes && x in rank && rank[x] < rank[p]
    decreases rank[p], |s.nodes[p].children| - i
  {
    var kids := s.nodes[p].children;
    if i < |kids| {
      PreOrderBelow(s, rank, kids[i], 0);
      PreOrderBelow(s, rank, p, i + 1);
    }
  }

  /** The receiver is never among its own strict descendants on an acyclic arena. */
  lemma PreOrderExcludesSelf(s: Store, rank: map<NodeId, nat>, id: NodeId)
    requires Valid(s) && Ranked(s, rank) && id in s.nodes
    ensures id !in PreOrder(s, rank, id)
  {
    PreOrderBelow(s, rank, id, 0);
  }

  /** The first named element of a concatenation: searched left part first. */
  lemma {:induction false} FirstAppend(s: Store, xs: seq<NodeId>, ys: seq<NodeId>, name: string)
    ensures First(s, xs + ys, name) == if First(s, xs, name).Some? then First(s, xs, name) else First(s, ys, name)
  {
    var i := FirstIndex(s, xs, name);
    var k := FirstIndex(s, xs + ys, name);
    if i < |xs| {
      assert (xs + ys)[i] == xs[i];
      assert forall j :: 0 <= j < i ==> (xs + ys)[j] == xs[j];
      assert k == i;
    } else {
      var m := FirstIndex(s, ys, name);
      forall j | 0 <= j < |xs| + m
        ensures !Named(s, (xs + ys)[j], name)
      {
        if j < |xs| {
          assert (xs + ys)[j] == xs[j];
        } else {
          assert (xs + ys)[j] == ys[j - |xs|];
        }
      }
      if m < |ys| {
        assert (xs + ys)[|xs| + m] == ys[m];
      }
      assert k == |xs| + m;
    }
  }

  /**
   * The descendant search returns the first node of the pre-order listing
   * that carries the name: a child is compared before its subtree, and an
   * earlier sibling's whole subtree before any later sibling.
   */
  lemma {:induction false} SearchIsFirstInPreOrder(s: Store, rank: map<NodeId, nat>, p: NodeId, i: nat, name: string)
    requires Valid(s) && Ranked(s, rank) && p in s.nodes
    requires i <= |s.nodes[p].children|
    ensures SearchChildren(s, rank, p, i, name) == First(s, PreOrderFrom(s, rank, p, i), name)
    decreases rank[p], |s.nodes[p].children| - i
  {
    var kids := s.nodes[p].children;
    if i < |kids| {
      var c := kids[i];
      var below := PreOrderFrom(s, rank, c, 0);
      var after := PreOrderFrom(s, rank, p, i + 1);
      SearchIsFirstInPreOrder(s, rank, c, 0, name);
      SearchIsFirstInPreOrder(s, rank, p, i + 1, name);
      FirstAppend(s, [c], below + after, name);
      FirstAppend(s, below, after, name);
      assert PreOrderFrom(s, rank, p, i) == [c] + (below + after);
    }
  }

  lemma FindOrDefaultIsFirstInPreOrder(s: Store, rank: map<NodeId, nat>, id: NodeId, name: string)
    requires Valid(s) && Ranked(s, rank) && id in s.nodes
    ensures IsFirstNamed(s, PreOrder(s, rank, id), name, FindOrDefault(s, rank, id, name))
  {
    SearchIsFirstInPreOrder(s, rank, id, 0, name);
  }

  /** The result of the descendant search does not depend on which rank witnesses acyclicity. */
  lemma {:induction false} SearchIgnoresRank(s: Store, rank1: map<NodeId, nat>, rank2: map<NodeId, nat>, p: NodeId, i: nat, name: string)
    requires Valid(s) && Ranked(s, rank1) && Ranked(s, rank2) && p in s.nodes
    requires i <= |s.nodes[p].children|
    ensures SearchChildren(s, rank1, p, i, name) == SearchChildren(s, rank2, p, i, name)
    decreases rank1[p], |s.nodes[p].children| - i
  {
    var kids := s.nodes[p].children;
    if i < |kids| {
      SearchIgnoresRank(s, rank1, rank2, kids[i], 0, name);
      SearchIgnoresRank(s, rank1, rank2, p, i + 1, name);
    }
  }

  /** A name held by a direct child is also found among the descendants. */
  lemma {:induction false} ChildFoundAmongDescendants(s: Store, rank: map<NodeId, nat>, p: NodeId, i: nat, name: string)
    requires Valid(s) && Ranked(s, rank) && p in s.nodes
    requires i <= |s.nodes[p].children|
    requires exists j :: i <= j < |s.nodes[p].children| && Named(s, s.nodes[p].children[j], name)
    ensures SearchChildren(s, rank, p, i, name).Some?
    decreases |s.nodes[p].children| - i
  {
    var kids := s.nodes[p].children;
    if s.nodes[kids[i]].name != name && SearchChildren(s, rank, kids[i], 0, name).None? {
      ChildFoundAmongDescendants(s, rank, p, i + 1, name);
    }
  }

  lemma ChildImpliesDescendant(s: Store, rank: map<NodeId, nat>, id: NodeId, name: string)
    requires Valid(s) && Ranked(s, rank) && id in s.nodes
    requires FindChildOrDefault(s, id, name).Some?
    ensures FindOrDefault(s, rank, id, name).Some?
  {
    var kids := s.nodes[id].children;
    var k := FirstIndex(s, kids, name);
    ChildFoundAmongDescendants(s, rank, id, 0, name);
  }

  // ---------------------------------------------------------------------------
  // Paths

  /** `ids` is a non-empty chain of parent-to-child links of the arena. */
  ghost predicate IsPath(s: Store, ids: seq<NodeId>) {
    && |ids| >= 1
    && (forall k :: 0 <= k < |ids| ==> ids[k] in s.nodes)
    && (forall k :: 1 <= k < |ids| ==> ids[k] in s.nodes[ids[k - 1]].children)
  }

  /** No two nodes of the arena share a name. */
  ghost predicate UniqueNames(s: Store) {
    forall a, b :: a in s.nodes && b in s.nodes && s.nodes[a].name == s.nodes[b].name ==> a == b
  }

  /** The names of the nodes along `ids`. */
  ghost function Names(s: Store, ids: seq<NodeId>): (r: seq<string>)
    requires forall k :: 0 <= k < |ids| ==> ids[k] in s.nodes
    ensures |r| == |ids|
    ensures forall k :: 0 <= k < |ids| ==> r[k] == s.nodes[ids[k]].name
  {
    seq(|ids|, k requires 0 <= k < |ids| => s.nodes[ids[k]].name)
  }

  /** A node whose child starts a path extends that path by one link. */
  lemma PrependPath(s: Store, c: NodeId, below: seq<NodeId>)
    requires c in s.nodes && IsPath(s, below) && below[0] in s.nodes[c].children
    ensures IsPath(s, [c] + below)
    ensures Names(s, [c] + below) == [s.nodes[c].name] + Names(s, below)
  {
  }

  /**
   * A search that pushed `c`'s name at position `|stack|` and then the names
   * of a path below `c` has pushed the names of that path extended by `c`.
   */
  lemma ExtendPushedPath(s: Store, c: NodeId, below: seq<NodeId>, stack: seq<string>, st: seq<string>)
    requires c in s.nodes && IsPath(s, below) && below[0] in s.nodes[c].children
    requires |st| > |stack| && st[|stack|] == s.nodes[c].name
    requires Names(s, below) == st[|stack| + 1..]
    ensures IsPath(s, [c] + below)
    ensures Names(s, [c] + below) == st[|stack|..]
  {
    PrependPath(s, c, below);
    assert st[|stack|..] == [st[|stack|]] + st[|stack| + 1..];
  }

  /** Along a path of an acyclic arena the rank strictly decreases. */
  lemma {:induction false} PathRankDecreases(s: Store, rank: map<NodeId, nat>, ids: seq<NodeId>, j: nat, k: nat)
    requires Valid(s) && Ranked(s, rank) && IsPath(s, ids)
    requires j < k < |ids|
    ensures ids[j] in rank && ids[k] in rank && rank[ids[k]] < rank[ids[j]]
    decreases k - j
  {
    if j + 1 < k {
      PathRankDecreases(s, rank, ids, j, k - 1);
    }
  }

  /** Every child from index `i` on, and everything below it, is listed in PreOrderFrom(p, i). */
  lemma {:induction false} PreOrderHoldsLaterChild(s: Store, rank: map<NodeId, nat>, p: NodeId, i: nat, j: nat)
    requires Valid(s) && Ranked(s, rank) && p in s.nodes
    requires i <= j < |s.nodes[p].children|
    ensures var c := s.nodes[p].children[j];
            c in PreOrderFrom(s, rank, p, i)
            && forall x :: x in PreOrderFrom(s, rank, c, 0) ==> x in PreOrderFrom(s, rank, p, i)
    decreases j - i
  {
    if i < j {
      PreOrderHoldsLaterChild(s, rank, p, i + 1, j);
    }
  }

  /** Every node at the end of a path from `ids[0]` of length two or more is a listed descendant. */
  lemma {:induction false} PathEndInPreOrder(s: Store, rank: map<NodeId, nat>, ids: seq<NodeId>)
    requires Valid(s) && Ranked(s, rank) && IsPath(s, ids) && |ids| >= 2
    ensures ids[|ids| - 1] in PreOrder(s, rank, ids[0])
    decreases |ids|
  {
    var kids := s.nodes[ids[0]].children;
    var j :| 0 <= j < |kids| && kids[j] == ids[1];
    PreOrderHoldsLaterChild(s, rank, ids[0], 0, j);
    if |ids| > 2 {
      PathEndInPreOrder(s, rank, ids[1..]);
    }
  }

  /**
   * Completeness of the descendant search: when the end of a path from `id`
   * carries the name, FindOrDefault finds a node with that name; when names
   * are unique it finds exactly that node.
   */
  lemma FindOrDefaultFindsPathEnd(s: Store, rank: map<NodeId, nat>, ids: seq<NodeId>, name: string)
    requires Valid(s) && Ranked(s, rank) && IsPath(s, ids) && |ids| >= 2
    requires Named(s, ids[|ids| - 1], name)
    ensures FindOrDefault(s, rank, ids[0], name).Some?
    ensures UniqueNames(s) ==> FindOrDefault(s, rank, ids[0], name) == Some(ids[|ids| - 1])
  {
    var below := PreOrder(s, rank, ids[0]);
    PathEndInPreOrder(s, rank, ids);
    FindOrDefaultIsFirstInPreOrder(s, rank, ids[0], name);
    var k :| 0 <= k < |below| && below[k] == ids[|ids| - 1];
    assert Named(s, below[k], name);
  }

  // ---------------------------------------------------------------------------
  // Trace

  /** Trace's loop succeeds exactly when the descendant search finds the name. */
  lemma {:induction false} TraceChildrenAgrees(s: Store, rank: map<NodeId, nat>, p: NodeId, i: nat, name: string, stack: seq<string>)
    requires Valid(s) && Ranked(s, rank) && p in s.nodes
    requires i <= |s.nodes[p].children|
    ensures TraceChildren(s, rank, p, i, name, stack).0 <==> SearchChildren(s, rank, p, i, name).Some?
    decreases rank[p], |s.nodes[p].children| - i
  {
    var kids := s.nodes[p].children;
    if i < |kids| && s.nodes[kids[i]].name != name {
      var c := kids[i];
      TraceChildrenAgrees(s, rank, c, 0, name, stack + [s.nodes[c].name]);
      TraceChildrenAgrees(s, rank, p, i + 1, name, stack);
    }
  }

  /** Trace reports success exactly when FindOrDefault finds a descendant with the name. */
  lemma TraceAgreesWithFind(s: Store, rank: map<NodeId, nat>, id: NodeId, name: string, stack: seq<string>)
    requires Valid(s) && Ranked(s, rank) && id in s.nodes
    ensures Trace(s, rank, id, name, stack).0 <==> FindOrDefault(s, rank, id, name).Some?
  {
    TraceChildrenAgrees(s, rank, id, 0, name, stack + [s.nodes[id].name]);
  }

  lemma {:induction false} TraceChildrenPath(s: Store, rank: map<NodeId, nat>, p: NodeId, i: nat, name: string, stack: seq<string>)
    returns (ids: seq<NodeId>)
    requires Valid(s) && Ranked(s, rank) && p in s.nodes
    requires i <= |s.nodes[p].children|
    requires TraceChildren(s, rank, p, i, name, stack).0
    ensures IsPath(s, ids) && ids[0] in s.nodes[p].children
    ensures Names(s, ids) == TraceChildren(s, rank, p, i, name, stack).1[|stack|..]
    ensures SearchChildren(s, rank, p, i, name) == Some(ids[|ids| - 1])
    decreases rank[p], |s.nodes[p].children| - i
  {
    var kids := s.nodes[p].children;
    var c := kids[i];
    if s.nodes[c].name == name {
      ids := [c];
    } else {
      var pushed := stack + [s.nodes[c].name];
      var sub := TraceChildren(s, rank, c, 0, name, pushed);
      assert Trace(s, rank, c, name, stack) == (if sub.0 then (true, sub.1) else (false, Pop(sub.1)));
      if sub.0 {
        assert TraceChildren(s, rank, p, i, name, stack) == sub;
        var below := TraceChildrenPath(s, rank, c, 0, name, pushed);
        assert sub.1[|stack|] == pushed[|stack|];
        ExtendPushedPath(s, c, below, stack, sub.1);
        ids := [c] + below;
      } else {
        assert TraceChildren(s, rank, p, i, name, stack) == TraceChildren(s, rank, p, i + 1, name, stack);
        TraceChildrenAgrees(s, rank, c, 0, name, pushed);
        ids := TraceChildrenPath(s, rank, p, i + 1, name, stack);
      }
    }
  }

  /**
   * When Trace succeeds, the names it pushed are those of a chain of
   * parent-to-child links that starts at the receiver and ends at the node
   * FindOrDefault returns.
   */
  lemma TracePath(s: Store, rank: map<NodeId, nat>, id: NodeId, name: string, stack: seq<string>)
    returns (ids: seq<NodeId>)
    requires Valid(s) && Ranked(s, rank) && id in s.nodes
    requires Trace(s, rank, id, name, stack).0
    ensures IsPath(s, ids) && ids[0] == id && |ids| >= 2
    ensures Names(s, ids) == Trace(s, rank, id, name, stack).1[|stack|..]
    ensures FindOrDefault(s, rank, id, name) == Some(ids[|ids| - 1])
  {
    var pushed := stack + [s.nodes[id].name];
    var below := TraceChildrenPath(s, rank, id, 0, name, pushed);
    PrependPath(s, id, below);
    ids := [id] + below;
    var st := TraceChildren(s, rank, id, 0, name, pushed).1;
    assert st[|stack|..] == [s.nodes[id].name] + st[|pushed|..];
  }

  // ---------------------------------------------------------------------------
  // FindCycle

  /** FindCycle pushes the receiver's name and runs the loop over its children from the first. */
  lemma EnterNode(s: Store, id: NodeId, stack: seq<string>)
    requires Valid(s) && id in s.nodes
    ensures var sub := FindCycleChildren(s, id, 0, stack + [s.nodes[id].name]);
            FindCycle(s, id, stack) == if sub.0 then sub else (false, stack)
  {
  }

  /** The loop stops with a cycle at a child whose name is already on the stack. */
  lemma ChildOnStack(s: Store, p: NodeId, i: nat, stack: seq<string>)
    requires Valid(s) && p in s.nodes && i < |s.nodes[p].children|
    requires s.nodes[s.nodes[p].children[i]].name in stack
    ensures FindCycleChildren(s, p, i, stack) == (true, stack + [s.nodes[s.nodes[p].children[i]].name])
  {
  }

  /** The loop descends into a child whose name is new, and moves on when that finds no cycle. */
  lemma ChildEntered(s: Store, p: NodeId, i: nat, stack: seq<string>)
    requires Valid(s) && p in s.nodes && i < |s.nodes[p].children|
    requires s.nodes[s.nodes[p].children[i]].name !in stack
    ensures var sub := FindCycle(s, s.nodes[p].children[i], stack);
            FindCycleChildren(s, p, i, stack) == if sub.0 then sub else FindCycleChildren(s, p, i + 1, stack)
  {
  }

  /** The loop past the last child reports no cycle. */
  lemma ChildrenDone(s: Store, p: NodeId, stack: seq<string>)
    requires Valid(s) && p in s.nodes
    ensures FindCycleChildren(s, p, |s.nodes[p].children|, stack) == (false, stack)
  {
  }

  /** A childless node holds no cycle. */
  lemma LeafHasNoCycle(s: Store, id: NodeId, stack: seq<string>)
    requires Valid(s) && id in s.nodes && s.nodes[id].children == []
    ensures FindCycle(s, id, stack) == (false, stack)
  {
    EnterNode(s, id, stack);
    ChildrenDone(s, id, stack + [s.nodes[id].name]);
  }

  /**
   * When FindCycle's loop succeeds, the names it pushed are those of a chain
   * of parent-to-child links starting at one of `p`'s children.
   */
  lemma {:induction false} FindCycleChildrenPath(s: Store, p: NodeId, i: nat, stack: seq<string>)
    returns (ids: seq<NodeId>)
    requires Valid(s) && p in s.nodes
    requires i <= |s.nodes[p].children|
    requires FindCycleChildren(s, p, i, stack).0
    ensures IsPath(s, ids) && ids[0] in s.nodes[p].children
    ensures Names(s, ids) == FindCycleChildren(s, p, i, stack).1[|stack|..]
    decreases |AllNames(s) - Elems(stack)|, 0, |s.nodes[p].children| - i
  {
    var c := s.nodes[p].children[i];
    if s.nodes[c].name in stack {
      ChildOnStack(s, p, i, stack);
      ids := [c];
    } else {
      UnseenShrinks(AllNames(s), stack, s.nodes[c].name);
      ChildEntered(s, p, i, stack);
      if FindCycle(s, c, stack).0 {
        ids := FindCyclePath(s, c, stack);
      } else {
        ids := FindCycleChildrenPath(s, p, i + 1, stack);
      }
    }
  }

  /**
   * When FindCycle succeeds, the names it pushed are those of a chain of
   * parent-to-child links starting at the receiver.
   */
  lemma {:induction false} FindCyclePath(s: Store, id: NodeId, stack: seq<string>) returns (ids: seq<NodeId>)
    requires Valid(s) && id in s.nodes
    requires FindCycle(s, id, stack).0
    ensures IsPath(s, ids) && ids[0] == id && |ids| >= 2
    ensures Names(s, ids) == FindCycle(s, id, stack).1[|stack|..]
    decreases |AllNames(s) - Elems(stack + [s.nodes[id].name])|, 1, 0
  {
    var pushed := stack + [s.nodes[id].name];
    EnterNode(s, id, stack);
    var below := FindCycleChildrenPath(s, id, 0, pushed);
    ExtendPushedPath(s, id, below, stack, FindCycle(s, id, stack).1);
    ids := [id] + below;
  }

  /** On an acyclic arena with unique names, the last node of a path shares its name with no earlier one. */
  lemma LastNameIsNew(s: Store, rank: map<NodeId, nat>, ids: seq<NodeId>)
    requires Valid(s) && Ranked(s, rank) && UniqueNames(s) && IsPath(s, ids)
    ensures Names(s, ids)[|ids| - 1] !in Names(s, ids)[..|ids| - 1]
  {
    var n := |ids|;
    var names := Names(s, ids);
    if names[n - 1] in names[..n - 1] {
      var j :| 0 <= j < n - 1 && names[..n - 1][j] == names[n - 1];
      PathRankDecreases(s, rank, ids, j, n - 1);
      assert false;
    }
  }

  /**
   * On an acyclic arena whose names are unique, FindCycle from an empty
   * stack reports no cycle and leaves the stack empty.
   */
  lemma NoCycleFoundWithoutCycle(s: Store, rank: map<NodeId, nat>, id: NodeId)
    requires Valid(s) && Ranked(s, rank) && UniqueNames(s) && id in s.nodes
    ensures FindCycle(s, id, []) == (false, [])
  {
    var r := FindCycle(s, id, []);
    if r.0 {
      var ids := FindCyclePath(s, id, []);
      assert Names(s, ids) == r.1;
      LastNameIsNew(s, rank, ids);
      assert false;
    }
  }

  /** With unique names, a node's own name is never found among its descendants. */
  lemma FindOwnNameFails(s: Store, rank: map<NodeId, nat>, id: NodeId)
    requires Valid(s) && Ranked(s, rank) && UniqueNames(s) && id in s.nodes
    ensures Find(s, rank, id, s.nodes[id].name) == Failure(NotFound)
  {
  }

  // ---------------------------------------------------------------------------
  // Mutations

  /** After adding a child by name, the new node is the first child with that name. */
  lemma AddedIsFirstNamed(s: Store, id: NodeId, name: string)
    requires Valid(s) && id in s.nodes
    requires AddChildNamed(s, id, name).Success?
    ensures var s' := AddChildNamed(s, id, name).value;
            var kids := s.nodes[id].children;
            && s'.nodes[id].children == kids + [s.next]
            && FirstIndex(s', s'.nodes[id].children, name) == |kids|
  {
    var s' := AddChildNamed(s, id, name).value;
    var kids := s.nodes[id].children;
    var kids' := s'.nodes[id].children;
    forall j | 0 <= j < |kids|
      ensures !Named(s', kids'[j], name)
    {
      assert kids'[j] == kids[j] && kids[j] in s.nodes && !Named(s, kids[j], name);
    }
    assert Named(s', kids'[|kids|], name);
  }

  /** After adding a child by name, looking that name up among the children yields the new node. */
  lemma AddThenFindChild(s: Store, id: NodeId, name: string)
    requires Valid(s) && id in s.nodes
    requires AddChildNamed(s, id, name).Success?
    ensures FindChild(AddChildNamed(s, id, name).value, id, name) == Success(s.next)
  {
    AddedIsFirstNamed(s, id, name);
  }

  /** Adding the same name twice fails the second time with AlreadyExists. */
  lemma AddTwiceFails(s: Store, id: NodeId, name: string)
    requires Valid(s) && id in s.nodes
    requires AddChildNamed(s, id, name).Success?
    ensures AddChildNamed(AddChildNamed(s, id, name).value, id, name) == Failure(AlreadyExists)
  {
    var s' := AddChildNamed(s, id, name).value;
    var kids := s.nodes[id].children;
    assert Named(s', s'.nodes[id].children[|kids|], name);
  }

  /** Adding a child by name and removing the same name restores the child list. */
  lemma AddThenRemoveRestores(s: Store, id: NodeId, name: string)
    requires Valid(s) && id in s.nodes
    requires AddChildNamed(s, id, name).Success?
    ensures var s' := AddChildNamed(s, id, name).value;
            && RemoveChildNamed(s', id, name).Success?
            && RemoveChildNamed(s', id, name).value.nodes[id] == s.nodes[id]
            && forall k :: k in s.nodes ==> RemoveChildNamed(s', id, name).value.nodes[k] == s.nodes[k]
  {
    AddedIsFirstNamed(s, id, name);
    var s' := AddChildNamed(s, id, name).value;
    var kids := s.nodes[id].children;
    var kids' := s'.nodes[id].children;
    assert kids'[..|kids|] + kids'[|kids| + 1..] == kids;
  }

  /** Removing a reference takes exactly one occurrence of it out of the child list. */
  lemma RemoveChildNodeTakesOne(s: Store, id: NodeId, child: NodeId)
    requires Valid(s) && id in s.nodes
    ensures multiset(RemoveChildNode(s, id, child).nodes[id].children) ==
            multiset(s.nodes[id].children) - multiset{child}
  {
    var kids := s.nodes[id].children;
    var k := IndexOf(kids, child);
    if k < |kids| {
      assert kids == kids[..k] + [kids[k]] + kids[k + 1..];
    } else {
      assert child !in kids;
    }
  }

  /**
   * Removing a reference just attached restores the parent's children as a
   * multiset, and restores the list itself when the reference was not
   * already a child. Every other node is untouched throughout.
   */
  lemma AddThenRemoveNode(s: Store, id: NodeId, child: NodeId)
    requires Valid(s) && id in s.nodes && child in s.nodes
    ensures var s' := RemoveChildNode(AddChildNode(s, id, child), id, child);
            && multiset(s'.nodes[id].children) == multiset(s.nodes[id].children)
            && (child !in s.nodes[id].children ==> s'.nodes[id] == s.nodes[id])
            && forall k :: k in s.nodes && k != id ==> s'.nodes[k] == s.nodes[k]
  {
    var s1 := AddChildNode(s, id, child);
    var kids := s.nodes[id].children;
    RemoveChildNodeTakesOne(s1, id, child);
    assert s1.nodes[id].children == kids + [child];
    if child !in kids {
      assert IndexOf(kids + [child], child) == |kids|;
      assert (kids + [child])[..|kids|] == kids;
    }
  }

  /** Attaching the same reference twice makes it occur twice among the children. */
  lemma AddChildNodeTwice(s: Store, id: NodeId, child: NodeId)
    requires Valid(s) && id in s.nodes && child in s.nodes
    ensures var s' := AddChildNode(AddChildNode(s, id, child), id, child);
            multiset(s'.nodes[id].children)[child] == multiset(s.nodes[id].children)[child] + 2
  {
  }

  /** Attaching a node to itself makes it its own descendant. */
  lemma AddChildNodeSelf(s: Store, id: NodeId)
    requires Valid(s) && id in s.nodes
    ensures var s' := AddChildNode(s, id, id);
            IsPath(s', [id, id])
  {
  }

  /** Adding a fresh childless node keeps the arena acyclic. */
  lemma AddChildNamedKeepsRanked(s: Store, rank: map<NodeId, nat>, id: NodeId, name: string)
    returns (rank': map<NodeId, nat>)
    requires Valid(s) && Ranked(s, rank) && id in s.nodes
    requires AddChildNamed(s, id, name).Success?
    ensures Ranked(AddChildNamed(s, id, name).value, rank')
  {
    var s' := AddChildNamed(s, id, name).value;
    rank' := (map k | k in rank :: rank[k] + 1)[s.next := 0];
    forall x, c | x in s'.nodes && c in s'.nodes[x].children
      ensures c in rank' && rank'[c] < rank'[x]
    {
      if c != s.next {
        assert c in s.nodes[x].children;
      }
    }
  }

  /** Removing a reference keeps the arena acyclic, with the same rank. */
  lemma RemoveChildNodeKeepsRanked(s: Store, rank: map<NodeId, nat>, id: NodeId, child: NodeId)
    requires Valid(s) && Ranked(s, rank) && id in s.nodes
    ensures Ranked(RemoveChildNode(s, id, child), rank)
  {
    var kids := s.nodes[id].children;
    var k := IndexOf(kids, child);
    if k < |kids| {
      var s' := RemoveChildNode(s, id, child);
      assert forall c :: c in s'.nodes[id].children ==> c in kids;
    }
  }
}
