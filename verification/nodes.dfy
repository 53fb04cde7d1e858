/**
 * The named node of Electronics.Graph.Calculator/Node.cs.
 *
 * Nodes live in an arena: a map from `NodeId` to the node's record. A child
 * list holds ids, not owned values, so one node may be the child of several
 * parents and may even be its own descendant -- exactly what attaching an
 * existing node as a child allows in the modelled code.
 *
 * Operations that mutate a node return the new arena; the traversals that
 * push names onto a caller's stack take the stack and return it, together
 * with their boolean result. The top of a stack is its last element.
 */
module Nodes {
  import opened Wrappers

  type NodeId = nat

  /** A node: its immutable name and its ordered list of child references. */
  datatype NodeRec = NodeRec(name: string, children: seq<NodeId>)

  /**
   * The arena. `next` is the next free id: a new node gets id
   * `next`, and every id in use lies below it.
   */
  datatype Store = Store(nodes: map<NodeId, NodeRec>, next: NodeId)

  /** The failures the node operations raise. */
  datatype NodeError = NotFound | AlreadyExists

  /** Every id in use is below the allocator and every child reference is a node of the arena. */
  ghost predicate Valid(s: Store) {
    forall id :: id in s.nodes ==>
      && id < s.next
      && forall c :: c in s.nodes[id].children ==> c in s.nodes
  }

  /**
   * `rank` witnesses that the arena has no cycle: every child is ranked
   * strictly below its parent. It bounds the depth of the searches that
   * do not terminate on a cyclic arena.
   */
  ghost predicate Ranked(s: Store, rank: map<NodeId, nat>) {
    forall id :: id in s.nodes ==>
      && id in rank
      && forall c :: c in s.nodes[id].children ==> c in rank && rank[c] < rank[id]
  }

  predicate Named(s: Store, id: NodeId, name: string) {
    id in s.nodes && s.nodes[id].name == name
  }

  /** `r` is the first element of `xs` named `name`, or None when there is none. */
  ghost predicate IsFirstNamed(s: Store, xs: seq<NodeId>, name: string, r: Option<NodeId>) {
    match r
    case None => forall j :: 0 <= j < |xs| ==> !Named(s, xs[j], name)
    case Some(x) =>
      exists i :: 0 <= i < |xs| && xs[i] == x && Named(s, x, name)
                  && forall j :: 0 <= j < i ==> !Named(s, xs[j], name)
  }

  /** The index of the first element of `xs` named `name`, or |xs| when there is none. */
  function FirstIndex(s: Store, xs: seq<NodeId>, name: string): (i: nat)
    ensures i <= |xs|
    ensures forall j :: 0 <= j < i ==> !Named(s, xs[j], name)
    ensures i < |xs| ==> Named(s, xs[i], name)
  {
    if xs == [] || Named(s, xs[0], name) then 0
    else 1 + FirstIndex(s, xs[1..], name)
  }

  /** The in-order scan over a list of node references. */
  function First(s: Store, xs: seq<NodeId>, name: string): (r: Option<NodeId>)
    ensures IsFirstNamed(s, xs, name, r)
  {
    var i := FirstIndex(s, xs, name);
    if i < |xs| then Some(xs[i]) else None
  }

  /** The index of the first occurrence of reference `x` in `xs`, or |xs|. */
  function IndexOf(xs: seq<NodeId>, x: NodeId): (k: nat)
    ensures k <= |xs|
    ensures forall j :: 0 <= j < k ==> xs[j] != x
    ensures k < |xs| ==> xs[k] == x
  {
    if xs == [] || xs[0] == x then 0
    else 1 + IndexOf(xs[1..], x)
  }

  /** Replaces the child list of `id`; nothing else changes. */
  function WithChildren(s: Store, id: NodeId, kids: seq<NodeId>): Store
    requires id in s.nodes
  {
    s.(nodes := s.nodes[id := s.nodes[id].(children := kids)])
  }

  // ---------------------------------------------------------------------------
  // Construction

  /** `new Node(name)`: a fresh node with that name and no children. */
  function NewNode(s: Store, name: string): (r: (Store, NodeId))
    requires Valid(s)
    ensures Valid(r.0)
    ensures r.1 !in s.nodes
    ensures r.0.nodes.Keys == s.nodes.Keys + {r.1}
    ensures r.0.nodes[r.1] == NodeRec(name, [])
    ensures forall k :: k in s.nodes ==> r.0.nodes[k] == s.nodes[k]
  {
    (Store(s.nodes[s.next := NodeRec(name, [])], s.next + 1), s.next)
  }

  // ---------------------------------------------------------------------------
  // Direct-child lookup

  /** The first direct child, in list order, named `name`; None when no child has that name. */
  function FindChildOrDefault(s: Store, id: NodeId, name: string): (r: Option<NodeId>)
    requires id in s.nodes
    ensures IsFirstNamed(s, s.nodes[id].children, name, r)
    ensures r.Some? ==> r.value in s.nodes[id].children
  {
    First(s, s.nodes[id].children, name)
  }

  /** The same child as FindChildOrDefault; fails with NotFound exactly when there is none. */
  function FindChild(s: Store, id: NodeId, name: string): (r: Result<NodeId, NodeError>)
    requires id in s.nodes
    ensures r.Failure? <==> forall j :: 0 <= j < |s.nodes[id].children| ==> !Named(s, s.nodes[id].children[j], name)
    ensures r.Failure? ==> r.error == NotFound
    ensures r.Success? ==> FindChildOrDefault(s, id, name) == Some(r.value)
  {
    match FindChildOrDefault(s, id, name)
    case None => Failure(NotFound)
    case Some(c) => Success(c)
  }

  // ---------------------------------------------------------------------------
  // Descendant lookup (depth-first, pre-order)

  /**
   * The loop of FindOrDefault from child index `i` of `p` on: each child's
   * name is compared, then that child's descendants are searched, before the
   * next sibling is looked at.
   */
  function SearchChildren(s: Store, rank: map<NodeId, nat>, p: NodeId, i: nat, name: string): (r: Option<NodeId>)
    requires Valid(s) && Ranked(s, rank) && p in s.nodes
    requires i <= |s.nodes[p].children|
    ensures r.Some? ==> Named(s, r.value, name)
    ensures r.Some? ==> r.value in rank && rank[r.value] < rank[p]
    decreases rank[p], |s.nodes[p].children| - i
  {
    var kids := s.nodes[p].children;
    if i == |kids| then None
    else if s.nodes[kids[i]].name == name then Some(kids[i])
    else match SearchChildren(s, rank, kids[i], 0, name)
      case Some(d) => Some(d)
      case None => SearchChildren(s, rank, p, i + 1, name)
  }

  /** A named strict descendant of `id`; the receiver itself is never the answer. */
  function FindOrDefault(s: Store, rank: map<NodeId, nat>, id: NodeId, name: string): (r: Option<NodeId>)
    requires Valid(s) && Ranked(s, rank) && id in s.nodes
    ensures r.Some? ==> Named(s, r.value, name) && r.value != id
  {
    SearchChildren(s, rank, id, 0, name)
  }

  /** The same node as FindOrDefault; fails with NotFound exactly when there is none. */
  function Find(s: Store, rank: map<NodeId, nat>, id: NodeId, name: string): (r: Result<NodeId, NodeError>)
    requires Valid(s) && Ranked(s, rank) && id in s.nodes
    ensures r.Failure? <==> FindOrDefault(s, rank, id, name).None?
    ensures r.Failure? ==> r.error == NotFound
    ensures r.Success? ==> Named(s, r.value, name) && r.value != id
    ensures r.Success? ==> FindOrDefault(s, rank, id, name) == Some(r.value)
  {
    match FindOrDefault(s, rank, id, name)
    case None => Failure(NotFound)
    case Some(d) => Success(d)
  }

  // ---------------------------------------------------------------------------
  // Mutation of the child list

  /**
   * AddChild by name: fails with AlreadyExists when a direct child already
   * has that name; otherwise appends a fresh childless node named `name`
   * (id `s.next`) and changes no other node.
   */
  function AddChildNamed(s: Store, id: NodeId, name: string): (r: Result<Store, NodeError>)
    requires Valid(s) && id in s.nodes
    ensures r.Failure? <==>
      exists j :: 0 <= j < |s.nodes[id].children| && Named(s, s.nodes[id].children[j], name)
    ensures r.Failure? ==> r.error == AlreadyExists
    ensures r.Success? ==>
      && Valid(r.value)
      && s.next !in s.nodes
      && r.value.nodes.Keys == s.nodes.Keys + {s.next}
      && r.value.nodes[s.next] == NodeRec(name, [])
      && r.value.nodes[id] == NodeRec(s.nodes[id].name, s.nodes[id].children + [s.next])
      && forall k :: k in s.nodes && k != id ==> r.value.nodes[k] == s.nodes[k]
  {
    if FindChildOrDefault(s, id, name).Some? then Failure(AlreadyExists)
    else
      var (s1, c) := NewNode(s, name);
      Success(WithChildren(s1, id, s1.nodes[id].children + [c]))
  }

  /**
   * AddChild by reference: always appends `child`, with no uniqueness and no
   * cycle check, so a reference may occur twice and `id` may become its own
   * descendant.
   */
  function AddChildNode(s: Store, id: NodeId, child: NodeId): (r: Store)
    requires Valid(s) && id in s.nodes && child in s.nodes
    ensures Valid(r)
    ensures r.nodes.Keys == s.nodes.Keys
    ensures r.nodes[id] == NodeRec(s.nodes[id].name, s.nodes[id].children + [child])
    ensures forall k :: k in s.nodes && k != id ==> r.nodes[k] == s.nodes[k]
  {
    WithChildren(s, id, s.nodes[id].children + [child])
  }

  /**
   * RemoveChild by reference: removes the first occurrence of `child`
   * (compared by identity) and keeps the others in order; a no-op when
   * `child` is not a direct child.
   */
  function RemoveChildNode(s: Store, id: NodeId, child: NodeId): (r: Store)
    requires Valid(s) && id in s.nodes
    ensures Valid(r)
    ensures r.nodes.Keys == s.nodes.Keys
    ensures r.nodes[id].name == s.nodes[id].name
    ensures forall k :: k in s.nodes && k != id ==> r.nodes[k] == s.nodes[k]
    ensures child !in s.nodes[id].children ==> r == s
    ensures child in s.nodes[id].children ==>
      var kids := s.nodes[id].children;
      exists k :: 0 <= k < |kids| && kids[k] == child
                  && (forall j :: 0 <= j < k ==> kids[j] != child)
                  && r.nodes[id].children == kids[..k] + kids[k + 1..]
  {
    var kids := s.nodes[id].children;
    var k := IndexOf(kids, child);
    if k == |kids| then s
    else WithChildren(s, id, kids[..k] + kids[k + 1..])
  }

  /**
   * RemoveChild by name: fails with NotFound when no direct child has the
   * name; otherwise removes exactly the first child with that name.
   */
  function RemoveChildNamed(s: Store, id: NodeId, name: string): (r: Result<Store, NodeError>)
    requires Valid(s) && id in s.nodes
    ensures r.Failure? <==>
      forall j :: 0 <= j < |s.nodes[id].children| ==> !Named(s, s.nodes[id].children[j], name)
    ensures r.Failure? ==> r.error == NotFound
    ensures r.Success? ==>
      && Valid(r.value)
      && r.value.nodes.Keys == s.nodes.Keys
      && r.value.nodes[id].name == s.nodes[id].name
      && (forall k :: k in s.nodes && k != id ==> r.value.nodes[k] == s.nodes[k])
      && var kids := s.nodes[id].children;
         var k := FirstIndex(s, kids, name);
         k < |kids| && r.value.nodes[id].children == kids[..k] + kids[k + 1..]
  {
    match FindChild(s, id, name)
    case Failure(e) => Failure(e)
    case Success(c) =>
      var kids := s.nodes[id].children;
      var k := FirstIndex(s, kids, name);
      assert IndexOf(kids, c) == k by {
        // no element before the first named one is the named node `c`
        assert Named(s, c, name);
      }
      Success(RemoveChildNode(s, id, c))
  }

  // ---------------------------------------------------------------------------
  // Path tracing

  /** Stack.Pop: drops the top of the stack. */
  function Pop(stack: seq<string>): (r: seq<string>)
    requires |stack| > 0
    ensures r + [stack[|stack| - 1]] == stack
  {
    stack[..|stack| - 1]
  }

  /**
   * The loop of Trace over the children of `p` from index `i` on, with the
   * stack as the loop finds it.
   */
  function TraceChildren(s: Store, rank: map<NodeId, nat>, p: NodeId, i: nat, name: string, stack: seq<string>): (r: (bool, seq<string>))
    requires Valid(s) && Ranked(s, rank) && p in s.nodes
    requires i <= |s.nodes[p].children|
    ensures !r.0 ==> r.1 == stack
    ensures r.0 ==> |r.1| > |stack| && r.1[..|stack|] == stack && r.1[|r.1| - 1] == name
    decreases rank[p], 0, |s.nodes[p].children| - i
  {
    var kids := s.nodes[p].children;
    if i == |kids| then (false, stack)
    else if s.nodes[kids[i]].name == name then (true, stack + [s.nodes[kids[i]].name])
    else
      var (found, st) := Trace(s, rank, kids[i], name, stack);
      if found then (true, st)
      else TraceChildren(s, rank, p, i + 1, name, st)
  }

  /**
   * Trace: pushes the receiver's name, searches the children depth-first,
   * and pops its own name again when no child leads to `name`. On failure
   * the stack is as on entry; on success the entries pushed begin with the
   * receiver's name and end with `name`.
   */
  function Trace(s: Store, rank: map<NodeId, nat>, id: NodeId, name: string, stack: seq<string>): (r: (bool, seq<string>))
    requires Valid(s) && Ranked(s, rank) && id in s.nodes
    ensures !r.0 ==> r.1 == stack
    ensures r.0 ==>
      && |r.1| >= |stack| + 2
      && r.1[..|stack|] == stack
      && r.1[|stack|] == s.nodes[id].name
      && r.1[|r.1| - 1] == name
    decreases rank[id], 1, 0
  {
    var pushed := stack + [s.nodes[id].name];
    var (found, st) := TraceChildren(s, rank, id, 0, name, pushed);
    if found then (true, st) else (false, Pop(st))
  }

  // ---------------------------------------------------------------------------
  // Cycle detection

  /** The names of all nodes of the arena. */
  ghost function AllNames(s: Store): set<string> {
    set id | id in s.nodes :: s.nodes[id].name
  }

  /** The names held by a stack. */
  ghost function Elems(stack: seq<string>): set<string> {
    set x | x in stack
  }

  /** The name on top of the stack also occurs below it: the stack closes a cycle. */
  predicate TopRepeats(stack: seq<string>) {
    |stack| >= 1 && stack[|stack| - 1] in stack[..|stack| - 1]
  }

  /** Pushing a name not yet on the stack leaves fewer arena names unseen. */
  lemma UnseenShrinks(all: set<string>, stack: seq<string>, x: string)
    requires x in all && x !in stack
    ensures |all - Elems(stack + [x])| < |all - Elems(stack)|
  {
    assert Elems(stack + [x]) == Elems(stack) + {x};
    assert all - Elems(stack + [x]) == (all - Elems(stack)) - {x};
  }

  /**
   * The loop of FindCycle over the children of `p` from index `i` on. A
   * child whose name is already on the stack closes a cycle; any other
   * child is entered, so every recursive call adds an arena name that was
   * not yet on the stack.
   */
  function FindCycleChildren(s: Store, p: NodeId, i: nat, stack: seq<string>): (r: (bool, seq<string>))
    requires Valid(s) && p in s.nodes
    requires i <= |s.nodes[p].children|
    ensures !r.0 ==> r.1 == stack
    ensures r.0 ==> |r.1| > |stack| && r.1[..|stack|] == stack && TopRepeats(r.1)
    decreases |AllNames(s) - Elems(stack)|, 0, |s.nodes[p].children| - i
  {
    var kids := s.nodes[p].children;
    if i == |kids| then (false, stack)
    else
      var c := kids[i];
      if s.nodes[c].name in stack then
        var st := stack + [s.nodes[c].name];
        assert st[..|st| - 1] == stack;
        (true, st)
      else
        assert s.nodes[c].name in AllNames(s);
        UnseenShrinks(AllNames(s), stack, s.nodes[c].name);
        var sub := FindCycle(s, c, stack);
        if sub.0 then sub
        else FindCycleChildren(s, p, i + 1, sub.1)
  }

  /**
   * FindCycle: pushes the receiver's name and reports a cycle as soon as a
   * child's name is already on the stack (compared by name, and possibly
   * against entries that were there before the call). On failure the stack
   * is as on entry. Terminates on every arena, cyclic or not.
   */
  function FindCycle(s: Store, id: NodeId, stack: seq<string>): (r: (bool, seq<string>))
    requires Valid(s) && id in s.nodes
    ensures !r.0 ==> r.1 == stack
    ensures r.0 ==>
      && |r.1| >= |stack| + 2
      && r.1[..|stack|] == stack
      && r.1[|stack|] == s.nodes[id].name
      && TopRepeats(r.1)
    decreases |AllNames(s) - Elems(stack + [s.nodes[id].name])|, 1, 0
  {
    var pushed := stack + [s.nodes[id].name];
    var (found, st) := FindCycleChildren(s, id, 0, pushed);
    if found then (true, st) else (false, Pop(st))
  }
}
