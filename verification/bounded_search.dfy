/**
 * The descendant search of Node.FindOrDefault without the acyclicity
 * precondition, bounded by fuel instead: every descent into a child costs one
 * unit, and a search that runs out reports `None`. A search that finishes
 * reports `Some(r)`, where `r` is what the unbounded search returns.
 *
 * On an acyclic arena enough fuel makes it agree with `Nodes.SearchChildren`.
 * On a cyclic arena it shows both behaviours of the unbounded code: it may
 * finish, possibly with the receiver itself, or it may run out of every fuel,
 * which is the unbounded search never returning.
 */
module BoundedSearch {
  import opened Wrappers
  import opened Nodes

  /** The loop of FindOrDefault over the children of `p` from index `i` on, with `fuel` descents left. */
  function SearchFuel(s: Store, p: NodeId, i: nat, name: string, fuel: nat): (r: Option<Option<NodeId>>)
    requires Valid(s) && p in s.nodes
    requires i <= |s.nodes[p].children|
    ensures r.Some? && r.value.Some? ==> Named(s, r.value.value, name)
    decreases fuel, |s.nodes[p].children| - i
  {
    var kids := s.nodes[p].children;
    if i == |kids| then Some(None)
    else if s.nodes[kids[i]].name == name then Some(Some(kids[i]))
    else if fuel == 0 then None
    else match SearchFuel(s, kids[i], 0, name, fuel - 1)
      case None => None
      case Some(Some(d)) => Some(Some(d))
      case Some(None) => SearchFuel(s, p, i + 1, name, fuel)
  }

  /**
   * On an acyclic arena, fuel above the receiver's rank suffices: the bounded
   * search finishes with the result of the rank-bounded one.
   */
  lemma {:induction false} FuelAgreesOnRanked(s: Store, rank: map<NodeId, nat>, p: NodeId, i: nat, name: string, fuel: nat)
    requires Valid(s) && Ranked(s, rank) && p in s.nodes
    requires i <= |s.nodes[p].children|
    requires fuel > rank[p]
    ensures SearchFuel(s, p, i, name, fuel) == Some(SearchChildren(s, rank, p, i, name))
    decreases rank[p], |s.nodes[p].children| - i
  {
    var kids := s.nodes[p].children;
    if i < |kids| && s.nodes[kids[i]].name != name {
      FuelAgreesOnRanked(s, rank, kids[i], 0, name, fuel - 1);
      FuelAgreesOnRanked(s, rank, p, i + 1, name, fuel);
    }
  }

  /**
   * `next` picks, for each node in its domain, a child also in its domain:
   * from any of those nodes the child links can be followed forever.
   */
  ghost predicate Unending(s: Store, next: map<NodeId, NodeId>) {
    forall x {:trigger next[x]} :: x in next ==>
      x in s.nodes && next[x] in next && next[x] in s.nodes[x].children
  }

  /** No node of the arena carries the name. */
  ghost predicate Absent(s: Store, name: string) {
    forall x :: x in s.nodes ==> s.nodes[x].name != name
  }

  /**
   * When no node carries the name, the loop over a node's children from
   * index `i` runs out of fuel if the child at index `j >= i` does, with one
   * unit less: the children before it either run out too or find nothing.
   */
  lemma {:induction false} LoopExhausts(s: Store, p: NodeId, i: nat, j: nat, name: string, fuel: nat)
    requires Valid(s) && p in s.nodes && Absent(s, name)
    requires i <= j < |s.nodes[p].children|
    requires fuel > 0 ==> SearchFuel(s, s.nodes[p].children[j], 0, name, fuel - 1).None?
    ensures SearchFuel(s, p, i, name, fuel).None?
    decreases j - i
  {
    var kids := s.nodes[p].children;
    var c := kids[i];
    assert c in s.nodes && s.nodes[c].name != name;
    if fuel > 0 {
      var sub := SearchFuel(s, c, 0, name, fuel - 1);
      assert SearchFuel(s, p, i, name, fuel) == match sub
        case None => None
        case Some(Some(d)) => Some(Some(d))
        case Some(None) => SearchFuel(s, p, i + 1, name, fuel);
      if i < j && sub == Some(None) {
        LoopExhausts(s, p, i + 1, j, name, fuel);
      }
    }
  }

  /**
   * When no node carries the name, the search from any node in the domain
   * of `next` runs out of every fuel: the unbounded search never returns.
   */
  lemma {:induction false} UnendingExhausts(s: Store, next: map<NodeId, NodeId>, x: NodeId, name: string, fuel: nat)
    requires Valid(s) && Unending(s, next) && Absent(s, name) && x in next
    ensures x in s.nodes && SearchFuel(s, x, 0, name, fuel).None?
    decreases fuel
  {
    if fuel > 0 {
      UnendingExhausts(s, next, next[x], name, fuel - 1);
    }
    var j := IndexOf(s.nodes[x].children, next[x]);
    LoopExhausts(s, x, 0, j, name, fuel);
  }
}
