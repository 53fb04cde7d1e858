/**
 * The graph of Electronics.Graph.Calculator/Graph.cs: a root reference fixed
 * at construction, and lookups that delegate to the root node. None of them
 * returns an arena, so none changes a node.
 */
module Graphs {
  import opened Wrappers
  import Nodes
  import NodeProperties

  /** A graph is its root; the datatype is immutable, so the root is never reassigned. */
  datatype Graph = Graph(root: Nodes.NodeId)

  /**
   * Graph.FindOrDefault as written: it looks only at the root's direct
   * children, so a deeper descendant is reported absent.
   */
  function FindOrDefault(g: Graph, s: Nodes.Store, name: string): (r: Option<Nodes.NodeId>)
    requires g.root in s.nodes
    ensures Nodes.IsFirstNamed(s, s.nodes[g.root].children, name, r)
  {
    Nodes.FindChildOrDefault(s, g.root, name)
  }

  /**
   * Graph.Find: the first strict descendant of the root, in pre-order, that
   * carries the name. The root itself is never matched, and the lookup fails
   * with NotFound exactly when no descendant has the name.
   */
  function Find(g: Graph, s: Nodes.Store, rank: map<Nodes.NodeId, nat>, name: string): (r: Result<Nodes.NodeId, Nodes.NodeError>)
    requires Nodes.Valid(s) && Nodes.Ranked(s, rank) && g.root in s.nodes
    ensures r.Success? ==> Nodes.Named(s, r.value, name) && r.value != g.root
    ensures r.Success? ==> Nodes.IsFirstNamed(s, NodeProperties.PreOrder(s, rank, g.root), name, Some(r.value))
    ensures r.Failure? <==>
      var below := NodeProperties.PreOrder(s, rank, g.root);
      forall j :: 0 <= j < |below| ==> !Nodes.Named(s, below[j], name)
    ensures r.Failure? ==> r.error == Nodes.NotFound
  {
    NodeProperties.FindOrDefaultIsFirstInPreOrder(s, rank, g.root, name);
    Nodes.Find(s, rank, g.root, name)
  }

  /**
   * Graph.Trace: the stack Root.Trace leaves, its boolean result dropped.
   * The stack is unchanged when no descendant has the name; otherwise the
   * root's name is pushed first and the target's name last.
   */
  function Trace(g: Graph, s: Nodes.Store, rank: map<Nodes.NodeId, nat>, name: string, stack: seq<string>): (r: seq<string>)
    requires Nodes.Valid(s) && Nodes.Ranked(s, rank) && g.root in s.nodes
    ensures Nodes.FindOrDefault(s, rank, g.root, name).None? ==> r == stack
    ensures Nodes.FindOrDefault(s, rank, g.root, name).Some? ==>
      && |r| >= |stack| + 2
      && r[..|stack|] == stack
      && r[|stack|] == s.nodes[g.root].name
      && r[|r| - 1] == name
  {
    NodeProperties.TraceAgreesWithFind(s, rank, g.root, name, stack);
    Nodes.Trace(s, rank, g.root, name, stack).1
  }

  /**
   * The lookup Graph.FindOrDefault evidently intends, consistent with
   * Graph.Find: it searches all descendants of the root.
   */
  function FindOrDefaultDescendants(g: Graph, s: Nodes.Store, rank: map<Nodes.NodeId, nat>, name: string): (r: Option<Nodes.NodeId>)
    requires Nodes.Valid(s) && Nodes.Ranked(s, rank) && g.root in s.nodes
    ensures r.None? <==> Find(g, s, rank, name).Failure?
    ensures r.Some? ==> Find(g, s, rank, name) == Success(r.value)
  {
    Nodes.FindOrDefault(s, rank, g.root, name)
  }

  /** Whatever the as-written FindOrDefault finds, Find finds a node of that name too. */
  lemma FindOrDefaultWeakerThanFind(g: Graph, s: Nodes.Store, rank: map<Nodes.NodeId, nat>, name: string)
    requires Nodes.Valid(s) && Nodes.Ranked(s, rank) && g.root in s.nodes
    requires FindOrDefault(g, s, name).Some?
    ensures Find(g, s, rank, name).Success?
  {
    NodeProperties.ChildImpliesDescendant(s, rank, g.root, name);
  }

  /** With unique names, Graph.Find never reports the root, even when asked for the root's own name. */
  lemma FindSkipsRoot(g: Graph, s: Nodes.Store, rank: map<Nodes.NodeId, nat>)
    requires Nodes.Valid(s) && Nodes.Ranked(s, rank) && g.root in s.nodes
    requires NodeProperties.UniqueNames(s)
    ensures Find(g, s, rank, s.nodes[g.root].name) == Failure(Nodes.NotFound)
  {
    NodeProperties.FindOwnNameFails(s, rank, g.root);
  }
}
