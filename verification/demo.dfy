/**
 * The demonstration hierarchy of Electronics.Graphs/Program.cs:
 *
 *   A -> { B, C -> { I, J }, D -> { E, F -> { G, H } } }
 *
 * followed by H -> A, which closes the cycle A, D, F, H, A. Node ids follow
 * the order in which the program creates the nodes.
 */
module Demo {
  import opened Wrappers
  import opened Nodes
  import opened NodeProperties
  import Graphs
  import BoundedSearch

  // ---------------------------------------------------------------------------
  // The arena at each stage of the program

  /** After `new Node("A")`. */
  const Root: Store := Store(map[0 := NodeRec("A", [])], 1)

  /** After the root has been given B and C. */
  const WithBC: Store := Store(map[
    0 := NodeRec("A", [1, 2]),
    1 := NodeRec("B", []),
    2 := NodeRec("C", [])], 3)

  /** After C has been given I and J, and the root D. */
  const WithD: Store := Store(map[
    0 := NodeRec("A", [1, 2, 5]),
    1 := NodeRec("B", []),
    2 := NodeRec("C", [3, 4]),
    3 := NodeRec("I", []),
    4 := NodeRec("J", []),
    5 := NodeRec("D", [])], 6)

  /** After D has been given E and F. */
  const WithF: Store := Store(map[
    0 := NodeRec("A", [1, 2, 5]),
    1 := NodeRec("B", []),
    2 := NodeRec("C", [3, 4]),
    3 := NodeRec("I", []),
    4 := NodeRec("J", []),
    5 := NodeRec("D", [6, 7]),
    6 := NodeRec("E", []),
    7 := NodeRec("F", [])], 8)

  /** The complete hierarchy, before the back edge from H to A. */
  const Tree: Store := Store(map[
    0 := NodeRec("A", [1, 2, 5]),
    1 := NodeRec("B", []),
    2 := NodeRec("C", [3, 4]),
    3 := NodeRec("I", []),
    4 := NodeRec("J", []),
    5 := NodeRec("D", [6, 7]),
    6 := NodeRec("E", []),
    7 := NodeRec("F", [8, 9]),
    8 := NodeRec("G", []),
    9 := NodeRec("H", [])], 10)

  /** The hierarchy after H has been given the root as a child. */
  const Cyclic: Store := Store(map[
    0 := NodeRec("A", [1, 2, 5]),
    1 := NodeRec("B", []),
    2 := NodeRec("C", [3, 4]),
    3 := NodeRec("I", []),
    4 := NodeRec("J", []),
    5 := NodeRec("D", [6, 7]),
    6 := NodeRec("E", []),
    7 := NodeRec("F", [8, 9]),
    8 := NodeRec("G", []),
    9 := NodeRec("H", [0])], 10)

  /** Heights in Tree; they witness that Tree, and every stage before it, is acyclic. */
  const TreeRank: map<NodeId, nat> :=
    map[0 := 3, 1 := 0, 2 := 1, 3 := 0, 4 := 0, 5 := 2, 6 := 0, 7 := 1, 8 := 0, 9 := 0]

  /** The cycle path the program prints, bottom of the stack first. */
  const CyclePath: seq<string> := ["A", "D", "F", "H", "A"]

  // ---------------------------------------------------------------------------
  // One step of each operation, stated once for any arena

  /**
   * Adding a name no direct child carries yields the arena `s'` that has the
   * fresh childless node `s.next`, `id`'s list extended by it, and every other
   * node as before.
   */
  lemma AddNamedStep(s: Store, id: NodeId, name: string, s': Store)
    requires Valid(s) && id in s.nodes
    requires forall c :: c in s.nodes[id].children ==> c in s.nodes && s.nodes[c].name != name
    requires s'.next == s.next + 1
    requires s'.nodes.Keys == s.nodes.Keys + {s.next}
    requires s'.nodes[s.next] == NodeRec(name, [])
    requires s'.nodes[id] == NodeRec(s.nodes[id].name, s.nodes[id].children + [s.next])
    requires forall k :: k in s.nodes && k != id ==> s'.nodes[k] == s.nodes[k]
    ensures AddChildNamed(s, id, name) == Success(s')
  {
    var r := AddChildNamed(s, id, name);
    assert r.Success?;
    assert r.value.nodes == s'.nodes;
  }

  // ---------------------------------------------------------------------------
  // Well-formedness of the arenas

  /**
   * `s` is an earlier stage of `t`: every node of `s` is in `t` with the same
   * name, and its children so far are a prefix of its children in `t`.
   */
  ghost predicate Grows(s: Store, t: Store) {
    forall id :: id in s.nodes ==>
      && id in t.nodes
      && s.nodes[id].name == t.nodes[id].name
      && s.nodes[id].children <= t.nodes[id].children
  }

  /** A rank of the later stage is a rank of every earlier one. */
  lemma RankedBefore(s: Store, t: Store, rank: map<NodeId, nat>)
    requires Ranked(t, rank) && Grows(s, t)
    ensures Ranked(s, rank)
  {
    forall id, c | id in s.nodes && c in s.nodes[id].children
      ensures c in rank && rank[c] < rank[id]
    {
      var k :| 0 <= k < |s.nodes[id].children| && s.nodes[id].children[k] == c;
      assert t.nodes[id].children[k] == c;
    }
  }

  /** Names unique at the later stage are unique at every earlier one. */
  lemma UniqueBefore(s: Store, t: Store)
    requires UniqueNames(t) && Grows(s, t)
    ensures UniqueNames(s)
  {
  }

  /** Names are unique when they are the pairwise distinct entries of a list indexed by id. */
  lemma UniqueBySeq(s: Store, names: seq<string>)
    requires forall a :: a in s.nodes ==> a < |names| && s.nodes[a].name == names[a]
    requires forall i, j :: 0 <= i < j < |names| ==> names[i] != names[j]
    ensures UniqueNames(s)
  {
  }

  lemma TreeValid()
    ensures Valid(Tree)
  {
  }

  lemma TreeRanked()
    ensures Ranked(Tree, TreeRank)
  {
    forall id, c | id in Tree.nodes && c in Tree.nodes[id].children
      ensures c in TreeRank && TreeRank[c] < TreeRank[id]
    {
    }
  }

  lemma TreeUnique()
    ensures UniqueNames(Tree)
  {
    UniqueBySeq(Tree, ["A", "B", "C", "I", "J", "D", "E", "F", "G", "H"]);
  }

  lemma CyclicValid(s: Store)
    requires s == Cyclic
    ensures Valid(s)
  {
  }

  lemma WithBCValid()
    ensures Valid(WithBC)
  {
  }

  lemma WithBCGrows()
    ensures Grows(WithBC, Tree)
  {
  }

  lemma WithDValid()
    ensures Valid(WithD)
  {
  }

  lemma WithDGrows()
    ensures Grows(WithD, Tree)
  {
  }

  lemma WithFValid()
    ensures Valid(WithF)
  {
  }

  lemma WithFGrows()
    ensures Grows(WithF, Tree)
  {
  }

  // ---------------------------------------------------------------------------
  // The construction sequence

  lemma BuildRoot()
    ensures NewNode(Store(map[], 0), "A") == (Root, 0)
  {
  }

  const AfterB: Store := Store(map[0 := NodeRec("A", [1]), 1 := NodeRec("B", [])], 2)

  const AfterI: Store := Store(map[
    0 := NodeRec("A", [1, 2]), 1 := NodeRec("B", []), 2 := NodeRec("C", [3]),
    3 := NodeRec("I", [])], 4)

  const AfterJ: Store := Store(map[
    0 := NodeRec("A", [1, 2]), 1 := NodeRec("B", []), 2 := NodeRec("C", [3, 4]),
    3 := NodeRec("I", []), 4 := NodeRec("J", [])], 5)

  const AfterE: Store := Store(map[
    0 := NodeRec("A", [1, 2, 5]), 1 := NodeRec("B", []), 2 := NodeRec("C", [3, 4]),
    3 := NodeRec("I", []), 4 := NodeRec("J", []), 5 := NodeRec("D", [6]),
    6 := NodeRec("E", [])], 7)

  const AfterG: Store := Store(map[
    0 := NodeRec("A", [1, 2, 5]), 1 := NodeRec("B", []), 2 := NodeRec("C", [3, 4]),
    3 := NodeRec("I", []), 4 := NodeRec("J", []), 5 := NodeRec("D", [6, 7]),
    6 := NodeRec("E", []), 7 := NodeRec("F", [8]), 8 := NodeRec("G", [])], 9)

  lemma AddB()
    ensures AddChildNamed(Root, 0, "B") == Success(AfterB)
  {
    assert Valid(Root);
    assert [] + [1] == [1];
    AddNamedStep(Root, 0, "B", AfterB);
  }

  lemma AddC()
    ensures AddChildNamed(AfterB, 0, "C") == Success(WithBC)
  {
    assert Valid(AfterB);
    assert [1] + [2] == [1, 2];
    AddNamedStep(AfterB, 0, "C", WithBC);
  }

  lemma AddI()
    ensures AddChildNamed(WithBC, 2, "I") == Success(AfterI)
  {
    assert Valid(WithBC);
    assert [] + [3] == [3];
    AddNamedStep(WithBC, 2, "I", AfterI);
  }

  lemma AddJ()
    ensures AddChildNamed(AfterI, 2, "J") == Success(AfterJ)
  {
    assert Valid(AfterI);
    assert [3] + [4] == [3, 4];
    AddNamedStep(AfterI, 2, "J", AfterJ);
  }

  lemma AddD()
    ensures AddChildNamed(AfterJ, 0, "D") == Success(WithD)
  {
    assert Valid(AfterJ);
    assert [1, 2] + [5] == [1, 2, 5];
    AddNamedStep(AfterJ, 0, "D", WithD);
  }

  lemma AddE()
    ensures AddChildNamed(WithD, 5, "E") == Success(AfterE)
  {
    assert Valid(WithD);
    assert [] + [6] == [6];
    AddNamedStep(WithD, 5, "E", AfterE);
  }

  lemma AddF()
    ensures AddChildNamed(AfterE, 5, "F") == Success(WithF)
  {
    assert Valid(AfterE);
    assert [6] + [7] == [6, 7];
    AddNamedStep(AfterE, 5, "F", WithF);
  }

  lemma AddG()
    ensures AddChildNamed(WithF, 7, "G") == Success(AfterG)
  {
    assert Valid(WithF);
    assert [] + [8] == [8];
    AddNamedStep(WithF, 7, "G", AfterG);
  }

  lemma AddH()
    ensures AddChildNamed(AfterG, 7, "H") == Success(Tree)
  {
    assert Valid(AfterG);
    assert [8] + [9] == [8, 9];
    AddNamedStep(AfterG, 7, "H", Tree);
  }

  lemma BuildBackEdge()
    ensures Valid(Tree) && 9 in Tree.nodes && 0 in Tree.nodes
    ensures AddChildNode(Tree, 9, 0) == Cyclic
  {
    TreeValid();
    assert [] + [0] == [0];
    var r := AddChildNode(Tree, 9, 0);
    assert r.nodes.Keys == Cyclic.nodes.Keys;
    assert r.nodes == Cyclic.nodes;
  }

  /** Graph.Find from the root locates the node with the given name at each stage. */
  lemma FindAtStage(s: Store, ids: seq<NodeId>, name: string)
    requires Valid(s) && Ranked(s, TreeRank) && UniqueNames(s)
    requires IsPath(s, ids) && |ids| >= 2 && ids[0] == 0
    requires Named(s, ids[|ids| - 1], name)
    ensures Graphs.Find(Graphs.Graph(0), s, TreeRank, name) == Success(ids[|ids| - 1])
  {
    FindOrDefaultFindsPathEnd(s, TreeRank, ids, name);
  }

  // The lemmas below take the arena as a parameter equal to the stage, so
  // that the verifier does not unfold the searches on a literal.

  lemma WithBCFacts(s: Store)
    requires s == WithBC
    ensures Valid(s) && Ranked(s, TreeRank) && UniqueNames(s)
  {
    WithBCValid();
    WithBCGrows();
    TreeRanked();
    TreeUnique();
    RankedBefore(s, Tree, TreeRank);
    UniqueBefore(s, Tree);
  }

  lemma PathToC(s: Store)
    requires s == WithBC
    ensures IsPath(s, [0, 2]) && Named(s, 2, "C")
  {
  }

  lemma LookupC(s: Store)
    requires s == WithBC
    ensures Valid(s) && Ranked(s, TreeRank) && 0 in s.nodes
    ensures Graphs.Find(Graphs.Graph(0), s, TreeRank, "C") == Success(2)
  {
    WithBCFacts(s);
    PathToC(s);
    FindAtStage(s, [0, 2], "C");
  }

  lemma WithDFacts(s: Store)
    requires s == WithD
    ensures Valid(s) && Ranked(s, TreeRank) && UniqueNames(s)
  {
    WithDValid();
    WithDGrows();
    TreeRanked();
    TreeUnique();
    RankedBefore(s, Tree, TreeRank);
    UniqueBefore(s, Tree);
  }

  lemma PathToD(s: Store)
    requires s == WithD
    ensures IsPath(s, [0, 5]) && Named(s, 5, "D")
  {
  }

  lemma LookupD(s: Store)
    requires s == WithD
    ensures Valid(s) && Ranked(s, TreeRank) && 0 in s.nodes
    ensures Graphs.Find(Graphs.Graph(0), s, TreeRank, "D") == Success(5)
  {
    WithDFacts(s);
    PathToD(s);
    FindAtStage(s, [0, 5], "D");
  }

  lemma WithFFacts(s: Store)
    requires s == WithF
    ensures Valid(s) && Ranked(s, TreeRank) && UniqueNames(s)
  {
    WithFValid();
    WithFGrows();
    TreeRanked();
    TreeUnique();
    RankedBefore(s, Tree, TreeRank);
    UniqueBefore(s, Tree);
  }

  lemma PathToF(s: Store)
    requires s == WithF
    ensures IsPath(s, [0, 5, 7]) && Named(s, 7, "F")
  {
  }

  lemma LookupF(s: Store)
    requires s == WithF
    ensures Valid(s) && Ranked(s, TreeRank) && 0 in s.nodes
    ensures Graphs.Find(Graphs.Graph(0), s, TreeRank, "F") == Success(7)
  {
    WithFFacts(s);
    PathToF(s);
    FindAtStage(s, [0, 5, 7], "F");
  }

  lemma TreeFacts(s: Store)
    requires s == Tree
    ensures Valid(s) && Ranked(s, TreeRank) && UniqueNames(s)
  {
    TreeValid();
    TreeRanked();
    TreeUnique();
  }

  lemma PathToH(s: Store)
    requires s == Tree
    ensures IsPath(s, [0, 5, 7, 9]) && Named(s, 9, "H")
  {
  }

  lemma LookupH(s: Store)
    requires s == Tree
    ensures Valid(s) && Ranked(s, TreeRank) && 0 in s.nodes
    ensures Graphs.Find(Graphs.Graph(0), s, TreeRank, "H") == Success(9)
  {
    TreeFacts(s);
    PathToH(s);
    FindAtStage(s, [0, 5, 7, 9], "H");
  }

  // ---------------------------------------------------------------------------
  // The cycle search, one node of the path at a time

  lemma CycleFromH(s: Store)
    requires s == Cyclic
    ensures FindCycle(s, 9, ["A", "D", "F"]) == (true, CyclePath)
  {
    CyclicValid(s);
    ChildOnStack(s, 9, 0, ["A", "D", "F", "H"]);
    assert ["A", "D", "F", "H"] + ["A"] == CyclePath;
    EnterNode(s, 9, ["A", "D", "F"]);
    assert ["A", "D", "F"] + ["H"] == ["A", "D", "F", "H"];
  }

  lemma CycleFromF(s: Store)
    requires s == Cyclic
    ensures FindCycle(s, 7, ["A", "D"]) == (true, CyclePath)
  {
    CyclicValid(s);
    CycleFromH(s);
    ChildEntered(s, 7, 1, ["A", "D", "F"]);
    LeafHasNoCycle(s, 8, ["A", "D", "F"]);
    ChildEntered(s, 7, 0, ["A", "D", "F"]);
    EnterNode(s, 7, ["A", "D"]);
    assert ["A", "D"] + ["F"] == ["A", "D", "F"];
  }

  lemma CycleFromD(s: Store)
    requires s == Cyclic
    ensures FindCycle(s, 5, ["A"]) == (true, CyclePath)
  {
    CyclicValid(s);
    CycleFromF(s);
    ChildEntered(s, 5, 1, ["A", "D"]);
    LeafHasNoCycle(s, 6, ["A", "D"]);
    ChildEntered(s, 5, 0, ["A", "D"]);
    EnterNode(s, 5, ["A"]);
    assert ["A"] + ["D"] == ["A", "D"];
  }

  lemma NoCycleBelowC(s: Store)
    requires s == Cyclic
    ensures FindCycle(s, 2, ["A"]) == (false, ["A"])
  {
    CyclicValid(s);
    LeafHasNoCycle(s, 3, ["A", "C"]);
    LeafHasNoCycle(s, 4, ["A", "C"]);
    ChildrenDone(s, 2, ["A", "C"]);
    ChildEntered(s, 2, 1, ["A", "C"]);
    ChildEntered(s, 2, 0, ["A", "C"]);
    EnterNode(s, 2, ["A"]);
    assert ["A"] + ["C"] == ["A", "C"];
  }

  /** The loop over the root's children: B and C hold no cycle, D leads to it. */
  lemma CycleBelowRoot(s: Store)
    requires s == Cyclic
    ensures FindCycleChildren(s, 0, 0, ["A"]) == (true, CyclePath)
  {
    CyclicValid(s);
    CycleFromD(s);
    NoCycleBelowC(s);
    LeafHasNoCycle(s, 1, ["A"]);
    ChildEntered(s, 0, 2, ["A"]);
    ChildEntered(s, 0, 1, ["A"]);
    ChildEntered(s, 0, 0, ["A"]);
  }

  /** FindCycle from A with an empty stack finds the cycle and leaves A, D, F, H, A on the stack. */
  lemma CycleFromRoot(s: Store)
    requires s == Cyclic
    ensures FindCycle(s, 0, []) == (true, CyclePath)
  {
    CyclicValid(s);
    CycleBelowRoot(s);
    EnterNode(s, 0, []);
    assert [] + ["A"] == ["A"];
  }

  /** Program.cs up to the root's children B and C. */
  method PlantRoot() returns (s: Store, root: NodeId)
    ensures s == WithBC && root == 0
  {
    BuildRoot();
    var created := NewNode(Store(map[], 0), "A");
    root := created.1;
    s := created.0;
    AddB();
    s := AddChildNamed(s, root, "B").value;
    AddC();
    s := AddChildNamed(s, root, "C").value;
  }

  /** Program.cs looks C up through the graph, gives it I and J, then gives the root D. */
  method GrowBelowC(s: Store, root: NodeId) returns (s': Store)
    requires s == WithBC && root == 0
    ensures s' == WithD
  {
    LookupC(s);
    var cNode := Graphs.Find(Graphs.Graph(root), s, TreeRank, "C").value;
    AddI();
    s' := AddChildNamed(s, cNode, "I").value;
    AddJ();
    s' := AddChildNamed(s', cNode, "J").value;
    AddD();
    s' := AddChildNamed(s', root, "D").value;
  }

  /** Program.cs looks D up through the graph and gives it E and F. */
  method GrowBelowD(s: Store, root: NodeId) returns (s': Store)
    requires s == WithD && root == 0
    ensures s' == WithF
  {
    LookupD(s);
    var dNode := Graphs.Find(Graphs.Graph(root), s, TreeRank, "D").value;
    AddE();
    s' := AddChildNamed(s, dNode, "E").value;
    AddF();
    s' := AddChildNamed(s', dNode, "F").value;
  }

  /** Program.cs looks F up through the graph and gives it G and H. */
  method GrowBelowF(s: Store, root: NodeId) returns (s': Store)
    requires s == WithF && root == 0
    ensures s' == Tree
  {
    LookupF(s);
    var fNode := Graphs.Find(Graphs.Graph(root), s, TreeRank, "F").value;
    AddG();
    s' := AddChildNamed(s, fNode, "G").value;
    AddH();
    s' := AddChildNamed(s', fNode, "H").value;
  }

  /**
   * The program end to end: the construction sequence of Program.cs builds
   * Cyclic, and the cycle search from the root leaves A, D, F, H, A on the
   * stack, bottom first.
   */
  method Program() returns (s: Store, found: bool, stack: seq<string>)
    ensures s == Cyclic
    ensures found && stack == CyclePath
  {
    var root;
    s, root := PlantRoot();
    s := GrowBelowC(s, root);
    s := GrowBelowD(s, root);
    s := GrowBelowF(s, root);

    LookupH(s);
    var hNode := Graphs.Find(Graphs.Graph(root), s, TreeRank, "H").value;
    BuildBackEdge();
    s := AddChildNode(s, hNode, root);

    CycleFromRoot(s);
    var result := FindCycle(s, root, []);
    found, stack := result.0, result.1;
  }

  // ---------------------------------------------------------------------------
  // Further facts about the demonstration hierarchy

  /** The ids behind CyclePath form a path of Cyclic that returns to the root. */
  lemma CycleIsPath(s: Store)
    requires s == Cyclic
    ensures IsPath(s, [0, 5, 7, 9, 0])
  {
  }

  /** No rank can witness acyclicity once H points back to A. */
  lemma CyclicHasNoRank(s: Store, rank: map<NodeId, nat>)
    requires s == Cyclic
    ensures !Ranked(s, rank)
  {
    CyclicValid(s);
    CycleIsPath(s);
    if Ranked(s, rank) {
      PathRankDecreases(s, rank, [0, 5, 7, 9, 0], 0, 4);
    }
  }

  /** Following the cycle A, D, F, H, A: every node on it has its successor on it as a child. */
  lemma CycleUnending(s: Store)
    requires s == Cyclic
    ensures BoundedSearch.Unending(s, map[0 := 5, 5 := 7, 7 := 9, 9 := 0])
  {
  }

  /** No node of the hierarchy is named Z. */
  lemma CyclicLacksZ(s: Store)
    requires s == Cyclic
    ensures BoundedSearch.Absent(s, "Z")
  {
  }

  /**
   * Once H points back to A, the descendant search from the root for a name
   * no node carries runs out of every fuel: Root.FindOrDefault("Z") never
   * returns.
   */
  lemma CyclicAbsentSearchNeverEnds(s: Store, fuel: nat)
    requires s == Cyclic
    ensures Valid(s)
    ensures BoundedSearch.SearchFuel(s, 0, 0, "Z", fuel) == None
  {
    CyclicValid(s);
    CycleUnending(s);
    CyclicLacksZ(s);
    BoundedSearch.UnendingExhausts(s, map[0 := 5, 5 := 7, 7 := 9, 9 := 0], 0, "Z", fuel);
  }

  /**
   * On the same cyclic hierarchy a search for a name met before the cycle
   * closes does return: B is the root's first child.
   */
  lemma CyclicSearchFindsB(s: Store)
    requires s == Cyclic
    ensures Valid(s)
    ensures BoundedSearch.SearchFuel(s, 0, 0, "B", 0) == Some(Some(1))
  {
    CyclicValid(s);
  }

  /** Below D the search for A descends F and H and returns H's child, the root. */
  lemma CyclicSearchBelowD(s: Store)
    requires s == Cyclic
    ensures Valid(s) && 5 in s.nodes
    ensures BoundedSearch.SearchFuel(s, 5, 0, "A", 2) == Some(Some(0))
  {
    CyclicValid(s);
    assert BoundedSearch.SearchFuel(s, 9, 0, "A", 0) == Some(Some(0));
    assert BoundedSearch.SearchFuel(s, 8, 0, "A", 0) == Some(None);
    assert BoundedSearch.SearchFuel(s, 7, 1, "A", 1) == Some(Some(0));
    assert BoundedSearch.SearchFuel(s, 7, 0, "A", 1) == Some(Some(0));
    assert BoundedSearch.SearchFuel(s, 6, 0, "A", 1) == Some(None);
    assert BoundedSearch.SearchFuel(s, 5, 1, "A", 2) == Some(Some(0));
  }

  /** Below B and C nothing is named A: both searches finish empty-handed. */
  lemma CyclicSearchMissesBAndC(s: Store)
    requires s == Cyclic
    ensures Valid(s) && 1 in s.nodes && 2 in s.nodes
    ensures BoundedSearch.SearchFuel(s, 1, 0, "A", 2) == Some(None)
    ensures BoundedSearch.SearchFuel(s, 2, 0, "A", 2) == Some(None)
  {
    CyclicValid(s);
    assert BoundedSearch.SearchFuel(s, 3, 0, "A", 1) == Some(None);
    assert BoundedSearch.SearchFuel(s, 4, 0, "A", 1) == Some(None);
  }

  /**
   * The search from the root for its own name returns: it finds nothing below
   * B and C, then descends D, F and H and returns the root itself.
   */
  lemma CyclicSearchReturnsRoot(s: Store)
    requires s == Cyclic
    ensures Valid(s)
    ensures BoundedSearch.SearchFuel(s, 0, 0, "A", 3) == Some(Some(0))
  {
    CyclicSearchBelowD(s);
    CyclicSearchMissesBAndC(s);
    assert BoundedSearch.SearchFuel(s, 0, 2, "A", 3) == Some(Some(0));
    assert BoundedSearch.SearchFuel(s, 0, 1, "A", 3) == Some(Some(0));
  }

  /** Before the back edge the hierarchy has no cycle, and FindCycle leaves the stack empty. */
  lemma TreeHasNoCycle()
    ensures FindCycle(Tree, 0, []) == (false, [])
  {
    TreeValid();
    TreeRanked();
    TreeUnique();
    NoCycleFoundWithoutCycle(Tree, TreeRank, 0);
  }

  lemma TreePathToF(s: Store)
    requires s == Tree
    ensures IsPath(s, [0, 5, 7]) && Named(s, 7, "F")
  {
  }

  lemma RootChildrenLackF()
    ensures Graphs.FindOrDefault(Graphs.Graph(0), Tree, "F") == None
  {
  }

  /**
   * Graph.FindOrDefault looks only at the root's children: the grandchild F
   * is reported absent, while Graph.Find locates it.
   */
  lemma GraphFindOrDefaultMissesGrandchild(s: Store)
    requires s == Tree
    ensures Valid(s) && Ranked(s, TreeRank) && 0 in s.nodes
    ensures Graphs.FindOrDefault(Graphs.Graph(0), s, "F") == None
    ensures Graphs.Find(Graphs.Graph(0), s, TreeRank, "F") == Success(7)
  {
    TreeFacts(s);
    RootChildrenLackF();
    TreePathToF(s);
    FindAtStage(s, [0, 5, 7], "F");
  }

  /** Two distinct nodes both named A: the arena is acyclic, yet FindCycle reports a cycle. */
  const Twins: Store := Store(map[0 := NodeRec("A", [1]), 1 := NodeRec("A", [])], 2)

  lemma TwinsValid()
    ensures Valid(Twins)
  {
  }

  lemma TwinsRanked()
    ensures Ranked(Twins, map[0 := 1, 1 := 0])
  {
  }

  lemma CycleDetectionIsByName(s: Store)
    requires s == Twins
    ensures Ranked(s, map[0 := 1, 1 := 0])
    ensures FindCycle(s, 0, []) == (true, ["A", "A"])
  {
    TwinsValid();
    TwinsRanked();
    ChildOnStack(s, 0, 0, ["A"]);
    EnterNode(s, 0, []);
    assert [] + ["A"] == ["A"];
    assert ["A"] + ["A"] == ["A", "A"];
  }

  /**
   * Graph.FindOrDefault and Graph.Find may name different nodes: under
   * A -> { B -> { X }, X }, the direct child X is the first child named X,
   * but the pre-order search reaches B's child X first.
   */
  const Shadowed: Store := Store(map[
    0 := NodeRec("A", [1, 3]),
    1 := NodeRec("B", [2]),
    2 := NodeRec("X", []),
    3 := NodeRec("X", [])], 4)

  const ShadowedRank: map<NodeId, nat> := map[0 := 2, 1 := 1, 2 := 0, 3 := 0]

  lemma ShadowedValid()
    ensures Valid(Shadowed)
  {
  }

  lemma ShadowedRanked()
    ensures Ranked(Shadowed, ShadowedRank)
  {
  }

  lemma GraphLookupsDisagree(s: Store)
    requires s == Shadowed
    ensures Valid(s) && Ranked(s, ShadowedRank) && 0 in s.nodes
    ensures Graphs.FindOrDefault(Graphs.Graph(0), s, "X") == Some(3)
    ensures Graphs.Find(Graphs.Graph(0), s, ShadowedRank, "X") == Success(2)
  {
    ShadowedValid();
    ShadowedRanked();
    assert SearchChildren(s, ShadowedRank, 1, 0, "X") == Some(2);
    assert SearchChildren(s, ShadowedRank, 0, 0, "X") == Some(2);
  }
}
