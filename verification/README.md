# Named-node graph and unit-tagged quantities, in Dafny

This project models two small components of the Electronics solution and proves properties of them.

The **named-node graph** comes from `Electronics.Graph.Calculator`:
- A `Node` has an immutable name and an ordered list of child references.
- A `Graph` holds a root node and delegates its lookups to it.
- Attaching an existing node as a child performs no check, so the structure is a directed graph. It may share nodes and may contain cycles.
- The model keeps nodes in an arena (`Nodes.Store`), a map from `NodeId` to `NodeRec(name, children)`. A child list holds ids, so aliasing and cycles can be represented.
- Operations that mutate a node return the new arena.
- `Trace` and `FindCycle` fill a caller's `Stack<string>`. They take the stack as a sequence and return it with their boolean result. The top of the stack is the last element.

The **unit-tagged quantity** comes from `Electronics.Graphs.Domain/Quantity`:
- A `QuantityUnit` is a name tag. Its `+` and `-` return the left operand when the names match.
- A `Quantity` pairs a decimal value, modelled as a `real`, with a unit.
- Thrown exceptions become `Result` failures: `NotFound`, `AlreadyExists`, `NotSameUnits` and `DivideByZero`.

Modules and files:
- `wrappers.dfy`: the `Option`, `Result` and `Outcome` datatypes.
- `nodes.dfy` (`Nodes`): the node operations.
- `node_properties.dfy` (`NodeProperties`): an independent pre-order listing of descendants, paths of parent-to-child links, and the lemmas relating the operations to them.
- `graphs.dfy` (`Graphs`): the graph.
- `quantity_units.dfy` (`QuantityUnits`) and `quantities.dfy` (`Quantities`): units and quantities.
- `bounded_search.dfy` (`BoundedSearch`): the descendant search with a fuel bound in place of the acyclicity precondition, for reasoning about cyclic arenas.
- `demo.dfy` (`Demo`): the hierarchy that the console program builds, with the cycle it reports.

Termination and the rank precondition:
- `FindOrDefault`, `Find` and `Trace` recurse into every child before moving to the next one. On an arena with a cycle they do not terminate whenever the pre-order walk enters the cycle before reaching a node with the name, in particular when the name is absent. They do terminate when the name is reached first, and the result may then be the receiver itself.
- The model therefore gives them a `rank` map with the precondition `Ranked(s, rank)`: every child is ranked strictly below its parent. The map is a witness of acyclicity.
- `FindCycle` needs no such precondition. It only enters a child whose name is not yet on the stack, so the number of arena names missing from the stack decreases with every call.
- `BoundedSearch.SearchFuel` runs the same descendant search on any arena, bounded by a fuel count. On an acyclic arena it agrees with the ranked search. On the program's cyclic hierarchy it runs out of every fuel for an absent name, and it finishes for some present names, once with the root itself.

Where the documentation and the code of the graph disagree, this model follows the code:
- The doc comments of `Graph.FindOrDefault` and `Graph.Find` (`Electronics.Graph.Calculator/Graph.cs:23` and `:30`) describe the same search, differing only in the failure: null or an exception. `Node` pairs `FindOrDefault` and `Find` the same way, both documented as a search of the descendants (`Node.cs:65` and `:92`).
- `Graph.Find` calls the root's descendant search, but `Graph.FindOrDefault` (`Graph.cs:27`) calls the root's direct-child lookup.
- `Graphs.FindOrDefault` models the code. `Graphs.FindOrDefaultDescendants` models the evidently intended lookup (see Findings).

## Model

| member | source | states |
|---|---|---|
| Nodes.NewNode | Electronics.Graph.Calculator/Node.cs:23-27 | A new node has the given name and no children. It gets an id not used before, and every existing node is unchanged. |
| Nodes.First | Electronics.Graph.Calculator/Node.cs:36-44 | The in-order scan of a reference list returns the first element carrying the name, or none when no element carries it. |
| Nodes.FindChildOrDefault | Electronics.Graph.Calculator/Node.cs:34-45 | The result is the first direct child, in list order, named `name`, or none when no child has that name. |
| Nodes.FindChild | Electronics.Graph.Calculator/Node.cs:53-63 | It returns the same child as FindChildOrDefault. It fails with NotFound exactly when no direct child carries the name. |
| Nodes.SearchChildren | Electronics.Graph.Calculator/Node.cs:72-87 | The loop of FindOrDefault returns only a node that carries the name and is ranked strictly below the receiver, so it is a strict descendant. |
| Nodes.FindOrDefault | Electronics.Graph.Calculator/Node.cs:70-88 | On an acyclic arena, a found node carries the name and is never the receiver itself. |
| Nodes.Find | Electronics.Graph.Calculator/Node.cs:96-106 | On an acyclic arena, it fails, with NotFound, exactly when FindOrDefault finds nothing. Otherwise it returns the node FindOrDefault returns. |
| Nodes.AddChildNamed | Electronics.Graph.Calculator/Node.cs:113-123 | It fails with AlreadyExists exactly when a direct child already has the name. Otherwise the child list becomes the old list plus a fresh childless node with that name, and no other node changes. |
| Nodes.AddChildNode | Electronics.Graph.Calculator/Node.cs:129-132 | It always appends the given reference at the end of the list, with no uniqueness or cycle check. Every other node is unchanged. |
| Nodes.RemoveChildNode | Electronics.Graph.Calculator/Node.cs:148-149 | It removes the first occurrence of the reference, compared by identity, and keeps the rest in order. It is a no-op when the reference is not a child. |
| Nodes.RemoveChildNamed | Electronics.Graph.Calculator/Node.cs:138-142 | It fails with NotFound exactly when no direct child has the name. Otherwise it removes exactly the first child with that name, and nothing else changes. |
| Nodes.Pop | Electronics.Graph.Calculator/Node.cs:177 | Popping removes the top entry and leaves the rest of the stack. |
| Nodes.TraceChildren | Electronics.Graph.Calculator/Node.cs:161-175 | On failure the loop of Trace leaves the stack as it found it. On success it has only pushed entries, and the last one is the target name. |
| Nodes.Trace | Electronics.Graph.Calculator/Node.cs:157-179 | On an acyclic arena: on false the stack is exactly as on entry. On true the stack is the old stack plus at least two entries, beginning with the receiver's name and ending with the target name. |
| Nodes.FindCycleChildren | Electronics.Graph.Calculator/Node.cs:190-204 | On failure the loop of FindCycle leaves the stack as it found it. On success it has pushed entries and the top name occurs lower in the stack. It terminates on every arena. |
| Nodes.FindCycle | Electronics.Graph.Calculator/Node.cs:186-208 | On false the stack is unchanged. On true the receiver's name is pushed first, and the last pushed name already occurs lower in the stack, possibly among entries present before the call. It terminates on any arena, cyclic or not. |
| NodeProperties.PreOrderExcludesSelf | Electronics.Graph.Calculator/Node.cs:70-88 | On an acyclic arena the receiver is never among its own strict descendants in pre-order. |
| NodeProperties.FirstAppend | Electronics.Graph.Calculator/Node.cs:72-87 | The first named element of a concatenation comes from the left part whenever the left part has one. This is why an earlier sibling's subtree is searched before a later sibling. |
| NodeProperties.SearchIsFirstInPreOrder | Electronics.Graph.Calculator/Node.cs:72-87 | The descendant loop returns the first node carrying the name in an independently defined pre-order listing. Each child is listed before its subtree, and an earlier sibling's subtree before later siblings. |
| NodeProperties.FindOrDefaultIsFirstInPreOrder | Electronics.Graph.Calculator/Node.cs:70-88 | FindOrDefault returns the first strict descendant in pre-order that carries the name, or none when no descendant does. |
| NodeProperties.SearchIgnoresRank | Electronics.Graph.Calculator/Node.cs:70-88 | The descendant search does not depend on which rank witnesses acyclicity. The rank only bounds recursion depth. |
| NodeProperties.ChildImpliesDescendant | Electronics.Graph.Calculator/Node.cs:34-45 | Whenever the direct-child lookup finds a name, the descendant lookup finds it too. |
| NodeProperties.PathRankDecreases | Electronics.Graph.Calculator/Node.cs:70-88 | Along a chain of parent-to-child links in an acyclic arena the rank strictly decreases, so no chain revisits a node. |
| NodeProperties.FindOrDefaultFindsPathEnd | Electronics.Graph.Calculator/Node.cs:70-88 | If any node reachable from the receiver carries the name, FindOrDefault finds such a node. With unique names it finds exactly that node. |
| NodeProperties.TraceAgreesWithFind | Electronics.Graph.Calculator/Node.cs:157-179 | Trace returns true exactly when FindOrDefault finds a descendant with the name. |
| NodeProperties.TracePath | Electronics.Graph.Calculator/Node.cs:157-179 | When Trace succeeds, the names it pushed are the names along a chain of parent-to-child links. The chain starts at the receiver and ends at the node FindOrDefault returns. |
| NodeProperties.LeafHasNoCycle | Electronics.Graph.Calculator/Node.cs:186-208 | From a childless node FindCycle reports no cycle and leaves the stack unchanged. |
| NodeProperties.FindCyclePath | Electronics.Graph.Calculator/Node.cs:186-208 | When FindCycle succeeds, the names it pushed are the names along a chain of parent-to-child links starting at the receiver. |
| NodeProperties.NoCycleFoundWithoutCycle | Electronics.Graph.Calculator/Node.cs:186-208 | On an acyclic arena with unique names, FindCycle from an empty stack reports no cycle and leaves the stack empty. |
| NodeProperties.FindOwnNameFails | Electronics.Graph.Calculator/Node.cs:96-106 | With unique names, looking up a node's own name among its descendants fails with NotFound. The receiver is never matched. |
| NodeProperties.AddThenFindChild | Electronics.Graph.Calculator/Node.cs:113-123 | After a successful add by name, the direct-child lookup of that name returns the new node. |
| NodeProperties.AddTwiceFails | Electronics.Graph.Calculator/Node.cs:113-123 | Adding the same name to the same node a second time fails with AlreadyExists. |
| NodeProperties.AddThenRemoveRestores | Electronics.Graph.Calculator/Node.cs:138-142 | Removing by name a child just added by name restores the parent and every other node that existed before. |
| NodeProperties.RemoveChildNodeTakesOne | Electronics.Graph.Calculator/Node.cs:148-149 | Removing a reference takes exactly one occurrence of it out of the child multiset, and none when it is absent. |
| NodeProperties.AddThenRemoveNode | Electronics.Graph.Calculator/Node.cs:129-149 | Removing a reference just attached restores the parent's children as a multiset. It restores the exact list when the reference was not already a child, and leaves other nodes untouched. |
| NodeProperties.AddChildNodeTwice | Electronics.Graph.Calculator/Node.cs:129-132 | Attaching the same reference twice makes it occur twice more among the children: there is no uniqueness check. |
| NodeProperties.AddChildNodeSelf | Electronics.Graph.Calculator/Node.cs:129-132 | Attaching a node to itself makes it its own child: there is no cycle check. |
| NodeProperties.AddChildNamedKeepsRanked | Electronics.Graph.Calculator/Node.cs:113-123 | Adding a fresh childless node keeps the arena acyclic. A new rank witness exists. |
| NodeProperties.RemoveChildNodeKeepsRanked | Electronics.Graph.Calculator/Node.cs:148-149 | Removing a reference keeps the arena acyclic under the same rank. |
| BoundedSearch.SearchFuel | Electronics.Graph.Calculator/Node.cs:72-87 | The loop of FindOrDefault on any arena, one fuel unit per descent: a node it returns carries the name. |
| BoundedSearch.FuelAgreesOnRanked | Electronics.Graph.Calculator/Node.cs:70-88 | On an acyclic arena, fuel above the receiver's rank suffices, and the bounded search returns what the ranked search returns. |
| BoundedSearch.LoopExhausts | Electronics.Graph.Calculator/Node.cs:72-87 | For an absent name, the loop over the children runs out of fuel as soon as the search below one of the remaining children does. |
| BoundedSearch.UnendingExhausts | Electronics.Graph.Calculator/Node.cs:70-88 | For an absent name, the search from a node on a child chain that can be followed forever runs out of every fuel bound. |
| Graphs.FindOrDefault | Electronics.Graph.Calculator/Graph.cs:27 | As written, the result is the first direct child of the root that carries the name, or none. Deeper descendants are not searched. |
| Graphs.Find | Electronics.Graph.Calculator/Graph.cs:34 | On an acyclic arena, it returns the first strict descendant of the root, in pre-order, that carries the name. The root is never matched. It fails with NotFound exactly when no descendant carries the name. |
| Graphs.Trace | Electronics.Graph.Calculator/Graph.cs:41 | On an acyclic arena: the boolean result is discarded. The stack is unchanged when no descendant has the name. Otherwise the root's name is pushed first and the target's name last. |
| Graphs.FindOrDefaultDescendants | Electronics.Graph.Calculator/Graph.cs:27-34 | The corrected FindOrDefault finds nothing exactly when Find fails, and otherwise returns the node Find returns. |
| Graphs.FindOrDefaultWeakerThanFind | Electronics.Graph.Calculator/Graph.cs:27-34 | Whatever the as-written FindOrDefault finds, Find also succeeds for that name. |
| Graphs.FindSkipsRoot | Electronics.Graph.Calculator/Graph.cs:34 | With unique names, Find for the root's own name fails with NotFound: the root itself is never matched. |
| QuantityUnits.DefaultUnit | Electronics.Graphs.Domain/Quantity/QuantityUnit.cs:16-19 | The parameterless constructor yields the unit equal to the Unknown constant. |
| QuantityUnits.Equals | Electronics.Graphs.Domain/Quantity/QuantityUnit.cs:55-56 | Equals holds exactly when the two units are the same value. A unit is its name. |
| QuantityUnits.EqualOp | Electronics.Graphs.Domain/Quantity/QuantityUnit.cs:79-80 | Operator == holds exactly when the two units are equal. |
| QuantityUnits.NotEqualOp | Electronics.Graphs.Domain/Quantity/QuantityUnit.cs:88-89 | Operator != holds exactly when the units differ: it is the negation of ==. |
| QuantityUnits.CheckCompatibility | Electronics.Graphs.Domain/Quantity/QuantityUnit.cs:96 | Two units are compatible exactly when they are equal. |
| QuantityUnits.ThrowIfUnitsAreNotCompatible | Electronics.Graphs.Domain/Quantity/QuantityUnit.cs:140-144 | The guard passes exactly when the units are equal. Otherwise it fails with NotSameUnits. |
| QuantityUnits.Add | Electronics.Graphs.Domain/Quantity/QuantityUnit.cs:104-108 | Unit + succeeds exactly when the units are equal and then yields the left operand. Otherwise it fails with NotSameUnits. |
| QuantityUnits.Sub | Electronics.Graphs.Domain/Quantity/QuantityUnit.cs:116-120 | Unit - succeeds exactly when the units are equal and then yields the left operand. Otherwise it fails with NotSameUnits. |
| QuantityUnits.CombineWithSelf | Electronics.Graphs.Domain/Quantity/QuantityUnit.cs:104-120 | For every unit u, u + u = u and u - u = u. |
| QuantityUnits.NamedUnitsDistinct | Electronics.Graphs.Domain/Quantity/QuantityUnit.cs:33-48 | Volt, Ampere, Ohm and Unknown carry the names "V", "A", "Ω" and "Unknown", and are pairwise unequal. |
| Quantities.DefaultQuantity | Electronics.Graphs.Domain/Quantity/Quantity.cs:18-22 | The parameterless constructor gives value 0 in the Unknown unit. |
| Quantities.Make | Electronics.Graphs.Domain/Quantity/Quantity.cs:29-33 | The constructor keeps the given unit and value. The value defaults to 0. |
| Quantities.IsUnitCompatible | Electronics.Graphs.Domain/Quantity/Quantity.cs:163-164 | Two quantities are unit-compatible exactly when their units are equal. |
| Quantities.ThrowIfUnitsNotCompatible | Electronics.Graphs.Domain/Quantity/Quantity.cs:152-156 | As written, the guard fails with NotSameUnits exactly when the two units are EQUAL. |
| Quantities.Add | Electronics.Graphs.Domain/Quantity/Quantity.cs:41-45 | As written, + never yields a quantity: every call fails with NotSameUnits. |
| Quantities.Sub | Electronics.Graphs.Domain/Quantity/Quantity.cs:53-57 | As written, - never yields a quantity: every call fails with NotSameUnits. |
| Quantities.Scale | Electronics.Graphs.Domain/Quantity/Quantity.cs:91-92 | Multiplying by a factor keeps the unit, multiplies the value, and never fails. |
| Quantities.Divide | Electronics.Graphs.Domain/Quantity/Quantity.cs:100-101 | Dividing by a factor keeps the unit, and the result times the factor is the original value. It fails exactly when the factor is zero. |
| Quantities.Equals | Electronics.Graphs.Domain/Quantity/Quantity.cs:126-127 | Two quantities are equal exactly when both their values and their units are equal. |
| Quantities.EqualOp | Electronics.Graphs.Domain/Quantity/Quantity.cs:109-110 | Operator == holds exactly when the two quantities are equal. |
| Quantities.NotEqualOp | Electronics.Graphs.Domain/Quantity/Quantity.cs:118-119 | Operator != holds exactly when the two quantities differ: it is the negation of ==. |
| Quantities.DivideUndoesScale | Electronics.Graphs.Domain/Quantity/Quantity.cs:91-101 | Dividing by a non-zero factor undoes multiplying by it. |
| Quantities.ScaleComposes | Electronics.Graphs.Domain/Quantity/Quantity.cs:91-92 | Scaling twice is scaling once by the product of the factors. |
| Quantities.AddOfSameUnitFails | Electronics.Graphs.Domain.UnitTests/QuantityUnitTest.cs:26-34 | For the first test case, 12 V + 54 V, the code as written fails with NotSameUnits. The corrected operator yields the 66 V the test expects. |
| Quantities.RequireSameUnits | Electronics.Graphs.Domain/Quantity/Quantity.cs:152-156 | The corrected guard passes exactly when the units are equal. Otherwise it fails with NotSameUnits. |
| Quantities.AddChecked | Electronics.Graphs.Domain/Quantity/Quantity.cs:41-45 | Corrected +: it succeeds exactly when the units are equal, and then yields the sum of the values in that unit. Otherwise it fails with NotSameUnits. |
| Quantities.SubChecked | Electronics.Graphs.Domain/Quantity/Quantity.cs:53-57 | Corrected -: it succeeds exactly when the units are equal, and then yields the difference of the values in that unit. Otherwise it fails with NotSameUnits. |
| Quantities.SubUndoesAdd | Electronics.Graphs.Domain.UnitTests/QuantityUnitTest.cs:26-49 | Under the corrected operators, subtracting b from a + b gives a back whenever the units match. |
| Demo.Program | Electronics.Graphs/Program.cs:3-27 | The program's construction sequence builds A → {B, C → {I, J}, D → {E, F → {G, H → A}}}. FindCycle from A with an empty stack then returns true, with the stack A, D, F, H, A from bottom to top. |
| Demo.PlantRoot | Electronics.Graphs/Program.cs:3-8 | Creating A and giving it B and C yields the first stage of the hierarchy, with A at id 0. |
| Demo.GrowBelowC | Electronics.Graphs/Program.cs:9-13 | Looking C up through the graph, giving it I and J, then giving the root D yields the next stage. |
| Demo.GrowBelowD | Electronics.Graphs/Program.cs:15-17 | Looking D up through the graph and giving it E and F yields the next stage. |
| Demo.GrowBelowF | Electronics.Graphs/Program.cs:19-21 | Looking F up through the graph and giving it G and H completes the tree. |
| Demo.BuildBackEdge | Electronics.Graphs/Program.cs:23-24 | Attaching the root below H turns the tree into the cyclic hierarchy. |
| Demo.CycleFromRoot | Electronics.Graphs/Program.cs:26-27 | On the cyclic hierarchy, FindCycle from the root with an empty stack yields true and A, D, F, H, A. |
| Demo.CyclicHasNoRank | Electronics.Graphs/Program.cs:24 | Once H points back to A, no rank map witnesses acyclicity. |
| Demo.CyclicAbsentSearchNeverEnds | Electronics.Graph.Calculator/Node.cs:70-88 | On the program's cyclic hierarchy, the descendant search from the root for the absent name "Z" runs out of every fuel bound: the unbounded search never returns. |
| Demo.CyclicSearchFindsB | Electronics.Graph.Calculator/Node.cs:70-88 | On the program's cyclic hierarchy, the descendant search from the root for "B" still returns B. |
| Demo.CyclicSearchReturnsRoot | Electronics.Graph.Calculator/Node.cs:70-88 | On the program's cyclic hierarchy, the descendant search from the root for "A" returns the root itself, reached again through D, F and H. |
| Demo.TreeHasNoCycle | Electronics.Graphs/Program.cs:3-21 | Before the back edge, FindCycle from the root reports no cycle and leaves the stack empty. |
| Demo.GraphFindOrDefaultMissesGrandchild | Electronics.Graph.Calculator/Graph.cs:27-34 | On the demonstration tree, Graph.FindOrDefault reports the grandchild F absent, while Graph.Find locates it. |
| Demo.CycleDetectionIsByName | Electronics.Graph.Calculator/Node.cs:192-196 | Cycles are detected by name: in an acyclic arena where a node named A has a child also named A, FindCycle reports a cycle A, A. |
| Demo.GraphLookupsDisagree | Electronics.Graph.Calculator/Graph.cs:27-34 | Under A → {B → {X}, X}, Graph.FindOrDefault returns the direct child X, while Graph.Find returns B's child X. The pre-order search reaches B's child first. |

## Left out

- Non-termination: on an arena with a cycle, Node.FindOrDefault, Node.Find and Node.Trace recurse without end (a stack overflow) whenever the pre-order walk enters a cycle before it reaches the name, and so always when the name is absent.
  - The model does not represent the crash. `BoundedSearch` shows it as a search that runs out of every fuel bound (`Demo.CyclicAbsentSearchNeverEnds`).
  - The node and graph search functions and their lemmas require a rank map that witnesses acyclicity of the whole arena.
  - That requirement also excludes arenas whose only cycles are unreachable from the receiver.
  - FindCycle carries no such requirement.
- Nodes.FindOrDefault: the terminating searches on cyclic arenas are excluded by the rank precondition. There the code may return the receiver itself, as `Root.FindOrDefault("A")` does on the program's final graph (`Demo.CyclicSearchReturnsRoot`). Only `BoundedSearch.SearchFuel` covers those runs, and it promises only that the result carries the name.
- Nodes.Find: the same cyclic runs are excluded, so "never the receiver" and "NotFound exactly when no descendant has the name" are promised on acyclic arenas only.
- Nodes.Trace: the same cyclic runs are excluded. On a cyclic arena that terminates, the pushed path may start and end with the receiver's name.
- Graphs.Find: the same cyclic runs are excluded. On the program's final graph `graph.Find("A")` returns the root, so "the root is never matched" holds on acyclic arenas only.
- Graph construction and the Root property (Graph.cs:11-20) have no operation of their own. `Graphs.Graph` is an immutable datatype holding the root id, so the root is assigned once and never changes. No `Graphs` function returns an arena, so no graph operation changes a node.
- The console output of Program.cs (lines 29-32) is I/O and is left out. `Demo.Program` returns the stack instead. The stack is ordered bottom first, which is the order `stack.Reverse()` prints.
- Exception classes and their message strings (Node.cs:59, 102, 119; QuantityNotSameUnitsException.cs) are collapsed into the error values `NotFound`, `AlreadyExists` and `NotSameUnits`.
- `Equals(object)` overloads are left out. They reduce to the typed `Equals` for values of the same type, and Dafny has no untyped object to compare against.
- `GetHashCode` of Quantity and QuantityUnit is left out. It relies on library hashing that is randomised per process.
- Quantities.Scale: decimal precision, rounding and overflow are not modelled, because values are idealised as real numbers. The decimal `OverflowException` of `*` therefore has no counterpart.
- Quantities.Divide: decimal precision and rounding are not modelled, because values are idealised as real numbers. Only the division-by-zero failure is kept.
- The commented-out TODO operators (Quantity.cs:59-83, QuantityUnit.cs:122-133) are not code and are not modelled.
- Publicly mutable state is treated as fixed: the static unit fields, the public `QuantityUnitName` field, and the exposed `Nodes` list. Child lists change only through the modelled operations.
- `default(QuantityUnit)` carries a null name and is not modelled.
- The NUnit test fixture of QuantityUnitTest.cs is left out. Its cases only serve as evidence for the intended results of `+`, `-`, `*` and `/`.

## Findings

| source | as written | input that shows it | evidently intended | confidence | as-written member | corrected member |
|---|---|---|---|---|---|---|
| Electronics.Graphs.Domain/Quantity/Quantity.cs:152-156 | The guard throws when `IsUnitCompatible` holds, that is, when the units are equal. Unit `+`/`-` then reject every pair the guard lets through, so quantity `+` and `-` always throw. | `new Quantity(Volt, 12) + new Quantity(Volt, 54)` fails with NotSameUnits. The test at QuantityUnitTest.cs:26-34 expects 66 V. | Throw when the units are NOT compatible, so that quantities of one unit add and subtract. | high (not executed) | Quantities.AddOfSameUnitFails | Quantities.AddChecked |
| Electronics.Graph.Calculator/Graph.cs:27 | Graph.FindOrDefault calls the root's direct-child lookup, while Graph.Find (line 34) searches all descendants. | For the tree of Program.cs, `graph.FindOrDefault("F")` is null, yet `graph.Find("F")` returns F. | FindOrDefault is the non-throwing counterpart of Find, as the Node class pairs them, and searches all descendants. | medium (not executed) | Demo.GraphFindOrDefaultMissesGrandchild | Graphs.FindOrDefaultDescendants |
