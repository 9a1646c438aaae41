# Folder-tree generator: a Dafny model of its core

This project models the core of a small Python tool. The tool builds
folder-and-file trees and creates them on disk from a tree diagram. The model
covers four parts:

- **The self-recomputing tree** (`models/tree2.py`).
  - Files (`Node`) and directories (`ContainerNode`) are registered in a
    global node registry, which hands out consecutive ids.
  - Directories keep ordered child lists.
  - Every node stores `parent`, `level`, `path` and `pos`. These are
    recomputed by `reload`, `reload_children` and `reload_all` whenever
    `append`, `remove` or `move` changes the tree.
  - `Tree.collect` and `TreeData.add_to_matrix` group the nodes by depth.
- **The two diagram walkers.** They are `Builder.handle_generate`
  (`models/builder.py`) and `create_folders_from_diagram` (`main.py`). Each
  reads a diagram line by line:
  - the depth of a line is its number of leading tree characters;
  - the item name is the text after the last `─`;
  - a trailing `/` marks a folder;
  - a stack of path components is popped to `depth + 1` entries and then
    pushed.

  The depth counts characters, not tree levels. With the usual
  four-character indentation (`│   ├── `), siblings below the first level
  therefore nest under one another: a line whose depth reaches the stack's
  height pops nothing. Both walkers do this (models/builder.py:100, 111;
  main.py:22, 28), and the model keeps it.
- **The two graph traversals** of `models/graph.py`. `get_edges` produces the
  (container name, child name) pairs. `get_positions` produces the
  name → (level, id) dictionary.
- **The operation validators** of `utils/tree/validation.py`: the rules for
  `move`, `append` and `remove`, and how `validate` selects among them.

## How the tree is represented

The registry is the class `Tree2.NodeRegistry`.

- It holds one column (a `seq`) per node attribute: `name`, `isContainer`,
  `parent`, `children`, `level`, `path` and `pos`.
- The columns are indexed by node id. A Python reference to a node is its id
  here, and a `None` parent is `NoParent` (-1).
- Methods that mutate nodes in place (`append`, `remove`, `reload*`,
  construction) are methods of this class. Their `modifies` clauses name
  exactly the columns they rewrite.
- A ghost column `rank`, which decreases from container to child, stands for
  the acyclicity the Python code assumes but never checks. Every recursive
  walk terminates by it.
- `Cons(x)` states that node `x` is consistent with its container:
  - `level == parent.level + 1`;
  - `path == parent.path + "/" + name`;
  - `pos == parent.pos_of(name)`.
- `Settled(x)` means `x` is detached or consistent.
- `Reloaded(x)` means `x` is what its own `reload` would leave: consistent
  when it has a container, otherwise reset to level -1, path = name, pos -1.
  `ConsBelow(x)` means every proper descendant of `x` is consistent.
- `_create_root` sets a fresh directory's level to 0, but the first `append`
  to it runs `reload_all` on it (models/tree2.py:406-412, 434-438), and being
  parentless it is reset to level -1. So the root's children end at level 0,
  not 1. `Append`, `Move`, `Adopt` and `NewNode` state this as
  `Reloaded` of the container.

The walks over a subtree (pre-order, descendant count, edges, height,
collection by depth) are ghost functions of module `Shape`. The methods are
proved equal to them, and the lemmas about them are proved once.

Both diagram walkers are modelled as loops over the lines. Each line is read
once by `DiagramLine.ParseLine` into an optional item (depth, name without the
trailing `/`, folder flag). The loops are proved equal to a step function
folded over these readings (`Builder.Run`, `CreateFolders.Run`), and the
properties of that fold are then proved by induction. The file
system is left to the caller. The walkers yield the path components that
`os.path.join` / `os.makedirs` would receive.

## Model

| member | source | states |
|---|---|---|
| Tree2.NodeRegistry.Register | models/tree2.py:23-25 | the new node gets id = old registry length; every column grows by exactly one detached entry (level -1, pos -1, path = name); every other node keeps its attributes, so consistent nodes stay consistent |
| Tree2.NodeRegistry.Lookup | models/tree2.py:28-41 | `get`/`find` by name: None exactly when no registered node has the name, otherwise the lowest id carrying it |
| Tree2.NodeRegistry.Contains | models/tree2.py:52-55 | true exactly when some registered node carries the name (the lookup succeeds) |
| Tree2.NodeRegistry.NewNode | models/tree2.py:281-300 | constructing a node under container `p` registers it with the next id and lists it as `p`'s last child with parent `p`, consistent with `p`; its `pos` is `len(p.children)` when its name is new among the siblings; `p` is reloaded (reset when parentless) and everything below it is consistent; no earlier node outside `p`'s subtree changes; without a parent the node is registered detached and every other node keeps its attributes |
| Tree2.NodeRegistry.Adopt | models/tree2.py:187-208 | the constructor's double `move` (the first through the base-class `__init__`, the second after `pos = -1`) leaves the node once at the end of the new parent's children, consistent; the parent is reloaded and its whole subtree consistent; nothing outside the parent's subtree changes; every settled node stays settled |
| Tree2.NodeRegistry.FirstMove | models/tree2.py:187-208 | the first move plus `pos = -1`: the node is the parent's last child, nothing outside the parent's subtree changes, and every other settled node stays settled |
| Tree2.NodeRegistry.SecondMove | models/tree2.py:203-208 | moving the last child of `p` into `p` again keeps the child lists and parents, reloads `p`, makes the node and `p`'s subtree consistent and changes nothing outside that subtree |
| Tree2.NodeRegistry.CreateRoot | models/tree2.py:265-279 | `_create_root`: a parentless directory with level 0, path = name, pos -1 and no children, appended as the last entry of every column; every other node keeps its attributes |
| Tree2.NodeRegistry.ContainsChild | models/tree2.py:322-328 | true exactly when some child of the container has the name |
| Tree2.NodeRegistry.Get | models/tree2.py:349-355 | None exactly when no child has the name; otherwise a child with that name such that no earlier child has it |
| Tree2.NodeRegistry.Find | models/tree2.py:357-363 | None exactly when the index is negative or not below the child count; otherwise the child at that index |
| Tree2.NodeRegistry.PosOfChild | models/tree2.py:365-379 | -10 exactly when no child has the name; otherwise the 1-based index of the first child with it, which is where `find` and `get` agree |
| Tree2.PosOfDistinct | models/tree2.py:365-379 | among distinct sibling names, `pos_of` of the i-th name is i + 1 |
| Tree2.PosOfAppendNew | models/tree2.py:406-412 | a name new among the siblings, appended last, has position `len(children)` |
| Tree2.NodeRegistry.PositionsAreIndices | models/tree2.py:424-438 | after reloading, with distinct sibling names each child's stored `pos` is its 1-based index |
| Tree2.NodeRegistry.Last | models/tree2.py:381-385 | raises IndexError exactly on an empty child list; otherwise the last child |
| Tree2.NodeRegistry.CheckLast | models/tree2.py:387-395 | true exactly when the container has children and its last child carries the name; false when the name is absent |
| Tree2.NodeRegistry.IsLast | models/tree2.py:397-404 | true exactly when the node has a parent whose last child it is; a parentless node gives false (Python's None) |
| Tree2.NodeRegistry.Count | models/tree2.py:336-347 | `count(False)` is the number of children; `count(True)` accumulated child by child equals the number of proper descendants |
| Subtrees.SubtreeSize | models/tree2.py:336-347 | in a forest the pre-order of a subtree has no repeats, and the subtree holds exactly `count(True) + 1` distinct ids |
| Subtrees.PreOrderNoRepeats | models/tree2.py:336-347 | in a forest the pre-order walk of a subtree meets no node twice |
| Subtrees.SiblingsDisjoint | models/tree2.py:336-347 | in a forest the subtrees of two different children share no node, so counting child by child counts no node twice |
| Subtrees.Nested | models/tree2.py:336-347 | in a forest two subtrees that share a node lie one inside the other |
| Shape.DescCountAtLeastChildren | models/tree2.py:336-347 | `count(True) >= count(False)` |
| Shape.PreOrderLength | models/tree2.py:336-347 | the pre-order of a subtree lists `count(True) + 1` nodes |
| Shape.PreOrderMembers | models/tree2.py:440-451 | the pre-order walk of a subtree visits exactly the node and its descendants |
| Tree2.NodeRegistry.Reload | models/tree2.py:424-438 | an attached node takes level, path and pos from its container; a detached one is reset to level -1, path = name, pos -1; no other node changes |
| Tree2.NodeRegistry.ReloadFile | models/tree2.py:208-220 | a file's trailing `reload` in `move`, on a consistent file, leaves every node's level, path and pos exactly as they were |
| Tree2.NodeRegistry.ReloadChildren | models/tree2.py:440-451 | with `only_direct` every child becomes consistent, otherwise every descendant; nodes outside are unchanged |
| Tree2.NodeRegistry.ReloadAll | models/tree2.py:453-458 | the container itself is reloaded (a parentless one is reset), every descendant becomes consistent, nothing outside the subtree changes |
| Tree2.NodeRegistry.LevelsFollowWhenConsistent | models/tree2.py:424-458 | when every descendant is consistent, each descendant's stored level is its container's level plus one, all the way down |
| Tree2.NodeRegistry.Append | models/tree2.py:406-412 | the node is added last to the container's children with parent = container; afterwards the container is reloaded, the node and every descendant are consistent, every previously settled node is still settled, and nothing outside the container's subtree changes |
| Tree2.LinkForest | models/tree2.py:406-412 | appending a detached node outside whose subtree the container lies keeps the parent/children links a forest (no cycle, no node listed twice) |
| Tree2.NodeRegistry.Remove | models/tree2.py:415-422 | removing a non-child raises ValueError and changes nothing; otherwise the node leaves the child list (first occurrence) and is reset to parent None, level -1, path = name, pos -1; every remaining descendant is consistent again; with distinct sibling names each later sibling's pos drops by one and each earlier one keeps its pos; the removed node's former children are left stale |
| Tree2.NodeRegistry.OrphansStale | models/tree2.py:415-422 | a child of the removed node that was consistent before is no longer consistent after the removal, because its container was reset and it was not reloaded |
| Tree2.NodeRegistry.RenumberedAfterRemove | models/tree2.py:415-422 | with distinct sibling names, a sibling after the removed one has its pos lowered by one, a sibling before it keeps its pos |
| Tree2.UnlinkForest | models/tree2.py:415-422 | taking a child out of its container keeps the links a forest |
| Tree2.RemoveFirstLast | models/tree2.py:406-422 | appending a node that is not yet a child and then removing it restores the child list |
| Tree2.NodeRegistry.Move | models/tree2.py:203-208 | `move`: the node leaves its old container `p0` (if any) and becomes the new container `q`'s last child; `q` is reloaded (reset when parentless) and everything below it is consistent; `p0` is reloaded and everything still below it is consistent; no node outside the subtrees of `q` and `p0` changes; every settled node stays settled |
| Tree2.NodeRegistry.Rehome | models/tree2.py:207 | after `n` has left `p0`: appending it to `q` reloads `q`, makes `n` and `q`'s subtree consistent, keeps `p0` reloaded with its subtree consistent, and changes no node outside the two subtrees |
| Tree2.NodeRegistry.DetachNode | models/tree2.py:204-206 | the `remove` half of `move`: the node leaves its container, which is reloaded with its remaining subtree consistent; nothing outside that subtree but the node changes |
| Tree2.NodeRegistry.AttachNode | models/tree2.py:207 | the `append` half of `move`: the node is the container's last child, the container is reloaded, the node and the container's whole subtree are consistent, nothing outside it changes |
| Trees.Tree.Collect | models/tree2.py:534-545 | `collect(k)` equals the nodes of the base directory's subtree at depth k, in pre-order |
| Trees.CollectNodes | models/tree2.py:536-542 | the recursive helper appends exactly the subtree's nodes at the requested depth to the accumulator |
| Trees.CollectBounds | models/tree2.py:534-545 | `collect(0)` is the base directory alone, a negative level gives [], every collected node lies in the base directory's subtree |
| Shape.CollectIsDepthFilter | models/tree2.py:534-545 | collecting at depth k is filtering the depth-tagged pre-order for depth k |
| Shape.TaggedIsPreOrder | models/tree2.py:534-545 | the depth-tagged walk visits the nodes in pre-order |
| Trees.CollectedLevels | models/tree2.py:534-545 | after a reload of the subtree every node `collect(k)` returns has stored level `base.level + k` |
| Trees.Tree.AppendAsWritten | models/tree2.py:531-532 | `Tree.append` as written: only the base directory's child list grows |
| Trees.AppendAsWrittenBreaksLink | models/tree2.py:531-532 | listing a detached node under a container without linking it back leaves no forest, whatever the ranks |
| Trees.Tree.Append | models/tree2.py:531-532 | corrected `Tree.append`: the base directory's own `append`, so the node is linked, the base directory reloaded (reset when parentless), its whole subtree consistent and nothing outside it changed |
| Trees.TreeData.AddToMatrix | models/tree2.py:580-584 | row k of the matrix receives exactly the nodes of the subtree at depth k, in pre-order, and no row is added |
| Trees.TreeData.BuildMatrix | models/tree2.py:572-578 | with enough rows, row k equals `collect(k)` and is non-empty exactly up to the tree's height |
| Shape.CollectBeyondHeight | models/tree2.py:572-578 | no node is collected deeper than the subtree's height |
| Shape.CollectUpToHeight | models/tree2.py:572-578 | some node is collected at every depth up to the subtree's height |
| DiagramLine.RStripSpaces | models/builder.py:97-98 | `rstrip` removes whitespace only, and all trailing whitespace |
| DiagramLine.RStripNewline | models/builder.py:93-97 | a line read with its line break strips to the same text as without it |
| DiagramLine.LStripChars | models/builder.py:100 | `lstrip(chars)` removes only characters from the set, and all of the leading ones |
| DiagramLine.DepthCounts | models/builder.py:100 | the depth counts exactly the leading run of spaces, `│`, `├` and `└` |
| DiagramLine.AfterLastDashMeaning | models/builder.py:102 | the text after the last `─` holds no `─`, and a `─` precedes it unless it is the whole line |
| DiagramLine.StripEnds | models/builder.py:102 | the stripped name neither starts nor ends with whitespace |
| DiagramLine.StripWithin | models/builder.py:102 | stripping only removes characters |
| DiagramLine.Unslashed | models/builder.py:104-108 | a name ending in `/` loses exactly that character, any other name is kept |
| DiagramLine.Keep | models/builder.py:111-112 | the stack popped to at most n entries is a prefix of the stack of length min(len, n) |
| DiagramLine.PopTo | models/builder.py:111-112 | the pop loop leaves exactly that prefix |
| DiagramLine.ParseLineDepth | models/builder.py:97-100 | a non-blank line is read, and its depth is the length of its leading run of tree characters |
| DiagramLine.ParseLineName | models/builder.py:102-108 | the item name, with `/` put back for a folder, is the stripped text after the last `─`, and contains no `─` |
| Builder.HandleGenerate | models/builder.py:95-127 | the loop produces the entries of the step function folded over the readings of the lines, and reports success |
| Builder.HandleLine | models/builder.py:96-115 | one loop iteration is one step of the walk on the line's reading |
| Builder.PlaceItem | models/builder.py:111-115 | a blank line changes nothing; another pops the stack to depth + 1, pushes the name and records the whole stack with the folder flag |
| Builder.StepStack | models/builder.py:111-115 | a non-blank line keeps the first min(len, depth + 1) stack entries, puts the item name (even an empty one) on top, and adds one entry whose path is the whole stack |
| Builder.DeepLineNests | models/builder.py:100-114 | a line whose depth reaches the stack's height pops nothing, so its item goes below the item on top of the stack and its entry path is the old stack plus its name |
| Builder.SiblingsNest | models/builder.py:95-115 | the diagram `project/`, `├── src/`, `│   ├── main.py`, `│   └── utils.py` (depths 0, 1, 5, 5) leaves `utils.py` below `main.py` rather than beside it |
| Builder.RunShape | models/builder.py:95-115 | the destination stays at the bottom of the stack, there is one entry per non-blank line, and every entry's path starts at the destination and has an item below it |
| CreateFolders.CreateFoldersFromDiagram | main.py:17-33 | the loop produces the directories of the step function folded over the readings of the lines |
| CreateFolders.FolderLine | main.py:18-33 | one loop iteration is one step of the walk on the line's reading |
| CreateFolders.PlaceFolder | main.py:28-33 | a blank line changes nothing; another pops the stack to depth + 1, then pushes and records a directory only for a non-empty name |
| CreateFolders.RunShape | main.py:17-33 | the destination stays at the bottom, every directory path starts at it and ends in a non-empty name, and there is at most one directory per non-blank line |
| CreateFolders.AgreesWithBuilder | main.py:28-33 | when no line names an empty item, both walkers keep the same stack and main.py creates a directory at every path for which the builder yields an entry |
| Graph.BuildEdges | models/graph.py:38-42 | the helper appends the subtree's (container name, child name) pairs in pre-order to the accumulator; a file adds none |
| Graph.GetEdges | models/graph.py:36-46 | the result is the subtree's edges by name in pre-order; there are `count(True)` of them, and none for a node without children |
| Graph.EdgesAreLinks | models/graph.py:38-42 | every container/child link inside the subtree is listed, and every listed pair is such a link |
| Shape.EdgesMembers | models/graph.py:38-42 | an id pair is an edge of the subtree exactly when it is a container of the subtree and one of its children |
| Shape.EdgesLength | models/graph.py:38-42 | there is one edge per proper descendant |
| Graph.BuildPositions | models/graph.py:22-28 | the helper writes (x, y) under the node's name, then each node below it in pre-order under its name at (level, id) |
| Graph.GetPositions | models/graph.py:20-32 | the result is the root's name at (0, 0) overwritten in pre-order by every node below the root at (level, id) |
| Graph.PlacedAppend | models/graph.py:22-28 | writing positions for one node list and then another equals writing them for the concatenation |
| Graph.PlacedKeys | models/graph.py:24 | the keys after writing are the previous keys plus the names written |
| Graph.PlacedLast | models/graph.py:28 | a name holds the position of the last node written under it |
| Graph.PlacedUntouched | models/graph.py:24 | a name no written node carries keeps its earlier position |
| Graph.LayoutKeys | models/graph.py:20-32 | the keys of `get_positions` are exactly the names in the subtree |
| Graph.LayoutOfNode | models/graph.py:22-28 | a node below the root whose name no other such node carries is at (its level, its id) |
| Graph.LayoutOfRoot | models/graph.py:30-31 | the root is at (0, 0) unless a node below it carries its name |
| Graph.EdgesPositioned | models/graph.py:54-65 | both names of every edge from `get_edges` are keys of `get_positions`, so every edge joins two positioned nodes |
| Validation.MoveAllowed | utils/tree/validation.py:24-25 | `move` is refused for None or a string, for a file as new parent and for the current parent; it is allowed for any other directory |
| Validation.AppendAllowed | utils/tree/validation.py:43-44 | `append` is refused for None or a string and for a node whose parent is already the target; any other node is allowed |
| Validation.ValidateNode | utils/tree/validation.py:58-59 | the node table never raises, and allows `move` exactly to a directory that is not the target's current parent |
| Validation.RemoveAllowed | utils/tree/validation.py:45-46 | a string child raises AttributeError (it has no `parent`); otherwise allowed exactly for a file whose parent is the target |
| Validation.ValidateContainerNode | utils/tree/validation.py:62-63 | the container table answers `move` and `append` without raising; `remove` raises exactly for a string argument |
| Validation.Validate | utils/tree/validation.py:66-75 | `move` uses the move rule for either kind of target, `append` and `remove` their container rules, and any other operation is refused with False |
| Validation.MoveAllowedIsNewDirectory | utils/tree/validation.py:24-25 | in a well-formed tree, `move` is allowed exactly when the new parent is a directory not yet listing the target |
| Validation.AppendAllowedIsUnlisted | utils/tree/validation.py:43-44 | in a well-formed tree, `append` is allowed exactly for a node not yet among the target's children |
| Validation.RemoveAllowedIsListedFile | utils/tree/validation.py:45-46 | in a well-formed tree, `remove` is allowed exactly for a file among the target's children (when the container's `remove` succeeds); a directory child is always refused |

## Left out

- The file system and I/O: reading the diagram file, `os.makedirs`, `PathUtils.create_file`, `os.path.exists`/`dirname`, logging and `print`. The walkers yield the path components instead, and `os.path.join` itself is not modelled.
- The ANSI printers and every `__str__` / `to_*_string` method, `draw_graph` and the module-level demo graph (matplotlib/networkx plotting), `Tree.print_tree` and `TreeData.print_matrix`.
- `NodeRegistry.get_all`, which exposes the registry list itself; the model's registry columns are that list.
- `NodeRegistry.count()` is the registry length; `Tree2.NodeRegistry.Register` and `Tree2.NodeRegistry.NewNode` state that it grows by exactly one per construction.
- `is_empty` (both `ContainerNode.is_empty`, which compares `len < 0` and is always False, and `NodeRegistry.is_empty`, which is true when the registry is NOT empty): not modelled, as neither has a caller in the core.
- `get_max_depth` returns nothing and only prints, so `build_matrix` would fail on `None + 1`.
- Trees.TreeData.BuildMatrix: takes the row count as a parameter (at least the tree's height plus one) instead of `get_max_depth() + 1`.
- The extra loop at the end of `ContainerNode.move` (models/tree2.py:310-311) calls `reload_all` on every child, which files lack (AttributeError). The model's `move` is `remove` followed by `append`, which already recomputes the whole subtree, for files and directories alike.
- Tree2.NodeRegistry.Append: requires the node to be detached, not the container itself and not an ancestor of it. The source checks none of this. Appending an ancestor makes a cycle, and reloading then never terminates. Appending an attached node lists it under two containers. Every caller in the core (`move`, construction) detaches first. The model follows the code: it adds no rejection path and makes acyclicity a precondition.
- Tree2.NodeRegistry.Move: requires the new parent not to lie in the moved node's subtree, for the same reason.
- Tree2.NodeRegistry.Move: the file's trailing `reload()` (models/tree2.py:208) is not repeated inside `Move`. It would rewrite exactly the values that `Cons(n)` in `Move`'s contract already holds. `Tree2.NodeRegistry.ReloadFile` proves that this write leaves every column as it was.
- What `handle_generate` does on disk is not modelled. The builder's entries are paths and kinds only. As written, it creates a file only when the file's parent directory did not exist yet (models/builder.py:121-124). A file whose directory an earlier line created is logged as created but is never written.
- Registration order: the source registers a node after attaching it to its parent, while the model registers it first. Nothing reads the registry in between, so the resulting state is the same.
- `StructNode`/`BasicNode` helpers that no path of the core reaches (`StructNode._load`, `has_parent`, `is_root`, `is_exists`) are not modelled.
- The enum-keyed dispatch of `Validation` cannot run as written. The tables use keys such as `AllowedNodeMethods.APPEND`, which do not exist. `is_exists` indexes the table with the method and then tests membership in the lambda it gets back. The class-private `__methods` name is mangled.
- Validation.Validate: models the dispatch the two tables evidently describe (`validate_node` for a file target under `move`, `validate_container_node` otherwise, False for an operation in neither table). It does not model the KeyError, TypeError or AttributeError that the code as written raises first.
- The unreachable `return -5` of `pos_of` is not modelled.
- Concurrency: none in the source.

## Findings

| source | as written | input that shows it | evidently intended | confidence | as-written member | corrected member |
|---|---|---|---|---|---|---|
| models/tree2.py:531-532 | `Tree.append` appends the node to `base_dir.children` and does nothing else | a tree over directory `root` and a fresh file `a`: after `tree.append(a)`, `root.children == [a]` but `a.parent is None`, and `a.level`, `a.path` and `a.pos` are never recomputed | `base_dir.append(node)`, which sets the parent and reloads the subtree, as every other insertion in the module does | not executed | Trees.AppendAsWrittenBreaksLink | Trees.Tree.Append |
