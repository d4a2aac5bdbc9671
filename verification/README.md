# Family tree: line-by-line construction and most-recent-common-ancestor queries

This project is a Dafny model of `FamilyTree<T>` (`src/trees/FamilyTree.java`). The class is a generic genealogy tree. It is built one text line at a time from lines of the form `parent:child1,child2,...`. Names are turned into values of `T` by a converter. The tree answers "most recent common ancestor" (MRCA) queries between two named nodes, and it renders itself as an indented listing.

The Java objects become an arena:

- a map from a node's name to `Node(parent, children)`, together with the current `root`;
- names identify nodes, because the registry `nodesByName` holds exactly one node per name, so Java's reference identity is name equality;
- each mutating method is a pure function from the old tree to the new one.

What the model cannot see is passed in as a parameter:

- the converter is a function `conv: string -> T`;
- the registry's `HashMap` iteration order is a function `order` from the registry to a sequence of names;
- Java's `toString` of a name is a function `show: T -> string`.

Modules:

- `Wrappers`: `Option`, `Result`, and `Fuelled`, the outcome of a recursion with a depth budget.
- `Text`: Java's `trim`, `indexOf` and `split` on one character.
- `Arena`: nodes, the registry, `TreeNode.addChild`, and the link invariant `WellLinked`. `WellLinked` says every listed child points back to its parent, and every parent lists its child. `DownPath` is a path down the child lists, the way the recursive methods travel.
- `Ancestry`: the walks up the parent links. These are `ancestorsOf` and `collectAncestorsToList`. A fuel-bounded walk stands for the Java loop, and `Terminates` says that loop ends.
- `Builder`: `addLine` and the constructor's read loop.
- `Search`: `getNodeWithName`, a recursion down the child lists.
- `Query`: `getMostRecentCommonAncestor`.
- `Render`: `toStringWithIndent` and `toString`, also a recursion down the child lists.
- `Scenario`: one registry that the builder accepts, in which the walk up from the root never ends, yet the tree prints and a search finishes.

The recursive methods `getNodeWithName` and `toStringWithIndent` go down the child lists without remembering where they have been. The model gives them a budget of generations and returns `OutOfFuel` when the recursion would go deeper. A budget of `|nodes|` generations is always enough for a recursion that returns: when it runs out, some path down the child lists from the start node visits a node twice, and no budget finishes.

### Behaviour of the code at its edges

- **Skip rule.** Line 94 tests the untrimmed line: `line.isEmpty() || line.startsWith("#")`. So a line of spaces, or a `#` after leading spaces, is not skipped and goes on to the colon checks (`Builder.Parse`, `Builder.IsSkipped`).
- **Re-reading a line.** Reading `A:B` a second time is accepted and changes no parent link. It does append `B` to `A`'s child list a second time, because line 125 adds the child without checking the list (`Builder.ReapplyLine`).
- **Conflicts.** Lines 113-126 link the children left to right, and line 123 throws without undoing earlier work. On a conflict, the children before the conflicting one stay linked (`Builder.ConflictKeepsEarlierLinks`).
- **Cycles.** Line 122 only compares the child's parent with the line's parent. An accepted line that names its parent among its children therefore makes that node its own parent, and no ancestor walk from it ends (`Builder.SelfChildMakesCycle`).
- **A cycle above the root.** The lines `R:X`, `A:B`, `B:A`, `B:R` are all accepted, and `R` is the root after the last line, whatever the scan order: after `B:A` it is the only parentless node, and `B:R` leaves no parentless node, so the root is kept. While both `R` and `A` are parentless, after `A:B`, the scan order decides which is the root. The model's `Scenario` uses an order that lists `R` first. The walk up from `R` never ends, yet `toString` prints `R` and `X`, because it goes down from `R`. A search from `A` finds `B`. Rendering from `A` never ends, because its child lists lead back to it (`Scenario`).

## Model

| member | source | states |
|---|---|---|
| `Text.Trim` | src/trees/FamilyTree.java:114 | the trimmed text is empty exactly when the input is all blanks (code at most U+0020); otherwise it starts and ends with a non-blank character |
| `Text.TrimDropsBlankEnds` | src/trees/FamilyTree.java:99 | the trimmed text is a contiguous piece of the input with only blanks before and after it |
| `Text.TrimIdempotent` | src/trees/FamilyTree.java:114 | trimming twice is trimming once |
| `Text.IndexOf` | src/trees/FamilyTree.java:95 | the result is -1 exactly when the character is absent; otherwise the character sits at the result and nowhere before it |
| `Text.Split` | src/trees/FamilyTree.java:100 | at least one piece; no piece contains the separator; joining the pieces with the separator gives back the input |
| `Text.SplitJoin` | src/trees/FamilyTree.java:100 | the other round trip: splitting separator-free pieces joined with the separator gives back the pieces |
| `Builder.Parse` | src/trees/FamilyTree.java:93-102 | a line is skipped exactly when it is empty or starts with `#`; an accepted line has a non-empty parent text and at least one child token |
| `Builder.ColonRule` | src/trees/FamilyTree.java:95-98 | a line that is not skipped is rejected for its colon exactly when it has none, or its first colon is its first or its last character |
| `Builder.ParseAtColon` | src/trees/FamilyTree.java:99-102 | with the first colon strictly inside the line, the line is rejected for an empty parent exactly when the text before the colon is all blanks; otherwise the parent is that text trimmed and the tokens are the rest split at commas |
| `Builder.ParseFormatted` | src/trees/FamilyTree.java:92-102 | round trip: a parent and comma-free child pieces written as `parent:c1,c2,...` parse back to the trimmed parent and exactly those pieces |
| `Arena.Register` | src/trees/FamilyTree.java:117-121 | fetch-or-create: the name is added, an existing node is untouched, and a new one has no parent and no children |
| `Arena.AddChild` | src/trees/FamilyTree.java:28-31 | the child is appended to the parent's list and its parent becomes the parent; no other node changes |
| `Arena.AddChildKeepsLinks` | src/trees/FamilyTree.java:28-31 | linking a child that has no parent, or already has this parent, keeps every child list and parent link consistent |
| `Builder.LinkChildren` | src/trees/FamilyTree.java:113-126 | the loop never drops a node; a conflict reports the child's non-empty text |
| `Builder.LinkedIffAdoptable` | src/trees/FamilyTree.java:113-126 | the loop completes exactly when every non-blank child is new, has no parent, or already has this parent |
| `Builder.LinkedShape` | src/trees/FamilyTree.java:113-126 | after a completed loop: only the named children are new keys; each has the line's parent as its parent; the parent's list grows by the children in token order; a child that existed keeps its own child list and a new one has none; every other node is unchanged |
| `Builder.LinkedNewChildLists` | src/trees/FamilyTree.java:117-125 | every node the loop creates still has the empty child list it was created with (line 119) |
| `Builder.LinkKeepsWellLinked` | src/trees/FamilyTree.java:113-126 | the loop keeps the registry's links consistent, whether it completes or stops at a conflict |
| `Builder.ConflictReport` | src/trees/FamilyTree.java:122-124 | a conflict names a non-empty child text whose node already existed with the reported parent, and that parent differs from the line's parent |
| `Builder.ConflictKeepsEarlierLinks` | src/trees/FamilyTree.java:113-125 | the conflict is raised at some token `j`, reports that token trimmed, and leaves exactly what processing tokens before `j` builds (no rollback) |
| `Builder.TrailingBlankTokens` | src/trees/FamilyTree.java:113-115 | blank tokens at the end of a line change nothing, so keeping the trailing empty pieces that Java's `split` drops gives the same result |
| `Builder.RecomputeRoot` | src/trees/FamilyTree.java:128-134 | the root becomes the first parentless node in the scan order; the old root is kept when the scan finds none |
| `Builder.RegisterParent` | src/trees/FamilyTree.java:104-111 | the registry is the old one with the parent fetched or created; a new parent becomes the root when there was no root; otherwise the root is unchanged; a valid tree stays valid |
| `Builder.AddLine` | src/trees/FamilyTree.java:93-135 | a skipped line changes nothing; a malformed one fails with its syntax error and changes nothing; no line removes a node; a well-formed line registers its parent |
| `Builder.LineKeepsValid` | src/trees/FamilyTree.java:93-135 | every line, accepted or failed, keeps the links consistent and the root registered |
| `Builder.LineAcceptedIff` | src/trees/FamilyTree.java:113-126 | a well-formed line is accepted exactly when none of its children already has a parent other than the line's parent; otherwise it fails with a conflicting-parent error |
| `Builder.LineLinks` | src/trees/FamilyTree.java:104-126 | an accepted line registers its parent and children and nothing else, makes each child point to the parent, and appends the children to the parent's list in order; a child that existed keeps its own child list and a new one has none; every other node is unchanged |
| `Builder.RootAfterLine` | src/trees/FamilyTree.java:106-134 | after an accepted line, the root is a parentless node whenever one exists; otherwise it is the old root, or the line's parent when it was just created in an empty tree |
| `Builder.ReapplyLine` | src/trees/FamilyTree.java:113-126 | reading an accepted line again is accepted with the same keys and parent links, but the parent's child list gains the children a second time |
| `Builder.SelfChildMakesCycle` | src/trees/FamilyTree.java:122-125 | an accepted line that lists its own parent as a child leaves that node with an ancestor walk that never ends |
| `Builder.AddLines` | src/trees/FamilyTree.java:88 | reading lines in order, stopping at the first failure, never drops a node and keeps the registry valid |
| `Builder.SkippedLinesIrrelevant` | src/trees/FamilyTree.java:94 | removing the empty and `#` lines from the input does not change the outcome |
| `Ancestry.AncestorsOf` | src/trees/FamilyTree.java:137-143 | the chain starts at the node, each element's parent is the next, the last has no parent, no node repeats, and the length is at most the registry size |
| `Ancestry.TerminatesIffChain` | src/trees/FamilyTree.java:139 | whenever a finite chain up the parent links exists, the bounded walk ends and returns that chain |
| `Ancestry.WalkEndsWithinRegistrySize` | src/trees/FamilyTree.java:139-141 | a walk that ends with any number of parent steps ends within the registry size with the same chain, so `Terminates` holds exactly when the Java loop ends |
| `Ancestry.SelfParentNeverEnds` | src/trees/FamilyTree.java:139 | from a node that is its own parent, no walk of any length ends |
| `Ancestry.CollectAncestors` | src/trees/FamilyTree.java:42-48 | the proper ancestors are the inclusive chain without the node itself |
| `Ancestry.Walk` | src/trees/FamilyTree.java:139-141 | a walk that finishes within its budget of parent steps returns a chain that starts at the node, steps from each element to its parent, and ends at a parentless node |
| `Ancestry.DownPathClimbs` | src/trees/FamilyTree.java:137-143 | when the walk up from a node ends, the walk up from any node a path down the child lists reaches also ends; it is one element longer per step and ends with the start node's chain |
| `Ancestry.ChainDescends` | src/trees/FamilyTree.java:137-143 | from every element of a node's ancestor chain, a path down the child lists leads to the node, one step per generation |
| `Search.FindInSubtree` | src/trees/FamilyTree.java:33-40 | a finished search that returns a node returns the target itself, and the target is registered |
| `Search.FindAmongChildren` | src/trees/FamilyTree.java:35-39 | a hit among the children is the target; after the last child the loop reports no hit |
| `Search.FindFuelMonotone` | src/trees/FamilyTree.java:33-40 | a finished search gives the same answer with any larger budget |
| `Search.FoundPath` | src/trees/FamilyTree.java:33-40 | a hit is reached from the start node by a path down the child lists that is no longer than the budget allows |
| `Search.MissedNoPath` | src/trees/FamilyTree.java:33-40 | a finished search without a hit is right: no path down the child lists from the start node reaches the target |
| `Search.FindEndsWithinRegistrySize` | src/trees/FamilyTree.java:33-40 | a search that finishes with some budget finishes within `|nodes|` generations with the same answer, so when that budget runs out the recursion never returns |
| `Search.FindIffDescendant` | src/trees/FamilyTree.java:33-40 | when the walk up from the start node ends, the search finishes, and it finds the target exactly when the start node is on the target's ancestor chain, itself included |
| `Query.FirstShared` | src/trees/FamilyTree.java:157-160 | the result is the position of the first element of the first list that occurs in the second; none exactly when no element is shared |
| `Query.Mrca` | src/trees/FamilyTree.java:148-161 | an unknown first name, then an unknown second name, fails with that name; otherwise the answer is a common inclusive ancestor, or none only when the chains are disjoint |
| `Query.MrcaIsDeepest` | src/trees/FamilyTree.java:145-161 | whenever some common ancestor exists, the answer exists and every common ancestor is an inclusive ancestor of it |
| `Query.MrcaSelf` | src/trees/FamilyTree.java:148-161 | a node is its own MRCA |
| `Query.MrcaOfAncestor` | src/trees/FamilyTree.java:148-161 | when one node is an inclusive ancestor of the other, it is the answer in either argument order |
| `Query.MrcaSymmetric` | src/trees/FamilyTree.java:148-161 | swapping the two names does not change the answer |
| `Query.MrcaExistsWithSingleRoot` | src/trees/FamilyTree.java:148-161 | with a single parentless node, every query on registered names with ending walks returns a node |
| `Render.RenderNode` | src/trees/FamilyTree.java:54-61 | the text printed for a node is the listing of its outline: one line per node of the subtree in preorder, each the indent plus two spaces per generation, then the name and a newline; it runs out of budget exactly when the outline does |
| `Render.RenderChildren` | src/trees/FamilyTree.java:57-59 | the loop prints the outlines of the children in list order, each two spaces deeper than the parent's indent |
| `Render.Show` | src/trees/FamilyTree.java:163-166 | the header followed by `null` when there is no root; otherwise the header followed by the root's listing, which finishes exactly when the root's outline finishes within `|nodes|` generations, and when it does not, no budget finishes it |
| `Render.OutlineFuelMonotone` | src/trees/FamilyTree.java:54-61 | a finished outline is the same with any larger budget |
| `Render.OutlineLinePath` | src/trees/FamilyTree.java:54-61 | every printed line names a node that a path down the child lists reaches from the start node in exactly the printed number of generations |
| `Render.OutlineHasPath` | src/trees/FamilyTree.java:54-61 | the converse: every node a path down the child lists reaches from the start node is printed, at the number of generations the path takes |
| `Render.RenderDivergesOnCycle` | src/trees/FamilyTree.java:58-59 | when some path down the child lists from the start node visits a node twice, the rendering runs out of every budget |
| `Render.RenderEndsUnlessCycle` | src/trees/FamilyTree.java:54-61 | the rendering runs out of a budget of `|nodes|` generations only when some path down the child lists from the start node visits a node twice |
| `Render.OutlineEndsWithinRegistrySize` | src/trees/FamilyTree.java:54-61 | an outline that finishes with some budget finishes within `|nodes|` generations, with the same lines |
| `Render.OutlineNeverEnds` | src/trees/FamilyTree.java:54-61 | an outline that runs out of `|nodes|` generations runs out of every budget |
| `Render.OutlineFinishesWhenWalkEnds` | src/trees/FamilyTree.java:54-61 | when the walk up from the start node ends, its outline finishes within `|nodes|` generations |
| `Render.OutlineBelow` | src/trees/FamilyTree.java:54-61 | when the walk up from the start node ends, every printed line names a descendant of it, at exactly the printed number of generations below it |
| `Scenario.BuiltFromLines` | src/trees/FamilyTree.java:88-135 | the lines `R:X`, `A:B`, `B:A`, `B:R` are all accepted, leaving `R` as the root, `B` as `R`'s parent, and `A` and `B` as each other's parent |
| `Scenario.RootWalkNeverEnds` | src/trees/FamilyTree.java:137-143 | in that tree the walk up from the root never ends |
| `Scenario.RootShows` | src/trees/FamilyTree.java:163-166 | yet the tree prints as the header, then `R`, then `X` indented by two spaces |
| `Scenario.SearchFromA` | src/trees/FamilyTree.java:33-40 | and a search from `A` for `B` finishes and finds `B` |
| `Scenario.RenderFromACycles` | src/trees/FamilyTree.java:54-61 | while rendering `A` runs out of every budget, because its child lists lead back to `A` |

## Left out

- File selection and reading. The dialog, the `data` directory lookup, `System.exit` and `BufferedReader` (lines 74-90) are I/O. The model starts from the sequence of lines (`Builder.AddLines`).
- `main` (lines 168-179). It is console output around one fixed query.
- The default constructor's unchecked cast (lines 69-72). It is the identity converter when `T` is `String`, which is one choice of `conv`. A converter that throws, or returns `null`, is not modelled: `conv` is total.
- `HashMap` iteration order. It is the parameter `order`. `Builder.RootAfterLine` assumes the order lists every registered name, as `values()` does.
- `TreeException` is not part of this model. Its message text is not modelled either: the errors carry the data the messages are built from (the line; the child text and the existing parent's name; the missing name).
- Java's `split` drops trailing empty pieces, but `Text.Split` keeps them. `Builder.TrailingBlankTokens` shows that blank trailing tokens change nothing, so the outcome is the same.
- Java strings are UTF-16 code units; the model uses Dafny `char`. `trim` is modelled as removing characters at most U+0020, as Java does.
- `show`: the `toString` of a name is a parameter, not modelled.
- `Query.Mrca`: requires both ancestor walks to end once both names are found. On a parent cycle the Java loop in `ancestorsOf` never returns, so there is no result to model.
- The stack overflow. When a path down the child lists revisits a node, Java's `getNodeWithName` and `toStringWithIndent` recurse until the stack overflows. The model returns `OutOfFuel` at a budget of `|nodes|` generations instead, and proves that no larger budget finishes (`Search.FindEndsWithinRegistrySize`, `Render.OutlineNeverEnds`). The `StackOverflowError` itself is not modelled.
- `Search.FindIffDescendant` and `Render.OutlineBelow`: the descendant characterisation in terms of ancestor chains is stated only for a start node whose walk up ends, because an ancestor chain exists only then. Without that, `Search.FoundPath`, `Search.MissedNoPath`, `Render.OutlineLinePath` and `Render.OutlineHasPath` state the same facts in terms of paths down the child lists.
- `getNodeWithName` and `collectAncestorsToList` are not called by `FamilyTree` itself. They are modelled as the operations they are (`Search`, `Ancestry.CollectAncestors`).
