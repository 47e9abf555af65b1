# Custom talent trees — a verified model of the tree engines and the editor session

This project models the core of a talent-tree editor and simulator. A talent tree
is a set of nodes on a grid; nodes list other nodes as prerequisites and are
joined by connections. It has three parts:

- **The allocation engine** (`src/utils/tree-utils.ts`, module `TreeUtils`). In
  simulate mode a player spends a point budget on nodes. The engine computes each
  node's state (locked, available, unlocked, selected, maxed) and guards
  allocating and refunding points. Rank maps, counters, import and reset are
  modelled as pure functions. The model proves:
  - the budget is conserved: available + spent stays the budget, and spent is
    the sum of the ranks, over any sequence of clicks;
  - no stored rank is zero;
  - the rule that blocks refunding a node's last rank while a dependent holds a
    rank;
  - a worked scenario (`TreeUtils.AllocationScenario`): two nodes and a budget
    of five.
- **The editor engine** (`src/utils/editor-utils.ts`, module `EditorUtils`).
  Creating, adding, removing, updating and moving nodes, and adding and removing
  connections, are all pure tree transformations. The model proves:
  - what each edit changes and what it keeps;
  - round trips: removing what was just added gives the tree back;
  - idempotence;
  - that the edits keep the connection list and the nodes' prerequisite lists
    in lockstep (the lockstep invariant). Removing a node, moving a node and
    removing a connection always keep it. Three edits keep it only under a
    condition:
    - adding a node, when the node has no prerequisites and no connection
      targets its id;
    - updating a node, when the patch sets neither `id` nor `prerequisites`;
    - adding a connection, when its id is fresh.

  `validateTree` (module `EditorValidation`) is imperative: an error list, a
  loop with `break`, and a recursive depth-first search over mutable `visited`
  and `recursionStack` sets. It is modelled as methods proved against a
  definition of cycles in the prerequisite relation: a cycle error is reported
  exactly when such a cycle exists. The error names the first node of the list
  from which a cycle can be reached.
- **The editor session** (`src/hooks/useTalentTreeEditor.ts`, module
  `EditorSession`). It is a class with the hook's two state cells, `tree` and
  `editorState`, and one method per callback. Each method's contract states the
  whole new state. The contracts show that:
  - connecting a node to itself is refused;
  - the session's edits keep the lockstep invariant, under the same conditions
    as the engine's:
    - deleting a node, moving a node and deleting a connection keep it
      unconditionally;
    - adding a node (`AddNode`, `CreatePendingNode`) keeps it when no
      connection already targets the new id;
    - completing a connection keeps it when the connection id is fresh;
    - updating a node keeps it when the patch sets neither `id` nor
      `prerequisites`.

    `CreateNewTree` installs the empty tree, which is in lockstep
    (`EditorUtils.EmptyTreeLockstep`). `ImportTree` installs whatever was
    parsed, and its contract states nothing about the invariant.

JavaScript semantics are written out where they matter:

- `undefined` is `None`.
- `x || default` treats `""` and `0` as missing.
- `undefined <= t` is false.
- `find` returns the first match.
- `Object` keys are distinct.

Numbers are unbounded integers.

Some behaviours of the code are easy to miss. The model keeps each of them:

- `addConnectionToTree` does not reject ids without a node or same-row pairs.
  `validateTree` has no same-row check. Neither is modelled.
- Editor-created nodes get `x`/`y`/`tier`, never `gridX`/`gridY`. The grid guard
  of `moveNodePosition` reads `gridX`/`gridY`, so it never refuses a move among
  such nodes. The allocation engine gives such a node a tier spend of 0.
  - `EditorUtils.MoveNode` states the first fact and
    `EditorSession.TalentTreeEditor.MoveNodePosition` the second.
- `canAllocatePoint` asks for the state AVAILABLE, and a node with a rank is
  never AVAILABLE. So no node ever gets a second rank, whatever its `maxRanks`.
  `TreeUtils.ReplayFromResetAtMostOneRank` proves this.
- The circular-dependency message says "involving node", but it names the
  first node of the list from which the search reaches a cycle. That node need
  not lie on the cycle: with X needing Y and Y needing itself, X is named
  (`EditorValidation.ReportedNodeNeedNotBeOnCycle`).
- The default icon is the literal as the source file spells it: the three
  characters U+201A U+2260 U+00EA. These are the UTF-8 bytes of the star U+2B50
  read back as Mac Roman.

## Model

| member | source | states |
|---|---|---|
| TalentTypes.FindNode | src/utils/tree-utils.ts:54 | the result is in the list with that id, and there is none exactly when no node has it |
| TalentTypes.FindNodeFirst | src/utils/tree-utils.ts:54 | `find` returns the first match: every node before the one found has another id |
| TreeUtils.TierSpentPoints | src/utils/tree-utils.ts:39-47 | the rank sum over nodes whose row is at most the tier is non-negative for non-negative ranks, and 0 when no node is in the tier (nodes without a row count in none) |
| TreeUtils.TierSpentPointsMonotone | src/utils/tree-utils.ts:39-47 | raising the tier bound never lowers the tier spend |
| TreeUtils.PrerequisitesMet | src/utils/tree-utils.ts:19-23 | met exactly when every prerequisite is a key of the selection with a positive rank and the id of some node of the tree; always met without prerequisites |
| TreeUtils.TierSpendAbove | src/utils/tree-utils.ts:26 | the spend of the rows above the node: 0 for a node without `gridY` (the `NaN` bound), never negative for non-negative ranks |
| TreeUtils.CalculateTalentState | src/utils/tree-utils.ts:3-37 | the five states partition the cases: MAXED iff ranks ≥ maxRanks; SELECTED iff 0 < ranks < maxRanks; otherwise AVAILABLE / UNLOCKED / LOCKED by prerequisites met, tier spend above the row ≥ requiredPoints, and points left |
| TreeUtils.CanAllocatePoint | src/utils/tree-utils.ts:49-62 | allowed iff the node exists, holds no rank, is below maxRanks, its prerequisites exist and hold ranks, the tier requirement holds and a point is available |
| TreeUtils.AllocatePoint | src/utils/tree-utils.ts:88-106 | refused means unchanged; allowed means one more rank on the node, one point moved from available to spent, the other entries untouched; the total and non-negative availability are kept; the only change possible is 0 → 1 |
| TreeUtils.SecondAllocationRefused | src/utils/tree-utils.ts:49-62 | right after a point is allocated to a node, a second allocation to it is refused |
| TreeUtils.DependentBlocks | src/utils/tree-utils.ts:78-83 | the early-exit loop blocks iff the node is at its last rank and some dependent holds a rank |
| TreeUtils.CanDeallocatePoint | src/utils/tree-utils.ts:64-86 | allowed only for an existing node with a rank; for such a node refused iff it holds exactly 1 rank and a node listing it as a prerequisite holds a rank |
| TreeUtils.MultiRankAlwaysDeallocatable | src/utils/tree-utils.ts:64-86 | a node with two or more ranks can always give one back |
| TreeUtils.DeallocatePoint | src/utils/tree-utils.ts:108-130 | refused means unchanged; allowed means the rank becomes max(0, rank − 1) with a 0 deleted rather than stored, one point moved from spent to available, other entries untouched, the total kept |
| TreeUtils.AllocatePreservesValid | src/utils/tree-utils.ts:88-106 | allocation keeps a valid state (positive ranks, available ≥ 0, available + spent = budget, spent = rank sum) valid |
| TreeUtils.DeallocatePreservesValid | src/utils/tree-utils.ts:108-130 | deallocation keeps a valid state valid for the same budget |
| TreeUtils.ResetTree | src/utils/tree-utils.ts:132-137 | a reset state is valid for the budget: nothing allocated, all of it available, no hovered node |
| TreeUtils.EntriesToMap | src/utils/tree-utils.ts:156 | the imported map has exactly the object's keys |
| TreeUtils.SumValues | src/utils/tree-utils.ts:152-153 | the `reduce` sum of the exported values: non-negative when every value is, and at least the number of entries when every value is positive |
| TreeUtils.SumValuesIsRankSum | src/utils/tree-utils.ts:152-153 | summing the object's values gives the sum of the imported map's ranks |
| TreeUtils.ImportTreeState | src/utils/tree-utils.ts:147-161 | the imported map (empty when missing), spent equal to the sum of its ranks, available + spent equal to the budget, no hovered node |
| TreeUtils.EntryValue | src/utils/tree-utils.ts:156 | every imported rank is the value of one of the object's entries |
| TreeUtils.ImportTreeStateValid | src/utils/tree-utils.ts:147-161 | an import of positive ranks within the budget is a valid state |
| TreeUtils.GetConnectionState | src/utils/tree-utils.ts:163-170 | active only if both ends are keys of the rank map, and iff so when stored ranks are positive |
| TreeUtils.HandleNodeClick | src/hooks/useTalentTree.ts:19-27 | a right-click is exactly `DeallocatePoint` and a left-click exactly `AllocatePoint` on the previous state, so available + spent is kept |
| TreeUtils.ReplayKeepsValid | src/hooks/useTalentTree.ts:19-27 | any sequence of clicks keeps a valid state valid for the same budget |
| TreeUtils.ReplayFromResetAtMostOneRank | src/utils/tree-utils.ts:3-62 | from a reset state no click sequence gives any node more than one rank |
| TreeUtils.AllocationScenario | src/utils/tree-utils.ts:3-130 | budget 5, N0 and N1 needing N0: N1 LOCKED, then N0 MAXED and N1 AVAILABLE, then 2 spent and 3 available; N0 cannot be refunded while N1 holds a rank, and can once N1 is refunded |
| EditorUtils.OrDefault | src/utils/editor-utils.ts:13-15 | a present non-empty value is returned as is; a missing or empty one gives the fallback, so the result is non-empty when the fallback is |
| EditorUtils.CreateEmptyTree | src/utils/editor-utils.ts:11-21 | no nodes or connections, 51 points, 0 spent; the given id, name and description when present and non-empty, else the generated id, "New Talent Tree" and the default description |
| EditorUtils.CalculateTierFromY | src/utils/editor-utils.ts:45-48 | the tier is at least 1, is 1 iff y < 150, and for y ≥ 50 is the 100-pixel band of y − 50 counted from 1 |
| EditorUtils.CreateNode | src/utils/editor-utils.ts:23-43 | the id given, no ranks, prerequisites or connections, x/y at the cell, the tier of its row, position 0, gridX/gridY undefined; with a template its non-empty name, description and icon, its maxRanks unless 0 (then 1) and its requiredPoints; without one the default name, description and icon, maxRanks 1 and requiredPoints 0 |
| EditorUtils.CountInTier | src/utils/editor-utils.ts:52 | the count of nodes in the tier is at most the number of nodes |
| EditorUtils.CountInTierIsFilterLength | src/utils/editor-utils.ts:52 | the count equals the length of `nodes.filter(n => n.tier === tier)` |
| EditorUtils.AddNodeToTree | src/utils/editor-utils.ts:50-59 | the existing nodes are kept and the node is appended with position = number of nodes already in its tier; nothing else changes |
| EditorUtils.AddNodeKeepsPositionsByArrival | src/utils/editor-utils.ts:50-59 | appending keeps every node's position equal to the number of earlier nodes in its tier |
| EditorUtils.CountInTierPrefixMonotone | src/utils/editor-utils.ts:52 | a longer prefix never counts fewer nodes of a tier |
| EditorUtils.PositionsDistinctInTier | src/utils/editor-utils.ts:50-59 | under arrival positions, two nodes of one tier have distinct positions, the later one larger |
| EditorUtils.ScrubNode | src/utils/editor-utils.ts:71-75 | a surviving node keeps its id and all other fields; its prerequisites and connections are subsequences of the old ones holding exactly the old entries other than the removed id |
| EditorUtils.RemoveNodeFromTree | src/utils/editor-utils.ts:61-82 | no node, connection end, prerequisite or connection entry names the id; every other node (scrubbed) and connection survives, in order; the surviving ids are the old ids without it; nothing else changes |
| EditorUtils.RemoveNodeKeepsConnectionCopies | src/utils/editor-utils.ts:66-68 | a connection not touching the removed node keeps every one of its copies, duplicates included |
| EditorUtils.RemoveUnmentionedNode | src/utils/editor-utils.ts:61-82 | removing an id nothing mentions leaves the tree unchanged |
| EditorUtils.RemoveNodeIdempotent | src/utils/editor-utils.ts:61-82 | removing a node twice is removing it once |
| EditorUtils.RemoveUndoesAddNode | src/utils/editor-utils.ts:50-82 | removing a node just added under an unmentioned id gives the tree back |
| EditorUtils.UpdateNode | src/utils/editor-utils.ts:84-91 | nodes with the id get the patch, all others are kept, an unknown id changes nothing, the rest of the tree is kept |
| EditorUtils.ApplyPatch | src/utils/editor-utils.ts:88 | `{ ...node, ...updates }`: every one of the fifteen fields the patch supplies replaces the node's value, every field it does not supply is kept; the empty patch changes nothing |
| EditorUtils.ApplyPatchIdempotent | src/utils/editor-utils.ts:88 | spreading the same updates twice is spreading them once |
| EditorUtils.MoveNode | src/utils/editor-utils.ts:93-100 | only x, y and tier (≥ 1, from the new row) of the nodes with the id change; gridX/gridY are never written |
| EditorUtils.MoveNodeIdempotent | src/utils/editor-utils.ts:93-100 | moving twice to the same place is moving once |
| EditorUtils.AddConnectionToTree | src/utils/editor-utils.ts:111-144 | an existing pair in either direction means unchanged; otherwise exactly one connection is appended and `from` appended to the `to` nodes' prerequisites, nothing else changed; afterwards the pair is joined |
| EditorUtils.AddConnectionIdempotent | src/utils/editor-utils.ts:111-144 | adding the same pair again, in either direction, changes nothing |
| EditorUtils.FindConnection | src/utils/editor-utils.ts:147 | the first connection with the id (every earlier one has another id), none exactly when no connection has it |
| EditorUtils.RemoveConnection | src/utils/editor-utils.ts:146-169 | an unknown id means unchanged; otherwise no connection with the id remains, the others stay in order, `from` is filtered out of the `to` nodes' prerequisites and other nodes are kept |
| EditorUtils.RemoveConnectionKeepsCopies | src/utils/editor-utils.ts:151 | a connection with another id keeps every one of its copies, duplicates included |
| EditorUtils.RemoveConnectionUndoesAdd | src/utils/editor-utils.ts:111-169 | removing a connection just added under a fresh id gives the tree back |
| EditorUtils.EmptyTreeLockstep | src/utils/editor-utils.ts:11-21 | an empty tree has connections and prerequisites in lockstep |
| EditorUtils.AddNodeKeepsLockstep | src/utils/editor-utils.ts:50-59 | adding a node with no prerequisites that no connection targets keeps the lockstep |
| EditorUtils.RemoveNodeKeepsLockstep | src/utils/editor-utils.ts:61-82 | removing a node keeps the lockstep |
| EditorUtils.UpdateNodeKeepsLockstep | src/utils/editor-utils.ts:84-91 | a patch that sets neither id nor prerequisites keeps the lockstep |
| EditorUtils.MoveNodeKeepsLockstep | src/utils/editor-utils.ts:93-100 | moving a node keeps the lockstep |
| EditorUtils.AddConnectionKeepsLockstep | src/utils/editor-utils.ts:111-144 | adding a connection under a fresh id keeps the lockstep |
| EditorUtils.RemoveConnectionKeepsLockstep | src/utils/editor-utils.ts:146-169 | removing a connection keeps the lockstep |
| EditorUtils.ImportTreeFromJSON | src/utils/editor-utils.ts:220-231 | succeeds iff the document parsed, `id` and `name` are non-empty and `nodes` is an array, and then gives the parsed tree as it is |
| EditorUtils.EmptyTreeImports | src/utils/editor-utils.ts:220-231 | a new tree with a non-empty generated id passes the import check unchanged |
| EditorUtils.EditsKeepImportable | src/utils/editor-utils.ts:50-169 | every edit keeps an importable tree importable |
| EditorValidation.OrphanErrors | src/utils/editor-utils.ts:174-182 | every error is "Invalid connection: id" for some connection with a missing endpoint, at most one per connection, and none iff no connection is orphaned |
| EditorValidation.PrereqsOfFirstNode | src/utils/editor-utils.ts:195-197 | the edges out of an id are the prerequisites of the first node with it, and there are none when no node has it |
| EditorValidation.OrphanErrorsMatchOrphans | src/utils/editor-utils.ts:174-182 | the i-th error names the i-th orphaned connection, as many errors as orphans |
| EditorValidation.OrphansAllReported | src/utils/editor-utils.ts:174-182 | every orphaned connection is reported |
| EditorValidation.CycleThroughExistingNodes | src/utils/editor-utils.ts:195-200 | every id on a prerequisite cycle names a node of the tree |
| EditorValidation.HasCycleFrom | src/utils/editor-utils.ts:188-204 | true only when a cycle exists and can be reached from the search root; false means no cycle can be reached from the id, which is finished with all it reaches, with the recursion stack restored and `visited` only grown |
| EditorValidation.PathDescends | src/utils/editor-utils.ts:188-204 | along a path from a finished id, finish positions strictly decrease, so no cycle runs through finished ids |
| EditorValidation.NoCycleWhenAllFinished | src/utils/editor-utils.ts:206-211 | once every node is finished without a cycle found, there is no cycle |
| EditorValidation.NoLassoFromFinished | src/utils/editor-utils.ts:189-190 | no cycle can be reached from an id the search has finished, so a visited id off the stack is rightly answered false |
| EditorValidation.StackHit | src/utils/editor-utils.ts:189 | an id met again on the recursion stack closes a cycle reachable from the search root |
| EditorValidation.FirstCycleNode | src/utils/editor-utils.ts:206-211 | a node is reported iff the prerequisite relation has a cycle; it is the first node of the list from which a cycle can be reached, and without a report no node reaches one |
| EditorValidation.ValidateTree | src/utils/editor-utils.ts:171-214 | the orphan errors in connection order, then one circular-dependency error iff there is a cycle, naming the first node of the list from which a cycle can be reached; at most connections + 1 errors |
| EditorValidation.CycleExamples | src/utils/editor-utils.ts:185-211 | a self-prerequisite and a mutual pair are cycles; a chain is not |
| EditorValidation.ReportedNodeNeedNotBeOnCycle | src/utils/editor-utils.ts:206-211 | with X needing Y and Y needing itself, a cycle is reachable from X but no cycle passes through X, so the node the message names may be off the cycle |
| EditorSession.NodeAtCell | src/hooks/useTalentTreeEditor.ts:77 | the first node whose gridX/gridY equal the cell; none iff no node is there |
| EditorSession.TalentTreeEditor.constructor | src/hooks/useTalentTreeEditor.ts:19-33 | the given tree or a new empty one, in edit mode with nothing selected, drawn, dragged or pending |
| EditorSession.TalentTreeEditor.CreateNewTree | src/hooks/useTalentTreeEditor.ts:36-40 | a new empty tree with the name and description, and the selection cleared |
| EditorSession.TalentTreeEditor.AddNode | src/hooks/useTalentTreeEditor.ts:47-59 | an occupied cell changes nothing and gives null; otherwise the created node is appended and selected and its id returned; the lockstep is kept |
| EditorSession.TalentTreeEditor.DeleteNode | src/hooks/useTalentTreeEditor.ts:61-67 | the node is removed, and the selection cleared only if it was that node; the lockstep is kept |
| EditorSession.TalentTreeEditor.UpdateNodeData | src/hooks/useTalentTreeEditor.ts:69-71 | the patch is applied, the editor state kept |
| EditorSession.TalentTreeEditor.MoveNodePosition | src/hooks/useTalentTreeEditor.ts:73-83 | refused iff the first node recorded at the cell is another node; allowed onto the node's own cell; never refused among nodes without gridX |
| EditorSession.TalentTreeEditor.StartConnection | src/hooks/useTalentTreeEditor.ts:86-92 | drawing starts from the node; the tree is kept |
| EditorSession.TalentTreeEditor.CompleteConnection | src/hooks/useTalentTreeEditor.ts:94-103 | the connection is added only from a non-empty start different from the target, so no new connection is a self-loop; drawing always ends |
| EditorSession.TalentTreeEditor.CancelConnection | src/hooks/useTalentTreeEditor.ts:105-111 | drawing ends; the tree is kept |
| EditorSession.TalentTreeEditor.DeleteConnection | src/hooks/useTalentTreeEditor.ts:113-115 | no connection with the id remains; the lockstep is kept |
| EditorSession.TalentTreeEditor.SetMode | src/hooks/useTalentTreeEditor.ts:118-120 | only the mode changes |
| EditorSession.TalentTreeEditor.SelectNode | src/hooks/useTalentTreeEditor.ts:122-124 | only the selection changes |
| EditorSession.TalentTreeEditor.ShowNodeEditor | src/hooks/useTalentTreeEditor.ts:126-128 | only the node-editor flag changes |
| EditorSession.TalentTreeEditor.ShowTreeEditor | src/hooks/useTalentTreeEditor.ts:130-132 | only the tree-editor flag changes |
| EditorSession.TalentTreeEditor.StartDrag | src/hooks/useTalentTreeEditor.ts:135-137 | only the dragged node changes |
| EditorSession.TalentTreeEditor.EndDrag | src/hooks/useTalentTreeEditor.ts:139-141 | only the dragged node is cleared |
| EditorSession.TalentTreeEditor.GetValidationErrors | src/hooks/useTalentTreeEditor.ts:144-146 | the current tree's orphan errors, then a cycle error iff there is a cycle, naming the first node from which a cycle can be reached |
| EditorSession.TalentTreeEditor.ImportTree | src/hooks/useTalentTreeEditor.ts:152-162 | false and nothing changed on a failed import; otherwise the imported tree replaces the current one and the selection is cleared |
| EditorSession.TalentTreeEditor.HandleCanvasClick | src/hooks/useTalentTreeEditor.ts:165-174 | in edit mode ends the drawing if one is going on, else clears the selection, and either way leaves no connection half-drawn; in simulate mode nothing |
| EditorSession.TalentTreeEditor.HandleCanvasDoubleClick | src/hooks/useTalentTreeEditor.ts:176-180 | in edit mode on a free cell adds and selects a default node; otherwise nothing |
| EditorSession.TalentTreeEditor.StartNodeCreation | src/hooks/useTalentTreeEditor.ts:183-199 | in edit mode on a free cell remembers the cell, opens the node editor and clears the selection; otherwise nothing; the tree is kept |
| EditorSession.TalentTreeEditor.CreatePendingNode | src/hooks/useTalentTreeEditor.ts:202-215 | with a remembered cell adds the node there, selects it, forgets the cell and closes the editor; without one returns null and changes nothing |
| EditorSession.TalentTreeEditor.CancelNodeCreation | src/hooks/useTalentTreeEditor.ts:218-224 | forgets the remembered cell and closes the node editor; the tree is kept |

## Left out

- The React components and the app shell are rendering, DOM events, drag pixel
  math, keyboard listeners and file download/upload.
- `importTree` logs a failed import with `console.error`
  (src/hooks/useTalentTreeEditor.ts:159). That is I/O. The model keeps only
  the returned `false` and the unchanged state.
- JSON text: `exportTreeAsJSON`, and `JSON.parse` inside `importTreeFromJSON`.
  Import is modelled on the already-parsed value, with `None` for text that does
  not parse.
  - The `as TalentTree` cast is unchecked in the source. The model's parsed value
    is already typed, so malformed nested data is not represented.
- Id and timestamp generation (`generateNodeId`, `generateConnectionId`,
  `Date.now`, `Math.random`): ids are parameters, taken to be fresh where a lemma
  says so. `createConnection` is folded into `AddConnectionToTree` with the id as
  a parameter.
- `pixelToGrid`, `isGridPositionOccupied` and `GRID_CONFIG` are not part of this
  model. The session receives the first two as functions at construction, so
  their clamping and occupancy rules are not modelled.
- `getNodeTemplates` is constant data.
- `updateTreeMetadata` is a plain record merge.
- `exportTreeState` holds a timestamp.
- The hover handler of `useTalentTree` only records which node the mouse is over.
- `isCtrlHeld` is declared in `EditorState` but never initialised or written by
  the session, so it is not a field of the model.
- JavaScript numbers are doubles. The model uses unbounded integers, so
  fractional ranks, `NaN` arithmetic and precision loss are not modelled. The
  one `NaN` case that matters is modelled: a node without `gridY` has tier
  spend 0.
- `TalentTreeState.hoveredNode` is carried through but never set by the model.
- EditorUtils.UpdateNode: a patch can only supply values. A `Partial` that sets a
  field to `undefined` explicitly is not modelled.
- TreeUtils.ImportTreeState: imported ranks are integers. A non-numeric value
  in the exported object (string concatenation in the sum) is not modelled.
- The validation cycle search treats the prerequisites of the first node with an
  id as that id's edges, as `find` does. With duplicate node ids, the later
  duplicates' prerequisites are ignored, by the source as well.
