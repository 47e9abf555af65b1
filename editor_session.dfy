/**
 * The editor session (`useTalentTreeEditor`, src/hooks/useTalentTreeEditor.ts):
 * two state cells, the tree being edited and the editor's UI state, which each
 * command overwrites. Commands run one at a time, so the tree a callback reads
 * is the tree it then updates.
 *
 * Node and connection ids come in as parameters, taken to be fresh. The pixel-to-cell
 * conversion and the occupancy test are not part of this model; the session is
 * given them as functions when it is created.
 */
module EditorSession {
  import opened Wrappers
  import opened TalentTypes
  import opened EditorUtils
  import opened EditorValidation

  /** The editor state the hook starts with: edit mode, nothing selected, nothing pending. */
  const INITIAL_EDITOR_STATE := EditorState(Edit, None, false, None, None, false, false, None)

  /** `n.gridX === cell.x && n.gridY === cell.y`: never true of a node without `gridX`/`gridY`. */
  predicate AtCell(n: TalentNode, cell: GridPosition)
  {
    n.gridX == Some(cell.x) && n.gridY == Some(cell.y)
  }

  /** `nodes.find(n => n.gridX === cell.x && n.gridY === cell.y)`: the first node recorded at the cell. */
  function NodeAtCell(nodes: seq<TalentNode>, cell: GridPosition): (r: Option<TalentNode>)
    ensures r.Some? ==> r.value in nodes && AtCell(r.value, cell)
    ensures r.None? <==> forall n :: n in nodes ==> !AtCell(n, cell)
    ensures r.Some? ==> exists i :: 0 <= i < |nodes| && nodes[i] == r.value && forall j :: 0 <= j < i ==> !AtCell(nodes[j], cell)
  {
    if nodes == [] then None
    else if AtCell(nodes[0], cell) then Some(nodes[0])
    else
      var r := NodeAtCell(nodes[1..], cell);
      if r.Some? then
        var i :| 0 <= i < |nodes[1..]| && nodes[1..][i] == r.value && forall j :: 0 <= j < i ==> !AtCell(nodes[1..][j], cell);
        assert nodes[i + 1] == r.value;
        r
      else r
  }

  /** `value && value !== other` on an optional string: set, non-empty and different. */
  predicate TruthyAndDifferent(value: Option<string>, other: string)
  {
    value.Some? && value.value != "" && value.value != other
  }

  class TalentTreeEditor {
    var tree: TalentTree
    var editorState: EditorState
    /** The canvas' pixel-to-cell conversion. */
    const pixelToGrid: Position -> GridPosition
    /** The canvas' test whether a cell of a tree already holds a node. */
    const isGridPositionOccupied: (TalentTree, GridPosition) -> bool

    /**
     * A connection is being drawn exactly when it has a starting node: every method
     * sets or clears the two fields together, and a click in edit mode relies on it
     * to leave no half-drawn connection behind.
     */
    ghost predicate Valid()
      reads this
    {
      editorState.isConnecting <==> editorState.connectionStart.Some?
    }

    /** The hook's initial state: the given tree, or a fresh empty one, in edit mode. */
    constructor(initialTree: Option<TalentTree>, freshTreeId: string,
                pixelToGrid: Position -> GridPosition, isGridPositionOccupied: (TalentTree, GridPosition) -> bool)
      ensures Valid()
      ensures tree == if initialTree.Some? then initialTree.value
                      else CreateEmptyTree(TreeMetadata(None, None, None), freshTreeId)
      ensures editorState == INITIAL_EDITOR_STATE
      ensures this.pixelToGrid == pixelToGrid && this.isGridPositionOccupied == isGridPositionOccupied
    {
      tree := if initialTree.Some? then initialTree.value
              else CreateEmptyTree(TreeMetadata(None, None, None), freshTreeId);
      editorState := INITIAL_EDITOR_STATE;
      this.pixelToGrid := pixelToGrid;
      this.isGridPositionOccupied := isGridPositionOccupied;
    }

    // -------------------------------------------------------------------------
    // Tree operations

    /** `createNewTree`: an empty tree with the given name and description, nothing selected. */
    method CreateNewTree(name: Option<string>, description: Option<string>, freshTreeId: string)
      requires Valid()
      modifies this
      ensures Valid()
      ensures tree == CreateEmptyTree(TreeMetadata(None, name, description), freshTreeId)
      ensures tree.nodes == [] && tree.connections == [] && tree.totalPoints == DEFAULT_TOTAL_POINTS
      ensures editorState == old(editorState).(selectedNodeId := None)
    {
      tree := CreateEmptyTree(TreeMetadata(None, name, description), freshTreeId);
      editorState := editorState.(selectedNodeId := None);
    }

    // -------------------------------------------------------------------------
    // Node operations

    /**
     * `addNode`: nothing happens on an occupied cell; otherwise a node is created
     * in the cell, appended and selected, and its id returned.
     */
    method AddNode(position: Position, template: Option<NodeTemplate>, newId: string) returns (id: Option<string>)
      requires Valid()
      modifies this
      ensures Valid()
      ensures isGridPositionOccupied(old(tree), pixelToGrid(position)) ==>
        id.None? && tree == old(tree) && editorState == old(editorState)
      ensures !isGridPositionOccupied(old(tree), pixelToGrid(position)) ==>
        && id == Some(newId)
        && tree == AddNodeToTree(old(tree), CreateNode(pixelToGrid(position), template, newId))
        && editorState == old(editorState).(selectedNodeId := Some(newId))
      ensures id.Some? ==> tree.nodes[..|old(tree.nodes)|] == old(tree.nodes) && tree.nodes[|tree.nodes| - 1].id == newId
      ensures old(Lockstep(tree)) && (forall c :: c in old(tree.connections) ==> c.to != newId) ==> Lockstep(tree)
    {
      var gridPos := pixelToGrid(position);
      if isGridPositionOccupied(tree, gridPos) {
        return None;
      }
      var newNode := CreateNode(gridPos, template, newId);
      if Lockstep(tree) && forall c :: c in tree.connections ==> c.to != newId {
        AddNodeKeepsLockstep(tree, newNode);
      }
      tree := AddNodeToTree(tree, newNode);
      editorState := editorState.(selectedNodeId := Some(newNode.id));
      return Some(newNode.id);
    }

    /** `deleteNode`: the node and every reference to it go; the selection is cleared only if it was that node. */
    method DeleteNode(nodeId: string)
      requires Valid()
      modifies this
      ensures Valid()
      ensures tree == RemoveNodeFromTree(old(tree), nodeId)
      ensures forall n :: n in tree.nodes ==> n.id != nodeId
      ensures editorState == old(editorState).(
        selectedNodeId := if old(editorState.selectedNodeId) == Some(nodeId) then None else old(editorState.selectedNodeId))
      ensures editorState.selectedNodeId != Some(nodeId)
      ensures old(Lockstep(tree)) ==> Lockstep(tree)
    {
      if Lockstep(tree) {
        RemoveNodeKeepsLockstep(tree, nodeId);
      }
      tree := RemoveNodeFromTree(tree, nodeId);
      editorState := editorState.(
        selectedNodeId := if editorState.selectedNodeId == Some(nodeId) then None else editorState.selectedNodeId);
    }

    /** `updateNodeData`: the patch is applied to the nodes with the id; the editor state is kept. */
    method UpdateNodeData(nodeId: string, updates: NodePatch)
      requires Valid()
      modifies this
      ensures Valid()
      ensures tree == UpdateNode(old(tree), nodeId, updates)
      ensures editorState == old(editorState)
      ensures old(Lockstep(tree)) && updates.id.None? && updates.prerequisites.None? ==> Lockstep(tree)
    {
      if Lockstep(tree) && updates.id.None? && updates.prerequisites.None? {
        UpdateNodeKeepsLockstep(tree, nodeId, updates);
      }
      tree := UpdateNode(tree, nodeId, updates);
    }

    /**
     * `moveNodePosition`: refused when the first node recorded at the target cell
     * is another node; moving onto the node's own cell is allowed. The guard reads
     * `gridX`/`gridY`, which the editor never writes, so among nodes the editor
     * created it never refuses.
     */
    method MoveNodePosition(nodeId: string, newPosition: Position)
      requires Valid()
      modifies this
      ensures Valid()
      ensures var blocker := NodeAtCell(old(tree).nodes, pixelToGrid(newPosition));
        tree == if blocker.Some? && blocker.value.id != nodeId then old(tree)
                else MoveNode(old(tree), nodeId, pixelToGrid(newPosition))
      ensures (exists n :: n in old(tree).nodes && AtCell(n, pixelToGrid(newPosition))) &&
              (forall n :: n in old(tree).nodes && AtCell(n, pixelToGrid(newPosition)) ==> n.id != nodeId)
              ==> tree == old(tree)
      ensures (forall n :: n in old(tree).nodes && AtCell(n, pixelToGrid(newPosition)) ==> n.id == nodeId)
              ==> tree == MoveNode(old(tree), nodeId, pixelToGrid(newPosition))
      ensures (forall n :: n in old(tree).nodes ==> n.gridX.None?) ==> tree == MoveNode(old(tree), nodeId, pixelToGrid(newPosition))
      ensures editorState == old(editorState)
      ensures old(Lockstep(tree)) ==> Lockstep(tree)
    {
      var gridPos := pixelToGrid(newPosition);
      var existingNode := NodeAtCell(tree.nodes, gridPos);
      if existingNode.Some? && existingNode.value.id != nodeId {
        return;
      }
      if Lockstep(tree) {
        MoveNodeKeepsLockstep(tree, nodeId, gridPos);
      }
      tree := MoveNode(tree, nodeId, gridPos);
    }

    // -------------------------------------------------------------------------
    // Connection operations

    /** `startConnection`: a connection is now being drawn from the node. */
    method StartConnection(nodeId: string)
      requires Valid()
      modifies this
      ensures Valid()
      ensures tree == old(tree)
      ensures editorState == old(editorState).(isConnecting := true, connectionStart := Some(nodeId))
    {
      editorState := editorState.(isConnecting := true, connectionStart := Some(nodeId));
    }

    /**
     * `completeConnection`: the connection is added only when a non-empty starting
     * node is set and differs from the target, so the session never draws a node
     * to itself; in every case the drawing ends.
     */
    method CompleteConnection(toNodeId: string, connectionId: string)
      requires Valid()
      modifies this
      ensures Valid()
      ensures tree == if TruthyAndDifferent(old(editorState.connectionStart), toNodeId)
                      then AddConnectionToTree(old(tree), old(editorState.connectionStart).value, toNodeId, connectionId)
                      else old(tree)
      ensures forall c :: c in tree.connections ==> c in old(tree.connections) || c.from != c.to
      ensures editorState == old(editorState).(isConnecting := false, connectionStart := None)
      ensures old(Lockstep(tree)) && (forall c :: c in old(tree.connections) ==> c.id != connectionId) ==> Lockstep(tree)
    {
      if TruthyAndDifferent(editorState.connectionStart, toNodeId) {
        if Lockstep(tree) && forall c :: c in tree.connections ==> c.id != connectionId {
          AddConnectionKeepsLockstep(tree, editorState.connectionStart.value, toNodeId, connectionId);
        }
        tree := AddConnectionToTree(tree, editorState.connectionStart.value, toNodeId, connectionId);
      }
      editorState := editorState.(isConnecting := false, connectionStart := None);
    }

    /** `cancelConnection`: the drawing ends and the tree is kept. */
    method CancelConnection()
      requires Valid()
      modifies this
      ensures Valid()
      ensures tree == old(tree)
      ensures editorState == old(editorState).(isConnecting := false, connectionStart := None)
    {
      editorState := editorState.(isConnecting := false, connectionStart := None);
    }

    /** `deleteConnection`: the connection and the prerequisite it stood for go. */
    method DeleteConnection(connectionId: string)
      requires Valid()
      modifies this
      ensures Valid()
      ensures tree == RemoveConnection(old(tree), connectionId)
      ensures forall c :: c in tree.connections ==> c.id != connectionId
      ensures editorState == old(editorState)
      ensures old(Lockstep(tree)) ==> Lockstep(tree)
    {
      if Lockstep(tree) {
        RemoveConnectionKeepsLockstep(tree, connectionId);
      }
      tree := RemoveConnection(tree, connectionId);
    }

    // -------------------------------------------------------------------------
    // Editor state

    method SetMode(mode: EditorMode)
      requires Valid()
      modifies this
      ensures Valid()
      ensures tree == old(tree) && editorState == old(editorState).(mode := mode)
    {
      editorState := editorState.(mode := mode);
    }

    method SelectNode(nodeId: Option<string>)
      requires Valid()
      modifies this
      ensures Valid()
      ensures tree == old(tree) && editorState == old(editorState).(selectedNodeId := nodeId)
    {
      editorState := editorState.(selectedNodeId := nodeId);
    }

    method ShowNodeEditor(show: bool)
      requires Valid()
      modifies this
      ensures Valid()
      ensures tree == old(tree) && editorState == old(editorState).(showNodeEditor := show)
    {
      editorState := editorState.(showNodeEditor := show);
    }

    method ShowTreeEditor(show: bool)
      requires Valid()
      modifies this
      ensures Valid()
      ensures tree == old(tree) && editorState == old(editorState).(showTreeEditor := show)
    {
      editorState := editorState.(showTreeEditor := show);
    }

    method StartDrag(nodeId: string)
      requires Valid()
      modifies this
      ensures Valid()
      ensures tree == old(tree) && editorState == old(editorState).(draggedNode := Some(nodeId))
    {
      editorState := editorState.(draggedNode := Some(nodeId));
    }

    method EndDrag()
      requires Valid()
      modifies this
      ensures Valid()
      ensures tree == old(tree) && editorState == old(editorState).(draggedNode := None)
    {
      editorState := editorState.(draggedNode := None);
    }

    // -------------------------------------------------------------------------
    // Validation and import

    /** `getValidationErrors`: the current tree's orphan-connection errors, then at most one cycle error. */
    method GetValidationErrors() returns (errors: seq<string>)
      ensures |errors| == |OrphanErrors(tree.connections, tree.nodes)| + (if HasCycle(tree.nodes) then 1 else 0)
      ensures errors[..|OrphanErrors(tree.connections, tree.nodes)|] == OrphanErrors(tree.connections, tree.nodes)
      ensures HasCycle(tree.nodes) ==>
        exists i :: 0 <= i < |tree.nodes| && errors[|errors| - 1] == CIRCULAR_DEPENDENCY_PREFIX + tree.nodes[i].name
                    && CycleReachableFrom(tree.nodes, tree.nodes[i].id)
                    && forall j :: 0 <= j < i ==> !CycleReachableFrom(tree.nodes, tree.nodes[j].id)
    {
      errors := ValidateTree(tree);
    }

    /**
     * `importTree`: on a failed import the session is kept and false returned; on
     * success the imported tree replaces the current one and the selection is cleared.
     */
    method ImportTree(parsed: Option<ParsedTree>) returns (ok: bool)
      requires Valid()
      modifies this
      ensures Valid()
      ensures ok <==> ImportTreeFromJSON(parsed).Some?
      ensures !ok ==> tree == old(tree) && editorState == old(editorState)
      ensures ok ==> tree == parsed.value.tree && editorState == old(editorState).(selectedNodeId := None)
    {
      var importedTree := ImportTreeFromJSON(parsed);
      if importedTree.None? {
        return false;
      }
      tree := importedTree.value;
      editorState := editorState.(selectedNodeId := None);
      return true;
    }

    // -------------------------------------------------------------------------
    // Canvas operations

    /** `handleCanvasClick`: in edit mode, ends a connection being drawn, or else clears the selection. */
    method HandleCanvasClick(position: Position)
      requires Valid()
      modifies this
      ensures Valid()
      ensures tree == old(tree)
      ensures editorState ==
        if old(editorState.mode) != Edit then old(editorState)
        else if old(editorState.isConnecting) then old(editorState).(isConnecting := false, connectionStart := None)
        else old(editorState).(selectedNodeId := None)
      ensures old(editorState.mode) == Edit ==> !editorState.isConnecting && editorState.connectionStart.None?
    {
      if editorState.mode == Edit {
        if editorState.isConnecting {
          CancelConnection();
        } else {
          SelectNode(None);
        }
      }
    }

    /** `handleCanvasDoubleClick`: in edit mode, adds a default node at the position. */
    method HandleCanvasDoubleClick(position: Position, newId: string)
      requires Valid()
      modifies this
      ensures Valid()
      ensures old(editorState.mode) == Edit && !isGridPositionOccupied(old(tree), pixelToGrid(position)) ==>
        && tree == AddNodeToTree(old(tree), CreateNode(pixelToGrid(position), None, newId))
        && editorState == old(editorState).(selectedNodeId := Some(newId))
      ensures old(editorState.mode) != Edit || isGridPositionOccupied(old(tree), pixelToGrid(position)) ==>
        tree == old(tree) && editorState == old(editorState)
    {
      if editorState.mode == Edit {
        var _ := AddNode(position, None, newId);
      }
    }

    /**
     * `startNodeCreation`: in edit mode and on a free cell, remembers the cell,
     * opens the node editor and clears the selection; the tree is not touched.
     */
    method StartNodeCreation(position: Position)
      requires Valid()
      modifies this
      ensures Valid()
      ensures tree == old(tree)
      ensures editorState ==
        if old(editorState.mode) == Edit && !isGridPositionOccupied(old(tree), pixelToGrid(position))
        then old(editorState).(pendingNodePosition := Some(pixelToGrid(position)), showNodeEditor := true,
                               selectedNodeId := None)
        else old(editorState)
    {
      if editorState.mode == Edit {
        var gridPos := pixelToGrid(position);
        if isGridPositionOccupied(tree, gridPos) {
          return;
        }
        editorState := editorState.(pendingNodePosition := Some(gridPos), showNodeEditor := true, selectedNodeId := None);
      }
    }

    /**
     * `createPendingNode`: with a remembered cell, creates the node there from the
     * editor's data, selects it, forgets the cell and closes the editor; without
     * one, nothing happens.
     */
    method CreatePendingNode(nodeData: NodeTemplate, newId: string) returns (id: Option<string>)
      requires Valid()
      modifies this
      ensures Valid()
      ensures old(editorState.pendingNodePosition).None? ==>
        id.None? && tree == old(tree) && editorState == old(editorState)
      ensures old(editorState.pendingNodePosition).Some? ==>
        && id == Some(newId)
        && tree == AddNodeToTree(old(tree), CreateNode(old(editorState.pendingNodePosition).value, Some(nodeData), newId))
        && editorState == old(editorState).(pendingNodePosition := None, selectedNodeId := Some(newId),
                                            showNodeEditor := false)
      ensures old(Lockstep(tree)) && (forall c :: c in old(tree.connections) ==> c.to != newId) ==> Lockstep(tree)
    {
      if editorState.pendingNodePosition.None? {
        return None;
      }
      var newNode := CreateNode(editorState.pendingNodePosition.value, Some(nodeData), newId);
      if Lockstep(tree) && forall c :: c in tree.connections ==> c.to != newId {
        AddNodeKeepsLockstep(tree, newNode);
      }
      tree := AddNodeToTree(tree, newNode);
      editorState := editorState.(pendingNodePosition := None, selectedNodeId := Some(newNode.id), showNodeEditor := false);
      return Some(newNode.id);
    }

    /** `cancelNodeCreation`: forgets the remembered cell and closes the node editor. */
    method CancelNodeCreation()
      requires Valid()
      modifies this
      ensures Valid()
      ensures tree == old(tree)
      ensures editorState == old(editorState).(pendingNodePosition := None, showNodeEditor := false)
    {
      editorState := editorState.(pendingNodePosition := None, showNodeEditor := false);
    }
  }
}
