/**
 * The talent tree's data model (src/types/talent.ts).
 *
 * A node carries every position field that some part of the program reads or
 * writes: `gridX`/`gridY` (the declared interface, read by the allocation engine
 * and by the editor hook's move guard) and `x`/`y`/`tier`/`position` (written by
 * `createNode` and `moveNode`). Each is optional: `None` is JavaScript's
 * `undefined`, which is what a node created by the editor has in `gridX`/`gridY`.
 */
module TalentTypes {
  import opened Wrappers

  datatype TalentNode = TalentNode(
    id: string,
    name: string,
    description: string,
    icon: string,
    maxRanks: int,
    currentRanks: int,
    requiredPoints: int,
    prerequisites: seq<string>,
    connections: seq<string>,
    gridX: Option<int>,
    gridY: Option<int>,
    x: Option<int>,
    y: Option<int>,
    tier: Option<int>,
    position: Option<int>)

  /** A directed edge: `from` is a prerequisite of `to`. */
  datatype TalentConnection = TalentConnection(id: string, from: string, to: string, isActive: bool)

  datatype TalentTree = TalentTree(
    id: string,
    name: string,
    description: string,
    totalPoints: int,
    spentPoints: int,
    nodes: seq<TalentNode>,
    connections: seq<TalentConnection>)

  datatype TalentState = Locked | Available | Unlocked | Selected | Maxed

  /** The simulation state: allocated ranks by node id (a missing key means 0) and two counters. */
  datatype TalentTreeState = TalentTreeState(
    selectedNodes: map<string, int>,
    availablePoints: int,
    spentPoints: int,
    hoveredNode: Option<string>)

  /** A pixel position on the canvas. */
  datatype Position = Position(x: int, y: int)

  /** A grid cell (column, row); the same shape as a pixel position. */
  type GridPosition = Position

  datatype EditorMode = Simulate | Edit

  datatype EditorState = EditorState(
    mode: EditorMode,
    selectedNodeId: Option<string>,
    isConnecting: bool,
    connectionStart: Option<string>,
    draggedNode: Option<string>,
    showNodeEditor: bool,
    showTreeEditor: bool,
    pendingNodePosition: Option<GridPosition>)

  datatype NodeTemplate = NodeTemplate(
    name: string,
    description: string,
    icon: string,
    maxRanks: int,
    requiredPoints: int)

  /** The fields of a `Partial<TreeMetadata>` that `createEmptyTree` reads. */
  datatype TreeMetadata = TreeMetadata(id: Option<string>, name: Option<string>, description: Option<string>)

  /** `nodes.find(n => n.id === id)`: the first node with that id. */
  function FindNode(nodes: seq<TalentNode>, id: string): (r: Option<TalentNode>)
    ensures r.Some? ==> r.value in nodes && r.value.id == id
    ensures r.None? <==> forall n :: n in nodes ==> n.id != id
  {
    if nodes == [] then None
    else if nodes[0].id == id then Some(nodes[0])
    else FindNode(nodes[1..], id)
  }

  /** The node found is the first one with the id: every node before it has another id. */
  lemma {:induction false} FindNodeFirst(nodes: seq<TalentNode>, id: string)
    ensures FindNode(nodes, id).Some? ==>
              exists i :: 0 <= i < |nodes| && nodes[i] == FindNode(nodes, id).value && forall j :: 0 <= j < i ==> nodes[j].id != id
  {
    if nodes != [] && nodes[0].id != id && FindNode(nodes, id).Some? {
      FindNodeFirst(nodes[1..], id);
      var i :| 0 <= i < |nodes[1..]| && nodes[1..][i] == FindNode(nodes, id).value && forall j :: 0 <= j < i ==> nodes[1..][j].id != id;
      assert nodes[i + 1] == FindNode(nodes, id).value;
    }
  }

  /** The ids of a node sequence, in order. */
  function NodeIds(nodes: seq<TalentNode>): (ids: seq<string>)
    ensures |ids| == |nodes|
    ensures forall i :: 0 <= i < |nodes| ==> ids[i] == nodes[i].id
  {
    seq(|nodes|, i requires 0 <= i < |nodes| => nodes[i].id)
  }
}
