/**
 * The tree editor engine (src/utils/editor-utils.ts): functions that take a tree
 * and return a new one. Generated ids (`Date.now()` plus a random suffix) are
 * parameters here, and callers pass fresh ones.
 */
module EditorUtils {
  import opened Wrappers
  import opened Seqs
  import opened TalentTypes

  const DEFAULT_TOTAL_POINTS := 51
  const DEFAULT_TREE_NAME := "New Talent Tree"
  const DEFAULT_TREE_DESCRIPTION := "A custom talent tree"
  const DEFAULT_NODE_NAME := "New Talent"
  const DEFAULT_NODE_DESCRIPTION := "A new talent ability"
  /**
   * The default icon as the source file spells it: the UTF-8 bytes of the star U+2B50
   * read back as Mac Roman, three characters U+201A U+2260 U+00EA.
   */
  const DEFAULT_NODE_ICON := "\U{201A}\U{2260}\U{00EA}"

  /** `value || fallback` on an optional string: a missing or empty string gives the fallback. */
  function OrDefault(value: Option<string>, fallback: string): (r: string)
    ensures value.Some? && value.value != "" ==> r == value.value
    ensures value.None? || value.value == "" ==> r == fallback
    ensures r != "" || fallback == ""
  {
    if value.Some? && value.value != "" then value.value else fallback
  }

  /** `createEmptyTree`: no nodes, no connections, 51 points to spend. */
  function CreateEmptyTree(metadata: TreeMetadata, freshId: string): (t: TalentTree)
    ensures t.nodes == [] && t.connections == []
    ensures t.totalPoints == DEFAULT_TOTAL_POINTS && t.spentPoints == 0
    ensures t.id == (if metadata.id.Some? && metadata.id.value != "" then metadata.id.value else freshId)
    ensures t.name == (if metadata.name.Some? && metadata.name.value != "" then metadata.name.value else DEFAULT_TREE_NAME)
    ensures t.description ==
      (if metadata.description.Some? && metadata.description.value != "" then metadata.description.value
       else DEFAULT_TREE_DESCRIPTION)
    ensures t.name != "" && t.description != ""
  {
    TalentTree(
      OrDefault(metadata.id, freshId),
      OrDefault(metadata.name, DEFAULT_TREE_NAME),
      OrDefault(metadata.description, DEFAULT_TREE_DESCRIPTION),
      DEFAULT_TOTAL_POINTS, 0, [], [])
  }

  /** `calculateTierFromY`: rows 100 pixels apart from y = 50, never below 1. */
  function CalculateTierFromY(y: int): (tier: int)
    ensures tier >= 1
    ensures tier == 1 <==> y < 150
    ensures y >= 50 ==> 100 * (tier - 1) <= y - 50 < 100 * tier
  {
    var t := (y - 50) / 100 + 1;
    if t > 1 then t else 1
  }

  /**
   * `createNode`: a node at the cell with the template's fields (or the defaults),
   * no ranks, no prerequisites and no connections. It writes `x`, `y`, `tier` and
   * `position` and leaves `gridX`/`gridY` undefined.
   */
  function CreateNode(position: GridPosition, template: Option<NodeTemplate>, id: string): (n: TalentNode)
    ensures n.id == id
    ensures n.prerequisites == [] && n.connections == [] && n.currentRanks == 0
    ensures n.maxRanks != 0
    ensures n.x == Some(position.x) && n.y == Some(position.y)
    ensures n.tier == Some(CalculateTierFromY(position.y)) && n.position == Some(0)
    ensures n.gridX.None? && n.gridY.None?
    ensures template.None? ==>
      && n.name == DEFAULT_NODE_NAME && n.description == DEFAULT_NODE_DESCRIPTION && n.icon == DEFAULT_NODE_ICON
      && n.maxRanks == 1 && n.requiredPoints == 0
    ensures template.Some? ==>
      && n.name == (if template.value.name != "" then template.value.name else DEFAULT_NODE_NAME)
      && n.description == (if template.value.description != "" then template.value.description else DEFAULT_NODE_DESCRIPTION)
      && n.icon == (if template.value.icon != "" then template.value.icon else DEFAULT_NODE_ICON)
      && n.maxRanks == (if template.value.maxRanks != 0 then template.value.maxRanks else 1)
      && n.requiredPoints == template.value.requiredPoints
  {
    var name := OrDefault(if template.Some? then Some(template.value.name) else None, DEFAULT_NODE_NAME);
    var description :=
      OrDefault(if template.Some? then Some(template.value.description) else None, DEFAULT_NODE_DESCRIPTION);
    var icon := OrDefault(if template.Some? then Some(template.value.icon) else None, DEFAULT_NODE_ICON);
    var maxRanks := if template.Some? && template.value.maxRanks != 0 then template.value.maxRanks else 1;
    var requiredPoints := if template.Some? then template.value.requiredPoints else 0;
    TalentNode(id, name, description, icon, maxRanks, 0, requiredPoints, [], [],
               None, None, Some(position.x), Some(position.y), Some(CalculateTierFromY(position.y)), Some(0))
  }

  // ---------------------------------------------------------------------------
  // Adding a node

  /** The number of nodes whose `tier` equals the given one (`undefined === undefined` holds too). */
  function CountInTier(nodes: seq<TalentNode>, tier: Option<int>): (count: nat)
    ensures count <= |nodes|
  {
    if nodes == [] then 0
    else CountInTier(nodes[..|nodes| - 1], tier) + (if nodes[|nodes| - 1].tier == tier then 1 else 0)
  }

  /** The count is the length of `nodes.filter(n => n.tier === tier)`. */
  lemma {:induction false} CountInTierIsFilterLength(nodes: seq<TalentNode>, tier: Option<int>)
    ensures CountInTier(nodes, tier) == |Filter(nodes, (n: TalentNode) => n.tier == tier)|
  {
    if nodes != [] {
      var prefix := nodes[..|nodes| - 1];
      var last := nodes[|nodes| - 1];
      CountInTierIsFilterLength(prefix, tier);
      assert nodes == prefix + [last];
      FilterAppend(prefix, [last], (n: TalentNode) => n.tier == tier);
    }
  }

  /**
   * `addNodeToTree`: the node is appended, its `position` set to the number of
   * nodes already in its tier; everything already in the tree is kept.
   */
  function AddNodeToTree(t: TalentTree, node: TalentNode): (r: TalentTree)
    ensures |r.nodes| == |t.nodes| + 1 && r.nodes[..|t.nodes|] == t.nodes
    ensures r.nodes[|t.nodes|] == node.(position := Some(CountInTier(t.nodes, node.tier)))
    ensures r.(nodes := t.nodes) == t
  {
    var nodesInTier := CountInTier(t.nodes, node.tier);
    var updatedNode := node.(position := Some(nodesInTier));
    t.(nodes := t.nodes + [updatedNode])
  }

  /** Each node's `position` is the number of nodes of its tier that come before it. */
  ghost predicate PositionsByArrival(nodes: seq<TalentNode>)
  {
    forall i :: 0 <= i < |nodes| ==> nodes[i].position == Some(CountInTier(nodes[..i], nodes[i].tier))
  }

  /** Appending keeps every position the index of its node within the tier. */
  lemma AddNodeKeepsPositionsByArrival(t: TalentTree, node: TalentNode)
    requires PositionsByArrival(t.nodes)
    ensures PositionsByArrival(AddNodeToTree(t, node).nodes)
  {
    var r := AddNodeToTree(t, node);
    forall i | 0 <= i < |r.nodes|
      ensures r.nodes[i].position == Some(CountInTier(r.nodes[..i], r.nodes[i].tier))
    {
      if i < |t.nodes| {
        assert r.nodes[..i] == t.nodes[..i];
      } else {
        assert r.nodes[..i] == t.nodes;
      }
    }
  }

  lemma {:induction false} CountInTierPrefixMonotone(nodes: seq<TalentNode>, tier: Option<int>, i: nat, j: nat)
    requires i <= j <= |nodes|
    ensures CountInTier(nodes[..i], tier) <= CountInTier(nodes[..j], tier)
    decreases j - i
  {
    if i < j {
      CountInTierPrefixMonotone(nodes, tier, i, j - 1);
      assert nodes[..j][..j - 1] == nodes[..j - 1];
    }
  }

  /** Positions given by arrival are distinct within a tier: the later node has the larger one. */
  lemma PositionsDistinctInTier(nodes: seq<TalentNode>, i: nat, j: nat)
    requires PositionsByArrival(nodes)
    requires i < j < |nodes| && nodes[i].tier == nodes[j].tier
    ensures nodes[i].position.value < nodes[j].position.value
  {
    assert nodes[..i + 1][..i] == nodes[..i];
    CountInTierPrefixMonotone(nodes, nodes[i].tier, i + 1, j);
  }

  // ---------------------------------------------------------------------------
  // Removing a node

  /** A survivor of `removeNodeFromTree`: the removed id is dropped from its prerequisites and connections. */
  function ScrubNode(n: TalentNode, nodeId: string): (m: TalentNode)
    ensures m.id == n.id && nodeId !in m.prerequisites && nodeId !in m.connections
    ensures forall p :: p in m.prerequisites <==> p in n.prerequisites && p != nodeId
    ensures forall c :: c in m.connections <==> c in n.connections && c != nodeId
    ensures IsSubseq(m.prerequisites, n.prerequisites) && IsSubseq(m.connections, n.connections)
    ensures m.(prerequisites := n.prerequisites, connections := n.connections) == n
  {
    n.(prerequisites := Filter(n.prerequisites, (p: string) => p != nodeId),
       connections := Filter(n.connections, (c: string) => c != nodeId))
  }

  /**
   * `removeNodeFromTree`: the node, every connection touching it and every mention
   * of its id are gone; the other nodes and connections stay, in their order.
   */
  function RemoveNodeFromTree(t: TalentTree, nodeId: string): (r: TalentTree)
    ensures forall n :: n in r.nodes ==> n.id != nodeId && nodeId !in n.prerequisites && nodeId !in n.connections
    ensures forall c :: c in r.connections ==> c.from != nodeId && c.to != nodeId
    ensures forall c :: c in t.connections && c.from != nodeId && c.to != nodeId ==> c in r.connections
    ensures IsSubseq(r.connections, t.connections)
    ensures forall n :: n in t.nodes && n.id != nodeId ==> ScrubNode(n, nodeId) in r.nodes
    ensures forall m :: m in r.nodes ==> exists n :: n in t.nodes && n.id != nodeId && m == ScrubNode(n, nodeId)
    ensures NodeIds(r.nodes) == Filter(NodeIds(t.nodes), (x: string) => x != nodeId)
    ensures r.(nodes := t.nodes, connections := t.connections) == t
  {
    var filteredNodes := Filter(t.nodes, (n: TalentNode) => n.id != nodeId);
    var filteredConnections := Filter(t.connections, (c: TalentConnection) => c.from != nodeId && c.to != nodeId);
    var updatedNodes :=
      seq(|filteredNodes|, i requires 0 <= i < |filteredNodes| => ScrubNode(filteredNodes[i], nodeId));
    SurvivorIdsInOrder(t.nodes, nodeId);
    assert NodeIds(updatedNodes) == NodeIds(filteredNodes);
    ScrubbedSurvivors(t.nodes, filteredNodes, updatedNodes, nodeId);
    t.(nodes := updatedNodes, connections := filteredConnections)
  }

  /** Every copy of a connection not touching the removed node survives, duplicates included. */
  lemma RemoveNodeKeepsConnectionCopies(t: TalentTree, nodeId: string, c: TalentConnection)
    requires c.from != nodeId && c.to != nodeId
    ensures multiset(RemoveNodeFromTree(t, nodeId).connections)[c] == multiset(t.connections)[c]
  {
    FilterMultiplicity(t.connections, (c: TalentConnection) => c.from != nodeId && c.to != nodeId, c);
  }

  lemma ScrubbedSurvivors(nodes: seq<TalentNode>, survivors: seq<TalentNode>, scrubbed: seq<TalentNode>, nodeId: string)
    requires forall n :: n in survivors <==> n in nodes && n.id != nodeId
    requires |scrubbed| == |survivors|
    requires forall i :: 0 <= i < |survivors| ==> scrubbed[i] == ScrubNode(survivors[i], nodeId)
    ensures forall n :: n in nodes && n.id != nodeId ==> ScrubNode(n, nodeId) in scrubbed
    ensures forall m :: m in scrubbed ==> exists n :: n in nodes && n.id != nodeId && m == ScrubNode(n, nodeId)
  {
    forall n | n in nodes && n.id != nodeId
      ensures ScrubNode(n, nodeId) in scrubbed
    {
      var i :| 0 <= i < |survivors| && survivors[i] == n;
      assert scrubbed[i] == ScrubNode(n, nodeId);
    }
    forall m | m in scrubbed
      ensures exists n :: n in nodes && n.id != nodeId && m == ScrubNode(n, nodeId)
    {
      var i :| 0 <= i < |scrubbed| && scrubbed[i] == m;
      assert survivors[i] in survivors;
    }
  }

  lemma {:induction false} SurvivorIdsInOrder(nodes: seq<TalentNode>, nodeId: string)
    ensures NodeIds(Filter(nodes, (n: TalentNode) => n.id != nodeId)) == Filter(NodeIds(nodes), (x: string) => x != nodeId)
  {
    var p := (n: TalentNode) => n.id != nodeId;
    var q := (x: string) => x != nodeId;
    if nodes == [] {
      assert NodeIds(nodes) == [];
    } else {
      var ids := NodeIds(nodes);
      var rest := Filter(nodes[1..], p);
      SurvivorIdsInOrder(nodes[1..], nodeId);
      assert ids[1..] == NodeIds(nodes[1..]);
      assert Filter(ids, q) == (if q(ids[0]) then [ids[0]] + Filter(ids[1..], q) else Filter(ids[1..], q));
      assert Filter(nodes, p) == (if p(nodes[0]) then [nodes[0]] + rest else rest);
      if p(nodes[0]) {
        assert NodeIds([nodes[0]] + rest) == [nodes[0].id] + NodeIds(rest);
      }
    }
  }

  /** An id that no node, connection or list mentions: removing it changes nothing. */
  ghost predicate Unmentioned(t: TalentTree, nodeId: string)
  {
    && (forall n :: n in t.nodes ==> n.id != nodeId && nodeId !in n.prerequisites && nodeId !in n.connections)
    && (forall c :: c in t.connections ==> c.from != nodeId && c.to != nodeId)
  }

  lemma RemoveUnmentionedNode(t: TalentTree, nodeId: string)
    requires Unmentioned(t, nodeId)
    ensures RemoveNodeFromTree(t, nodeId) == t
  {
    var r := RemoveNodeFromTree(t, nodeId);
    FilterKeepsAll(t.nodes, (n: TalentNode) => n.id != nodeId);
    FilterKeepsAll(t.connections, (c: TalentConnection) => c.from != nodeId && c.to != nodeId);
    forall i | 0 <= i < |t.nodes| ensures ScrubNode(t.nodes[i], nodeId) == t.nodes[i] {
      FilterKeepsAll(t.nodes[i].prerequisites, (p: string) => p != nodeId);
      FilterKeepsAll(t.nodes[i].connections, (c: string) => c != nodeId);
    }
  }

  /** Removing a node twice is removing it once. */
  lemma RemoveNodeIdempotent(t: TalentTree, nodeId: string)
    ensures RemoveNodeFromTree(RemoveNodeFromTree(t, nodeId), nodeId) == RemoveNodeFromTree(t, nodeId)
  {
    RemoveUnmentionedNode(RemoveNodeFromTree(t, nodeId), nodeId);
  }

  /** Removing a node just added under an unmentioned id gives the tree back. */
  lemma RemoveUndoesAddNode(t: TalentTree, node: TalentNode)
    requires Unmentioned(t, node.id)
    ensures RemoveNodeFromTree(AddNodeToTree(t, node), node.id) == t
  {
    var a := AddNodeToTree(t, node);
    var p := (n: TalentNode) => n.id != node.id;
    FilterAppend(t.nodes, [a.nodes[|t.nodes|]], p);
    assert a.nodes == t.nodes + [a.nodes[|t.nodes|]];
    FilterKeepsAll(t.nodes, p);
    assert Filter(a.nodes, p) == t.nodes;
    RemoveUnmentionedNode(t, node.id);
  }

  // ---------------------------------------------------------------------------
  // Updating and moving a node

  /** A `Partial<TalentNode>`: each present field replaces the node's own. */
  datatype NodePatch = NodePatch(
    id: Option<string>,
    name: Option<string>,
    description: Option<string>,
    icon: Option<string>,
    maxRanks: Option<int>,
    currentRanks: Option<int>,
    requiredPoints: Option<int>,
    prerequisites: Option<seq<string>>,
    connections: Option<seq<string>>,
    gridX: Option<int>,
    gridY: Option<int>,
    x: Option<int>,
    y: Option<int>,
    tier: Option<int>,
    position: Option<int>)

  function Pick<T>(update: Option<T>, current: T): (v: T)
  {
    if update.Some? then update.value else current
  }

  function PickSome<T>(update: Option<T>, current: Option<T>): (v: Option<T>)
  {
    if update.Some? then update else current
  }

  /** The patch that supplies no field. */
  const NO_CHANGES := NodePatch(None, None, None, None, None, None, None, None, None, None, None, None, None, None, None)

  /**
   * `{ ...node, ...updates }`: a field the patch supplies is replaced, any other is
   * kept, so the empty patch changes nothing.
   */
  function ApplyPatch(n: TalentNode, p: NodePatch): (m: TalentNode)
    ensures p == NO_CHANGES ==> m == n
    ensures m.id == (if p.id.Some? then p.id.value else n.id)
    ensures m.name == (if p.name.Some? then p.name.value else n.name)
    ensures m.description == (if p.description.Some? then p.description.value else n.description)
    ensures m.icon == (if p.icon.Some? then p.icon.value else n.icon)
    ensures m.maxRanks == (if p.maxRanks.Some? then p.maxRanks.value else n.maxRanks)
    ensures m.currentRanks == (if p.currentRanks.Some? then p.currentRanks.value else n.currentRanks)
    ensures m.requiredPoints == (if p.requiredPoints.Some? then p.requiredPoints.value else n.requiredPoints)
    ensures m.prerequisites == (if p.prerequisites.Some? then p.prerequisites.value else n.prerequisites)
    ensures m.connections == (if p.connections.Some? then p.connections.value else n.connections)
    ensures m.gridX == (if p.gridX.Some? then p.gridX else n.gridX) && m.gridY == (if p.gridY.Some? then p.gridY else n.gridY)
    ensures m.x == (if p.x.Some? then p.x else n.x) && m.y == (if p.y.Some? then p.y else n.y)
    ensures m.tier == (if p.tier.Some? then p.tier else n.tier)
    ensures m.position == (if p.position.Some? then p.position else n.position)
  {
    TalentNode(
      Pick(p.id, n.id), Pick(p.name, n.name), Pick(p.description, n.description), Pick(p.icon, n.icon),
      Pick(p.maxRanks, n.maxRanks), Pick(p.currentRanks, n.currentRanks), Pick(p.requiredPoints, n.requiredPoints),
      Pick(p.prerequisites, n.prerequisites), Pick(p.connections, n.connections),
      PickSome(p.gridX, n.gridX), PickSome(p.gridY, n.gridY), PickSome(p.x, n.x), PickSome(p.y, n.y),
      PickSome(p.tier, n.tier), PickSome(p.position, n.position))
  }

  /** Spreading the same updates a second time changes nothing. */
  lemma ApplyPatchIdempotent(n: TalentNode, p: NodePatch)
    ensures ApplyPatch(ApplyPatch(n, p), p) == ApplyPatch(n, p)
  {
  }

  /** `updateNode`: every node with the id gets the patch; every other node, and the rest of the tree, is kept. */
  function UpdateNode(t: TalentTree, nodeId: string, updates: NodePatch): (r: TalentTree)
    ensures |r.nodes| == |t.nodes|
    ensures forall i :: 0 <= i < |t.nodes| && t.nodes[i].id != nodeId ==> r.nodes[i] == t.nodes[i]
    ensures forall i :: 0 <= i < |t.nodes| && t.nodes[i].id == nodeId ==> r.nodes[i] == ApplyPatch(t.nodes[i], updates)
    ensures (forall n :: n in t.nodes ==> n.id != nodeId) ==> r == t
    ensures r.(nodes := t.nodes) == t
  {
    var updatedNodes :=
      seq(|t.nodes|, i requires 0 <= i < |t.nodes| =>
        if t.nodes[i].id == nodeId then ApplyPatch(t.nodes[i], updates) else t.nodes[i]);
    assert (forall n :: n in t.nodes ==> n.id != nodeId) ==> updatedNodes == t.nodes;
    t.(nodes := updatedNodes)
  }

  /** The patch `moveNode` applies: new `x`, `y` and the `tier` of the new row. */
  function MovePatch(newPosition: Position): (p: NodePatch)
  {
    NodePatch(None, None, None, None, None, None, None, None, None, None, None,
              Some(newPosition.x), Some(newPosition.y), Some(CalculateTierFromY(newPosition.y)), None)
  }

  /**
   * `moveNode`: only `x`, `y` and `tier` of the nodes with the id change, with
   * `tier` at least 1; `gridX` and `gridY` are never written.
   */
  function MoveNode(t: TalentTree, nodeId: string, newPosition: Position): (r: TalentTree)
    ensures |r.nodes| == |t.nodes|
    ensures forall i :: 0 <= i < |t.nodes| && t.nodes[i].id == nodeId ==>
      && r.nodes[i] == t.nodes[i].(x := Some(newPosition.x), y := Some(newPosition.y),
                                  tier := Some(CalculateTierFromY(newPosition.y)))
      && r.nodes[i].tier.value >= 1
    ensures forall i :: 0 <= i < |t.nodes| && t.nodes[i].id != nodeId ==> r.nodes[i] == t.nodes[i]
    ensures forall i :: 0 <= i < |t.nodes| ==>
      r.nodes[i].gridX == t.nodes[i].gridX && r.nodes[i].gridY == t.nodes[i].gridY
    ensures r.(nodes := t.nodes) == t
  {
    UpdateNode(t, nodeId, MovePatch(newPosition))
  }

  /** Moving a node twice to the same place is moving it once. */
  lemma MoveNodeIdempotent(t: TalentTree, nodeId: string, newPosition: Position)
    ensures MoveNode(MoveNode(t, nodeId, newPosition), nodeId, newPosition) == MoveNode(t, nodeId, newPosition)
  {
    var once := MoveNode(t, nodeId, newPosition);
    var twice := MoveNode(once, nodeId, newPosition);
    assert twice.nodes == once.nodes;
  }

  // ---------------------------------------------------------------------------
  // Connections

  /** A connection between `a` and `b`, in either direction. */
  predicate Joins(c: TalentConnection, a: string, b: string)
  {
    (c.from == a && c.to == b) || (c.from == b && c.to == a)
  }

  predicate ConnectionExists(connections: seq<TalentConnection>, a: string, b: string)
  {
    exists c :: c in connections && Joins(c, a, b)
  }

  /**
   * `addConnectionToTree`: when the pair is already joined, in either direction,
   * the tree is returned as it is; otherwise one connection is appended and
   * `fromNodeId` is appended to the prerequisites of the nodes with id `toNodeId`.
   * There is no check that the endpoints exist, differ or lie in different rows.
   */
  function AddConnectionToTree(t: TalentTree, fromNodeId: string, toNodeId: string, connectionId: string): (r: TalentTree)
    ensures ConnectionExists(t.connections, fromNodeId, toNodeId) ==> r == t
    ensures !ConnectionExists(t.connections, fromNodeId, toNodeId) ==>
      && r.connections == t.connections + [TalentConnection(connectionId, fromNodeId, toNodeId, false)]
      && |r.nodes| == |t.nodes|
      && (forall i :: 0 <= i < |t.nodes| && t.nodes[i].id == toNodeId ==>
            r.nodes[i] == t.nodes[i].(prerequisites := t.nodes[i].prerequisites + [fromNodeId]))
      && (forall i :: 0 <= i < |t.nodes| && t.nodes[i].id != toNodeId ==> r.nodes[i] == t.nodes[i])
      && r.(nodes := t.nodes, connections := t.connections) == t
    ensures ConnectionExists(r.connections, fromNodeId, toNodeId)
  {
    if ConnectionExists(t.connections, fromNodeId, toNodeId) then t
    else
      var newConnection := TalentConnection(connectionId, fromNodeId, toNodeId, false);
      var updatedNodes :=
        seq(|t.nodes|, i requires 0 <= i < |t.nodes| =>
          if t.nodes[i].id == toNodeId
          then t.nodes[i].(prerequisites := t.nodes[i].prerequisites + [fromNodeId])
          else t.nodes[i]);
      assert Joins(newConnection, fromNodeId, toNodeId);
      t.(nodes := updatedNodes, connections := t.connections + [newConnection])
  }

  /** Adding the same connection again, in either direction, has no further effect. */
  lemma AddConnectionIdempotent(t: TalentTree, a: string, b: string, id1: string, id2: string)
    ensures var once := AddConnectionToTree(t, a, b, id1);
      AddConnectionToTree(once, a, b, id2) == once && AddConnectionToTree(once, b, a, id2) == once
  {
    var once := AddConnectionToTree(t, a, b, id1);
    var c :| c in once.connections && Joins(c, a, b);
    assert Joins(c, b, a);
  }

  /** `connections.find(c => c.id === id)`. */
  function FindConnection(connections: seq<TalentConnection>, connectionId: string): (r: Option<TalentConnection>)
    ensures r.Some? ==> r.value in connections && r.value.id == connectionId
    ensures r.None? <==> forall c :: c in connections ==> c.id != connectionId
    ensures r.Some? ==> exists i :: 0 <= i < |connections| && connections[i] == r.value &&
                                    forall j :: 0 <= j < i ==> connections[j].id != connectionId
  {
    if connections == [] then None
    else if connections[0].id == connectionId then Some(connections[0])
    else
      var r := FindConnection(connections[1..], connectionId);
      if r.Some? then
        var i :| 0 <= i < |connections[1..]| && connections[1..][i] == r.value &&
          forall j :: 0 <= j < i ==> connections[1..][j].id != connectionId;
        assert connections[i + 1] == r.value;
        r
      else r
  }

  /**
   * `removeConnection`: an unknown id leaves the tree as it is; otherwise every
   * connection with the id is dropped and the first one's `from` is dropped from
   * the prerequisites of the nodes with its `to` id.
   */
  function RemoveConnection(t: TalentTree, connectionId: string): (r: TalentTree)
    ensures FindConnection(t.connections, connectionId).None? ==> r == t
    ensures forall c :: c in r.connections ==> c.id != connectionId
    ensures forall c :: c in t.connections && c.id != connectionId ==> c in r.connections
    ensures IsSubseq(r.connections, t.connections)
    ensures |r.nodes| == |t.nodes|
    ensures FindConnection(t.connections, connectionId).Some? ==>
      var removed := FindConnection(t.connections, connectionId).value;
      && (forall i :: 0 <= i < |t.nodes| && t.nodes[i].id == removed.to ==>
            && removed.from !in r.nodes[i].prerequisites
            && r.nodes[i] == t.nodes[i].(prerequisites := Filter(t.nodes[i].prerequisites, (p: string) => p != removed.from)))
      && (forall i :: 0 <= i < |t.nodes| && t.nodes[i].id != removed.to ==> r.nodes[i] == t.nodes[i])
    ensures r.(nodes := t.nodes, connections := t.connections) == t
  {
    match FindConnection(t.connections, connectionId)
    case None =>
      SubseqReflexive(t.connections);
      t
    case Some(connection) =>
      var filteredConnections := Filter(t.connections, (c: TalentConnection) => c.id != connectionId);
      var updatedNodes :=
        seq(|t.nodes|, i requires 0 <= i < |t.nodes| =>
          if t.nodes[i].id == connection.to
          then t.nodes[i].(prerequisites := Filter(t.nodes[i].prerequisites, (p: string) => p != connection.from))
          else t.nodes[i]);
      t.(nodes := updatedNodes, connections := filteredConnections)
  }

  /** Every copy of a connection with another id survives, duplicates included. */
  lemma RemoveConnectionKeepsCopies(t: TalentTree, connectionId: string, c: TalentConnection)
    requires c.id != connectionId
    ensures multiset(RemoveConnection(t, connectionId).connections)[c] == multiset(t.connections)[c]
  {
    FilterMultiplicity(t.connections, (c: TalentConnection) => c.id != connectionId, c);
  }

  /**
   * Removing a connection just added under a fresh id gives the tree back, when
   * the `to` nodes did not already list `from` among their prerequisites.
   */
  lemma RemoveConnectionUndoesAdd(t: TalentTree, a: string, b: string, connectionId: string)
    requires forall c :: c in t.connections ==> c.id != connectionId
    requires forall n :: n in t.nodes && n.id == b ==> a !in n.prerequisites
    ensures RemoveConnection(AddConnectionToTree(t, a, b, connectionId), connectionId) == t
  {
    if !ConnectionExists(t.connections, a, b) {
      var added := AddConnectionToTree(t, a, b, connectionId);
      var newConnection := TalentConnection(connectionId, a, b, false);
      assert FindConnection(added.connections, connectionId) == Some(newConnection);
      var r := RemoveConnection(added, connectionId);
      var keep := (c: TalentConnection) => c.id != connectionId;
      FilterAppend(t.connections, [newConnection], keep);
      FilterKeepsAll(t.connections, keep);
      forall i | 0 <= i < |t.nodes| ensures r.nodes[i] == t.nodes[i] {
        if t.nodes[i].id == b {
          var drop := (p: string) => p != a;
          FilterAppend(t.nodes[i].prerequisites, [a], drop);
          FilterKeepsAll(t.nodes[i].prerequisites, drop);
        }
      }
    }
  }

  // ---------------------------------------------------------------------------
  // Connections and prerequisites in lockstep

  /** Every connection's `from` is a prerequisite of each node with its `to` id. */
  ghost predicate ConnectionsListed(t: TalentTree)
  {
    forall c, n :: c in t.connections && n in t.nodes && n.id == c.to ==> c.from in n.prerequisites
  }

  /** Every prerequisite is backed by a connection into its node. */
  ghost predicate PrerequisitesBacked(t: TalentTree)
  {
    forall n, p :: n in t.nodes && p in n.prerequisites ==>
      exists c :: c in t.connections && c.from == p && c.to == n.id
  }

  /** Two connections with the same id, or joining the same pair, are one and the same. */
  ghost predicate ConnectionsDistinct(t: TalentTree)
  {
    forall c1, c2 :: c1 in t.connections && c2 in t.connections && (c1.id == c2.id || Joins(c1, c2.from, c2.to)) ==> c1 == c2
  }

  /** The tree's connection list and its nodes' prerequisite lists describe the same edges. */
  ghost predicate Lockstep(t: TalentTree)
  {
    ConnectionsListed(t) && PrerequisitesBacked(t) && ConnectionsDistinct(t)
  }

  lemma EmptyTreeLockstep(metadata: TreeMetadata, freshId: string)
    ensures Lockstep(CreateEmptyTree(metadata, freshId))
  {
  }

  /** Adding a node with no prerequisites that no connection points to keeps the lockstep. */
  lemma AddNodeKeepsLockstep(t: TalentTree, node: TalentNode)
    requires Lockstep(t)
    requires node.prerequisites == []
    requires forall c :: c in t.connections ==> c.to != node.id
    ensures Lockstep(AddNodeToTree(t, node))
  {
    var r := AddNodeToTree(t, node);
    assert r.nodes == t.nodes + [r.nodes[|t.nodes|]];
  }

  lemma RemoveNodeKeepsLockstep(t: TalentTree, nodeId: string)
    requires Lockstep(t)
    ensures Lockstep(RemoveNodeFromTree(t, nodeId))
  {
    var r := RemoveNodeFromTree(t, nodeId);
    forall c, m | c in r.connections && m in r.nodes && m.id == c.to
      ensures c.from in m.prerequisites
    {
      var n :| n in t.nodes && n.id != nodeId && m == ScrubNode(n, nodeId);
      assert c.from in n.prerequisites;
    }
    forall m, p | m in r.nodes && p in m.prerequisites
      ensures exists c :: c in r.connections && c.from == p && c.to == m.id
    {
      var n :| n in t.nodes && n.id != nodeId && m == ScrubNode(n, nodeId);
      var c :| c in t.connections && c.from == p && c.to == n.id;
      assert c in r.connections;
    }
  }

  /** A patch that touches neither `id` nor `prerequisites` (a move, say) keeps the lockstep. */
  lemma UpdateNodeKeepsLockstep(t: TalentTree, nodeId: string, updates: NodePatch)
    requires Lockstep(t)
    requires updates.id.None? && updates.prerequisites.None?
    ensures Lockstep(UpdateNode(t, nodeId, updates))
  {
    var r := UpdateNode(t, nodeId, updates);
    forall c, m | c in r.connections && m in r.nodes && m.id == c.to
      ensures c.from in m.prerequisites
    {
      var i :| 0 <= i < |r.nodes| && r.nodes[i] == m;
      assert t.nodes[i] in t.nodes;
    }
    forall m, p | m in r.nodes && p in m.prerequisites
      ensures exists c :: c in r.connections && c.from == p && c.to == m.id
    {
      var i :| 0 <= i < |r.nodes| && r.nodes[i] == m;
      assert t.nodes[i] in t.nodes;
    }
  }

  lemma MoveNodeKeepsLockstep(t: TalentTree, nodeId: string, newPosition: Position)
    requires Lockstep(t)
    ensures Lockstep(MoveNode(t, nodeId, newPosition))
  {
    UpdateNodeKeepsLockstep(t, nodeId, MovePatch(newPosition));
  }

  /** Adding a connection under a fresh id keeps the lockstep. */
  lemma AddConnectionKeepsLockstep(t: TalentTree, fromNodeId: string, toNodeId: string, connectionId: string)
    requires Lockstep(t)
    requires forall c :: c in t.connections ==> c.id != connectionId
    ensures Lockstep(AddConnectionToTree(t, fromNodeId, toNodeId, connectionId))
  {
    if !ConnectionExists(t.connections, fromNodeId, toNodeId) {
      var r := AddConnectionToTree(t, fromNodeId, toNodeId, connectionId);
      var added := TalentConnection(connectionId, fromNodeId, toNodeId, false);
      forall c, m | c in r.connections && m in r.nodes && m.id == c.to
        ensures c.from in m.prerequisites
      {
        var i :| 0 <= i < |r.nodes| && r.nodes[i] == m;
        assert t.nodes[i] in t.nodes;
      }
      forall m, p | m in r.nodes && p in m.prerequisites
        ensures exists c :: c in r.connections && c.from == p && c.to == m.id
      {
        var i :| 0 <= i < |r.nodes| && r.nodes[i] == m;
        assert t.nodes[i] in t.nodes;
        if p !in t.nodes[i].prerequisites {
          assert added in r.connections;
        }
      }
      forall c1, c2 | c1 in r.connections && c2 in r.connections && (c1.id == c2.id || Joins(c1, c2.from, c2.to))
        ensures c1 == c2
      {
        if c1 == added && c2 != added {
          assert c2 in t.connections && Joins(c2, fromNodeId, toNodeId);
        }
      }
    }
  }

  /** Removing a connection keeps the lockstep. */
  lemma RemoveConnectionKeepsLockstep(t: TalentTree, connectionId: string)
    requires Lockstep(t)
    ensures Lockstep(RemoveConnection(t, connectionId))
  {
    if FindConnection(t.connections, connectionId).Some? {
      var removed := FindConnection(t.connections, connectionId).value;
      var r := RemoveConnection(t, connectionId);
      forall c, m | c in r.connections && m in r.nodes && m.id == c.to
        ensures c.from in m.prerequisites
      {
        var i :| 0 <= i < |r.nodes| && r.nodes[i] == m;
        assert t.nodes[i] in t.nodes;
        assert c in t.connections;
        if m.id == removed.to {
          assert c.from != removed.from;
        }
      }
      forall m, p | m in r.nodes && p in m.prerequisites
        ensures exists c :: c in r.connections && c.from == p && c.to == m.id
      {
        var i :| 0 <= i < |r.nodes| && r.nodes[i] == m;
        assert t.nodes[i] in t.nodes;
        var c :| c in t.connections && c.from == p && c.to == t.nodes[i].id;
        assert c in r.connections;
      }
    }
  }

  // ---------------------------------------------------------------------------
  // Import

  /**
   * A JSON document after `JSON.parse`, as far as `importTreeFromJSON` looks at it:
   * the record it will be taken as, and whether its `nodes` member is an array.
   * A missing `id` or `name` is the empty string, which is falsy like `undefined`.
   */
  datatype ParsedTree = ParsedTree(tree: TalentTree, nodesIsArray: bool)

  /**
   * `importTreeFromJSON` on the outcome of parsing (`None` when the text does not
   * parse): the tree, when `id` and `name` are truthy and `nodes` is an array;
   * otherwise the import fails.
   */
  function ImportTreeFromJSON(parsed: Option<ParsedTree>): (r: Option<TalentTree>)
    ensures r.Some? <==>
      parsed.Some? && parsed.value.tree.id != "" && parsed.value.tree.name != "" && parsed.value.nodesIsArray
    ensures r.Some? ==> r == Some(parsed.value.tree)
  {
    match parsed
    case None => None
    case Some(p) => if p.tree.id == "" || p.tree.name == "" || !p.nodesIsArray then None else Some(p.tree)
  }

  /**
   * A tree the editor starts from, with a non-empty generated id, passes the shape
   * check once serialized (its `nodes` is an array) and comes back unchanged.
   */
  lemma EmptyTreeImports(metadata: TreeMetadata, freshId: string)
    requires freshId != ""
    ensures ImportTreeFromJSON(Some(ParsedTree(CreateEmptyTree(metadata, freshId), true)))
      == Some(CreateEmptyTree(metadata, freshId))
  {
  }

  /** The edits of this module keep a tree's `id` and `name`, so they keep it importable. */
  lemma EditsKeepImportable(t: TalentTree, nodeId: string, node: TalentNode, updates: NodePatch,
                            position: Position, fromNodeId: string, connectionId: string)
    requires ImportTreeFromJSON(Some(ParsedTree(t, true))).Some?
    ensures ImportTreeFromJSON(Some(ParsedTree(AddNodeToTree(t, node), true))).Some?
    ensures ImportTreeFromJSON(Some(ParsedTree(RemoveNodeFromTree(t, nodeId), true))).Some?
    ensures ImportTreeFromJSON(Some(ParsedTree(UpdateNode(t, nodeId, updates), true))).Some?
    ensures ImportTreeFromJSON(Some(ParsedTree(MoveNode(t, nodeId, position), true))).Some?
    ensures ImportTreeFromJSON(Some(ParsedTree(AddConnectionToTree(t, fromNodeId, nodeId, connectionId), true))).Some?
    ensures ImportTreeFromJSON(Some(ParsedTree(RemoveConnection(t, connectionId), true))).Some?
  {
  }
}
