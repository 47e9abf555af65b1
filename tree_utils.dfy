/**
 * The allocation engine (src/utils/tree-utils.ts): the state of each node in
 * simulate mode, and the guarded transitions that spend and refund points.
 * Every operation returns a new `TalentTreeState`; none changes its argument.
 */
module TreeUtils {
  import opened Wrappers
  import opened Seqs
  import opened TalentTypes

  /** `treeState.selectedNodes[id] || 0`: a node with no entry has 0 ranks. */
  function Ranks(s: TalentTreeState, id: string): (ranks: int)
  {
    if id in s.selectedNodes then s.selectedNodes[id] else 0
  }

  predicate NonNegativeRanks(s: TalentTreeState)
  {
    forall k :: k in s.selectedNodes ==> s.selectedNodes[k] >= 0
  }

  /** Every stored rank is positive: in particular no entry is a stored 0. */
  predicate PositiveRanks(s: TalentTreeState)
  {
    forall k :: k in s.selectedNodes ==> s.selectedNodes[k] > 0
  }

  /** The sum of the values of a rank map. */
  ghost function RankSum(m: map<string, int>): (sum: int)
    decreases m.Keys
  {
    if m.Keys == {} then 0
    else
      var k :| k in m.Keys;
      m[k] + RankSum(m - {k})
  }

  /** A well-formed simulation state for a budget: positive ranks, no debt, conserved total. */
  ghost predicate ValidState(s: TalentTreeState, budget: int)
  {
    && PositiveRanks(s)
    && s.availablePoints >= 0
    && s.availablePoints + s.spentPoints == budget
    && s.spentPoints == RankSum(s.selectedNodes)
  }

  // ---------------------------------------------------------------------------
  // Tier spend and node state

  /** `node.gridY <= tier`; a node without `gridY` is in no tier (`undefined <= t` is false). */
  predicate InTier(n: TalentNode, tier: int)
  {
    n.gridY.Some? && n.gridY.value <= tier
  }

  /** `getTierSpentPoints`: the ranks allocated to the nodes whose row is at most `tier`. */
  function TierSpentPoints(tier: int, s: TalentTreeState, nodes: seq<TalentNode>): (total: int)
    ensures NonNegativeRanks(s) ==> total >= 0
    ensures (forall n :: n in nodes ==> !InTier(n, tier)) ==> total == 0
  {
    if nodes == [] then 0
    else
      var last := nodes[|nodes| - 1];
      TierSpentPoints(tier, s, nodes[..|nodes| - 1]) + (if InTier(last, tier) then Ranks(s, last.id) else 0)
  }

  /** With non-negative ranks, raising the tier bound never lowers the tier spend. */
  lemma {:induction false} TierSpentPointsMonotone(t1: int, t2: int, s: TalentTreeState, nodes: seq<TalentNode>)
    requires t1 <= t2
    requires NonNegativeRanks(s)
    ensures TierSpentPoints(t1, s, nodes) <= TierSpentPoints(t2, s, nodes)
  {
    if nodes != [] {
      TierSpentPointsMonotone(t1, t2, s, nodes[..|nodes| - 1]);
    }
  }

  /** Every prerequisite id resolves to a node of the tree that holds at least one rank. */
  predicate PrerequisitesMet(node: TalentNode, s: TalentTreeState, tree: TalentTree)
    ensures node.prerequisites == [] ==> PrerequisitesMet(node, s, tree)
    ensures PrerequisitesMet(node, s, tree) <==>
      forall p :: p in node.prerequisites ==>
        p in s.selectedNodes && s.selectedNodes[p] > 0 && exists n :: n in tree.nodes && n.id == p
  {
    forall p :: p in node.prerequisites ==> FindNode(tree.nodes, p).Some? && Ranks(s, p) > 0
  }

  /**
   * The points spent in the rows above the node (`getTierSpentPoints(node.gridY - 1)`).
   * Without `gridY` the bound is `NaN`, no node is counted and the spend is 0.
   */
  function TierSpendAbove(node: TalentNode, s: TalentTreeState, tree: TalentTree): (spend: int)
    ensures node.gridY.None? ==> spend == 0
    ensures NonNegativeRanks(s) ==> spend >= 0
  {
    match node.gridY
    case None => 0
    case Some(g) => TierSpentPoints(g - 1, s, tree.nodes)
  }

  predicate TierRequirementMet(node: TalentNode, s: TalentTreeState, tree: TalentTree)
  {
    TierSpendAbove(node, s, tree) >= node.requiredPoints
  }

  /** `calculateTalentState`: the five states partition the cases, checked in this order. */
  function CalculateTalentState(node: TalentNode, s: TalentTreeState, tree: TalentTree): (st: TalentState)
    ensures st == Maxed <==> Ranks(s, node.id) >= node.maxRanks
    ensures st == Selected <==> 0 < Ranks(s, node.id) < node.maxRanks
    ensures st == Available <==>
      && Ranks(s, node.id) <= 0 && Ranks(s, node.id) < node.maxRanks
      && PrerequisitesMet(node, s, tree) && TierRequirementMet(node, s, tree)
      && s.availablePoints > 0
    ensures st == Unlocked <==>
      && Ranks(s, node.id) <= 0 && Ranks(s, node.id) < node.maxRanks
      && PrerequisitesMet(node, s, tree) && TierRequirementMet(node, s, tree)
      && s.availablePoints <= 0
    ensures st == Locked <==>
      && Ranks(s, node.id) <= 0 && Ranks(s, node.id) < node.maxRanks
      && !(PrerequisitesMet(node, s, tree) && TierRequirementMet(node, s, tree))
  {
    var currentRanks := Ranks(s, node.id);
    if currentRanks >= node.maxRanks then Maxed
    else if currentRanks > 0 then Selected
    else
      var prerequisitesMet := PrerequisitesMet(node, s, tree);
      var tierRequirementMet := TierRequirementMet(node, s, tree);
      if prerequisitesMet && tierRequirementMet && s.availablePoints > 0 then Available
      else if prerequisitesMet && tierRequirementMet then Unlocked
      else Locked
  }

  // ---------------------------------------------------------------------------
  // Allocation

  /** `canAllocatePoint`: the node exists, is below its maximum, and its state is AVAILABLE. */
  function CanAllocatePoint(nodeId: string, s: TalentTreeState, tree: TalentTree): (ok: bool)
    ensures ok <==>
      && FindNode(tree.nodes, nodeId).Some?
      && Ranks(s, nodeId) <= 0
      && Ranks(s, nodeId) < FindNode(tree.nodes, nodeId).value.maxRanks
      && PrerequisitesMet(FindNode(tree.nodes, nodeId).value, s, tree)
      && TierRequirementMet(FindNode(tree.nodes, nodeId).value, s, tree)
      && s.availablePoints > 0
  {
    match FindNode(tree.nodes, nodeId)
    case None => false
    case Some(node) =>
      Ranks(s, nodeId) < node.maxRanks && CalculateTalentState(node, s, tree) == Available
  }

  /** `allocatePoint`: one more rank on the node and one point moved from available to spent, or no change. */
  function AllocatePoint(nodeId: string, s: TalentTreeState, tree: TalentTree): (r: TalentTreeState)
    ensures !CanAllocatePoint(nodeId, s, tree) ==> r == s
    ensures CanAllocatePoint(nodeId, s, tree) ==>
      && Ranks(r, nodeId) == Ranks(s, nodeId) + 1
      && r.availablePoints == s.availablePoints - 1
      && r.spentPoints == s.spentPoints + 1
      && r.hoveredNode == s.hoveredNode
    ensures r.selectedNodes - {nodeId} == s.selectedNodes - {nodeId}
    ensures r.availablePoints + r.spentPoints == s.availablePoints + s.spentPoints
    ensures s.availablePoints >= 0 ==> r.availablePoints >= 0
    ensures NonNegativeRanks(s) && r != s ==> Ranks(s, nodeId) == 0 && Ranks(r, nodeId) == 1
    ensures NonNegativeRanks(s) ==> NonNegativeRanks(r)
    ensures PositiveRanks(s) ==> PositiveRanks(r)
  {
    if !CanAllocatePoint(nodeId, s, tree) then s
    else
      var newSelectedNodes := s.selectedNodes[nodeId := Ranks(s, nodeId) + 1];
      s.(selectedNodes := newSelectedNodes,
         availablePoints := s.availablePoints - 1,
         spentPoints := s.spentPoints + 1)
  }

  /** A node that was just given a point cannot be given a second one: its state is no longer AVAILABLE. */
  lemma SecondAllocationRefused(nodeId: string, s: TalentTreeState, tree: TalentTree)
    requires NonNegativeRanks(s)
    requires CanAllocatePoint(nodeId, s, tree)
    ensures !CanAllocatePoint(nodeId, AllocatePoint(nodeId, s, tree), tree)
  {
  }

  // ---------------------------------------------------------------------------
  // Deallocation

  /** Some node that lists `nodeId` as a prerequisite holds a rank. */
  predicate HasActiveDependent(nodes: seq<TalentNode>, nodeId: string, s: TalentTreeState)
  {
    exists d :: d in nodes && nodeId in d.prerequisites && Ranks(s, d.id) > 0
  }

  /** The early-exit loop of `canDeallocatePoint` over the dependents: is some dependent blocking? */
  function DependentBlocks(dependents: seq<TalentNode>, s: TalentTreeState, currentRanks: int): (blocked: bool)
    ensures blocked <==> currentRanks == 1 && exists d :: d in dependents && Ranks(s, d.id) > 0
  {
    if dependents == [] then false
    else if Ranks(s, dependents[0].id) > 0 && currentRanks == 1 then true
    else DependentBlocks(dependents[1..], s, currentRanks)
  }

  /**
   * `canDeallocatePoint`: the node exists and holds a rank, and it is not its last
   * rank while some dependent holds one.
   */
  function CanDeallocatePoint(nodeId: string, s: TalentTreeState, tree: TalentTree): (ok: bool)
    ensures ok ==> FindNode(tree.nodes, nodeId).Some? && Ranks(s, nodeId) != 0
    ensures FindNode(tree.nodes, nodeId).Some? && Ranks(s, nodeId) != 0 ==>
      (!ok <==> Ranks(s, nodeId) == 1 && HasActiveDependent(tree.nodes, nodeId, s))
  {
    match FindNode(tree.nodes, nodeId)
    case None => false
    case Some(_) =>
      var currentRanks := Ranks(s, nodeId);
      if currentRanks == 0 then false
      else
        var dependentNodes := Filter(tree.nodes, (n: TalentNode) => nodeId in n.prerequisites);
        !DependentBlocks(dependentNodes, s, currentRanks)
  }

  /** A node of the tree holding two or more ranks can always give one back. */
  lemma MultiRankAlwaysDeallocatable(nodeId: string, s: TalentTreeState, tree: TalentTree)
    requires FindNode(tree.nodes, nodeId).Some?
    requires Ranks(s, nodeId) >= 2
    ensures CanDeallocatePoint(nodeId, s, tree)
  {
  }

  /**
   * `deallocatePoint`: one rank fewer (the entry is deleted rather than set to 0)
   * and one point moved from spent to available, or no change.
   */
  function DeallocatePoint(nodeId: string, s: TalentTreeState, tree: TalentTree): (r: TalentTreeState)
    ensures !CanDeallocatePoint(nodeId, s, tree) ==> r == s
    ensures CanDeallocatePoint(nodeId, s, tree) ==>
      && Ranks(r, nodeId) == (if Ranks(s, nodeId) - 1 > 0 then Ranks(s, nodeId) - 1 else 0)
      && r.availablePoints == s.availablePoints + 1
      && r.spentPoints == s.spentPoints - 1
      && r.hoveredNode == s.hoveredNode
    ensures r.selectedNodes - {nodeId} == s.selectedNodes - {nodeId}
    ensures nodeId in r.selectedNodes ==> r.selectedNodes[nodeId] != 0 || r == s
    ensures r.availablePoints + r.spentPoints == s.availablePoints + s.spentPoints
    ensures s.availablePoints >= 0 ==> r.availablePoints >= 0
    ensures PositiveRanks(s) ==> PositiveRanks(r)
  {
    if !CanDeallocatePoint(nodeId, s, tree) then s
    else
      var lowered := Ranks(s, nodeId) - 1;
      var newRank := if lowered > 0 then lowered else 0;
      var newSelectedNodes :=
        if newRank == 0 then s.selectedNodes - {nodeId} else s.selectedNodes[nodeId := newRank];
      s.(selectedNodes := newSelectedNodes,
         availablePoints := s.availablePoints + 1,
         spentPoints := s.spentPoints - 1)
  }

  // ---------------------------------------------------------------------------
  // The sum of ranks

  lemma {:induction false} RankSumRemove(m: map<string, int>, k: string)
    requires k in m
    ensures RankSum(m) == m[k] + RankSum(m - {k})
    decreases m.Keys
  {
    var j :| j in m.Keys && RankSum(m) == m[j] + RankSum(m - {j});
    if j != k {
      RankSumRemove(m - {j}, k);
      RankSumRemove(m - {k}, j);
      assert m - {j} - {k} == m - {k} - {j};
    }
  }

  /** Setting one entry changes the sum by the difference of the new and the old value. */
  lemma RankSumUpdate(m: map<string, int>, k: string, v: int)
    ensures RankSum(m[k := v]) == RankSum(m - {k}) + v
    ensures k in m ==> RankSum(m) == RankSum(m - {k}) + m[k]
  {
    RankSumRemove(m[k := v], k);
    assert m[k := v] - {k} == m - {k};
    if k in m {
      RankSumRemove(m, k);
    }
  }

  /** `allocatePoint` keeps a valid state valid for the same budget. */
  lemma AllocatePreservesValid(nodeId: string, s: TalentTreeState, tree: TalentTree, budget: int)
    requires ValidState(s, budget)
    ensures ValidState(AllocatePoint(nodeId, s, tree), budget)
  {
    if CanAllocatePoint(nodeId, s, tree) {
      RankSumUpdate(s.selectedNodes, nodeId, Ranks(s, nodeId) + 1);
      if nodeId !in s.selectedNodes {
        assert s.selectedNodes - {nodeId} == s.selectedNodes;
      }
    }
  }

  /** `deallocatePoint` keeps a valid state valid for the same budget. */
  lemma DeallocatePreservesValid(nodeId: string, s: TalentTreeState, tree: TalentTree, budget: int)
    requires ValidState(s, budget)
    ensures ValidState(DeallocatePoint(nodeId, s, tree), budget)
  {
    if CanDeallocatePoint(nodeId, s, tree) {
      RankSumUpdate(s.selectedNodes, nodeId, Ranks(s, nodeId) - 1);
    }
  }

  // ---------------------------------------------------------------------------
  // Reset, import, connections

  /** `resetTree`: nothing allocated and the whole budget available. */
  function ResetTree(totalPoints: int): (r: TalentTreeState)
    requires totalPoints >= 0
    ensures ValidState(r, totalPoints)
    ensures r.availablePoints == totalPoints && r.hoveredNode.None?
    ensures forall id :: Ranks(r, id) == 0
  {
    TalentTreeState(map[], totalPoints, 0, None)
  }

  /** The entries of a parsed JSON object as a map. */
  function EntriesToMap(entries: seq<(string, int)>): (m: map<string, int>)
    ensures forall k :: k in m <==> exists i :: 0 <= i < |entries| && entries[i].0 == k
  {
    if entries == [] then map[]
    else
      var last := entries[|entries| - 1];
      var m' := EntriesToMap(entries[..|entries| - 1]);
      assert forall i :: 0 <= i < |entries| - 1 ==> entries[..|entries| - 1][i] == entries[i];
      m'[last.0 := last.1]
  }

  /** `Object.values(...).reduce((total, ranks) => total + ranks, 0)`. */
  function SumValues(entries: seq<(string, int)>): (total: int)
    ensures (forall i :: 0 <= i < |entries| ==> entries[i].1 >= 0) ==> total >= 0
    ensures (forall i :: 0 <= i < |entries| ==> entries[i].1 > 0) ==> total >= |entries|
  {
    if entries == [] then 0
    else SumValues(entries[..|entries| - 1]) + entries[|entries| - 1].1
  }

  /** The keys of a JavaScript object are distinct. */
  predicate DistinctKeys(entries: seq<(string, int)>)
  {
    forall i, j :: 0 <= i < j < |entries| ==> entries[i].0 != entries[j].0
  }

  /** For an object with distinct keys, the sum of the entries is the sum of the resulting map. */
  lemma {:induction false} SumValuesIsRankSum(entries: seq<(string, int)>)
    requires DistinctKeys(entries)
    ensures SumValues(entries) == RankSum(EntriesToMap(entries))
  {
    if entries == [] {
      assert EntriesToMap(entries).Keys == {};
    } else {
      var prefix := entries[..|entries| - 1];
      var last := entries[|entries| - 1];
      SumValuesIsRankSum(prefix);
      var m := EntriesToMap(prefix);
      RankSumUpdate(m, last.0, last.1);
      assert m - {last.0} == m;
    }
  }

  /**
   * `importTreeState`: the imported ranks as they are, `spentPoints` their sum and
   * `availablePoints` the rest of the budget. A missing `selectedNodes` is `{}`.
   */
  function ImportTreeState(exported: Option<seq<(string, int)>>, tree: TalentTree, totalPoints: int): (r: TalentTreeState)
    requires exported.Some? ==> DistinctKeys(exported.value)
    ensures r.selectedNodes == (if exported.Some? then EntriesToMap(exported.value) else map[])
    ensures r.spentPoints == RankSum(r.selectedNodes)
    ensures r.availablePoints + r.spentPoints == totalPoints
    ensures r.hoveredNode.None?
  {
    var entries := if exported.Some? then exported.value else [];
    var spentPoints := SumValues(entries);
    SumValuesIsRankSum(entries);
    TalentTreeState(EntriesToMap(entries), totalPoints - spentPoints, spentPoints, None)
  }

  /** An import whose ranks are positive and within the budget is a valid state for it. */
  lemma ImportTreeStateValid(entries: seq<(string, int)>, tree: TalentTree, totalPoints: int)
    requires DistinctKeys(entries)
    requires forall i :: 0 <= i < |entries| ==> entries[i].1 > 0
    requires SumValues(entries) <= totalPoints
    ensures ValidState(ImportTreeState(Some(entries), tree, totalPoints), totalPoints)
  {
    var r := ImportTreeState(Some(entries), tree, totalPoints);
    forall k | k in r.selectedNodes ensures r.selectedNodes[k] > 0 {
      EntryValue(entries, k);
    }
  }

  /** Each value of the map is the value of some entry. */
  lemma {:induction false} EntryValue(entries: seq<(string, int)>, k: string)
    requires k in EntriesToMap(entries)
    ensures exists i :: 0 <= i < |entries| && entries[i] == (k, EntriesToMap(entries)[k])
  {
    var last := entries[|entries| - 1];
    if last.0 != k {
      var prefix := entries[..|entries| - 1];
      EntryValue(prefix, k);
      var i :| 0 <= i < |prefix| && prefix[i] == (k, EntriesToMap(prefix)[k]);
      assert entries[i] == prefix[i];
    }
  }

  /** `getConnectionState`: a connection is active when both ends hold a rank. */
  function GetConnectionState(c: TalentConnection, s: TalentTreeState): (active: bool)
    ensures active ==> c.from in s.selectedNodes && c.to in s.selectedNodes
    ensures PositiveRanks(s) ==> (active <==> c.from in s.selectedNodes && c.to in s.selectedNodes)
  {
    var fromRanks := Ranks(s, c.from);
    var toRanks := Ranks(s, c.to);
    fromRanks > 0 && toRanks > 0
  }

  // ---------------------------------------------------------------------------
  // Click sequences (src/hooks/useTalentTree.ts routes each click to one transition)

  /** A click on a node in simulate mode: a right-click refunds a point, a left-click spends one. */
  datatype Click = Click(nodeId: string, isRightClick: bool)

  function HandleNodeClick(s: TalentTreeState, tree: TalentTree, c: Click): (r: TalentTreeState)
    ensures c.isRightClick ==> r == DeallocatePoint(c.nodeId, s, tree)
    ensures !c.isRightClick ==> r == AllocatePoint(c.nodeId, s, tree)
    ensures r.availablePoints + r.spentPoints == s.availablePoints + s.spentPoints
  {
    if c.isRightClick then DeallocatePoint(c.nodeId, s, tree) else AllocatePoint(c.nodeId, s, tree)
  }

  /** The state after a sequence of clicks, in order. */
  function ReplayClicks(s: TalentTreeState, tree: TalentTree, clicks: seq<Click>): (r: TalentTreeState)
  {
    if clicks == [] then s
    else HandleNodeClick(ReplayClicks(s, tree, clicks[..|clicks| - 1]), tree, clicks[|clicks| - 1])
  }

  /** Budget conservation over any click sequence: a valid state stays valid for the same budget. */
  lemma {:induction false} ReplayKeepsValid(s: TalentTreeState, tree: TalentTree, clicks: seq<Click>, budget: int)
    requires ValidState(s, budget)
    ensures ValidState(ReplayClicks(s, tree, clicks), budget)
  {
    if clicks != [] {
      ReplayKeepsValid(s, tree, clicks[..|clicks| - 1], budget);
      var before := ReplayClicks(s, tree, clicks[..|clicks| - 1]);
      var c := clicks[|clicks| - 1];
      if c.isRightClick {
        DeallocatePreservesValid(c.nodeId, before, tree, budget);
      } else {
        AllocatePreservesValid(c.nodeId, before, tree, budget);
      }
    }
  }

  predicate AtMostOneRank(s: TalentTreeState)
  {
    forall k :: k in s.selectedNodes ==> s.selectedNodes[k] <= 1
  }

  /**
   * A consequence of the state order: since a node holding a rank is never
   * AVAILABLE, no click sequence from a reset state gives any node a second
   * rank, whatever its `maxRanks`.
   */
  lemma {:induction false} ReplayFromResetAtMostOneRank(totalPoints: int, tree: TalentTree, clicks: seq<Click>)
    requires totalPoints >= 0
    ensures var r := ReplayClicks(ResetTree(totalPoints), tree, clicks);
      NonNegativeRanks(r) && AtMostOneRank(r)
  {
    if clicks != [] {
      ReplayFromResetAtMostOneRank(totalPoints, tree, clicks[..|clicks| - 1]);
    }
  }

  // ---------------------------------------------------------------------------
  // A worked scenario: budget 5, N0 in row 0, N1 in row 1 needing N0 and 1 point above

  function ScenarioNode(id: string, row: int, requiredPoints: int, prerequisites: seq<string>): (n: TalentNode)
  {
    TalentNode(id, id, "", "", 1, 0, requiredPoints, prerequisites, [], Some(0), Some(row), None, None, None, None)
  }

  /**
   * N1 starts LOCKED; one point on N0 maxes it and makes N1 AVAILABLE; a point on
   * N1 leaves 2 spent and 3 available. N0 then cannot be refunded while N1 holds
   * its rank, and can once N1's rank is refunded.
   */
  lemma AllocationScenario()
    ensures
      var n0 := ScenarioNode("N0", 0, 0, []);
      var n1 := ScenarioNode("N1", 1, 1, ["N0"]);
      var tree := TalentTree("t", "t", "", 5, 0, [n0, n1], []);
      var s0 := ResetTree(5);
      var s1 := AllocatePoint("N0", s0, tree);
      var s2 := AllocatePoint("N1", s1, tree);
      && CalculateTalentState(n1, s0, tree) == Locked
      && CalculateTalentState(n0, s1, tree) == Maxed
      && CalculateTalentState(n1, s1, tree) == Available
      && s2.spentPoints == 2 && s2.availablePoints == 3
      && !CanDeallocatePoint("N0", s2, tree)
      && CanDeallocatePoint("N0", DeallocatePoint("N1", s2, tree), tree)
  {
    var n0 := ScenarioNode("N0", 0, 0, []);
    var n1 := ScenarioNode("N1", 1, 1, ["N0"]);
    var tree := TalentTree("t", "t", "", 5, 0, [n0, n1], []);
    var s0 := ResetTree(5);
    var s1 := AllocatePoint("N0", s0, tree);
    assert TierSpentPoints(0, s1, tree.nodes) == 1 by {
      assert tree.nodes[..1] == [n0];
      assert tree.nodes[..1][..0] == [];
    }
    assert s1.selectedNodes == map["N0" := 1];
    assert PrerequisitesMet(n1, s1, tree) by {
      assert FindNode(tree.nodes, "N0") == Some(n0);
    }
    var s2 := AllocatePoint("N1", s1, tree);
    assert HasActiveDependent(tree.nodes, "N0", s2) by {
      assert n1 in tree.nodes;
    }
    var s3 := DeallocatePoint("N1", s2, tree);
    assert !HasActiveDependent(tree.nodes, "N0", s3);
  }
}
