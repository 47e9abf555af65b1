/**
 * `validateTree` (src/utils/editor-utils.ts): one error per connection with a
 * missing endpoint, then a depth-first search over the prerequisite relation
 * that reports at most one cycle.
 */
module EditorValidation {
  import opened Wrappers
  import opened Seqs
  import opened TalentTypes

  const INVALID_CONNECTION_PREFIX := "Invalid connection: "
  const CIRCULAR_DEPENDENCY_PREFIX := "Circular dependency detected involving node: "

  // ---------------------------------------------------------------------------
  // Orphaned connections

  /** `tree.nodes.some(n => n.id === id)`. */
  predicate NodeExists(nodes: seq<TalentNode>, id: string)
  {
    exists n :: n in nodes && n.id == id
  }

  predicate IsOrphan(c: TalentConnection, nodes: seq<TalentNode>)
  {
    !NodeExists(nodes, c.from) || !NodeExists(nodes, c.to)
  }

  /** The connections with a missing endpoint, in connection order. */
  function OrphanConnections(connections: seq<TalentConnection>, nodes: seq<TalentNode>): (orphans: seq<TalentConnection>)
  {
    Filter(connections, (c: TalentConnection) => IsOrphan(c, nodes))
  }

  /** The orphan-connection errors, one per orphaned connection, in connection order. */
  function OrphanErrors(connections: seq<TalentConnection>, nodes: seq<TalentNode>): (errors: seq<string>)
    ensures |errors| <= |connections|
    ensures forall e :: e in errors ==> exists c :: c in connections && IsOrphan(c, nodes) && e == INVALID_CONNECTION_PREFIX + c.id
    ensures (forall c :: c in connections ==> !IsOrphan(c, nodes)) <==> errors == []
  {
    if connections == [] then []
    else
      var prefix := connections[..|connections| - 1];
      var last := connections[|connections| - 1];
      var before := OrphanErrors(prefix, nodes);
      assert connections == prefix + [last];
      if IsOrphan(last, nodes) then before + [INVALID_CONNECTION_PREFIX + last.id] else before
  }

  /**
   * The errors correspond one to one, in order, to the orphaned connections, so
   * every orphaned connection is reported.
   */
  lemma {:induction false} OrphanErrorsMatchOrphans(connections: seq<TalentConnection>, nodes: seq<TalentNode>)
    ensures |OrphanErrors(connections, nodes)| == |OrphanConnections(connections, nodes)|
    ensures forall i :: 0 <= i < |OrphanErrors(connections, nodes)| ==>
              OrphanErrors(connections, nodes)[i] == INVALID_CONNECTION_PREFIX + OrphanConnections(connections, nodes)[i].id
  {
    if connections != [] {
      var prefix := connections[..|connections| - 1];
      var last := connections[|connections| - 1];
      OrphanErrorsMatchOrphans(prefix, nodes);
      assert connections == prefix + [last];
      FilterAppend(prefix, [last], (c: TalentConnection) => IsOrphan(c, nodes));
    }
  }

  lemma OrphansAllReported(connections: seq<TalentConnection>, nodes: seq<TalentNode>, c: TalentConnection)
    requires c in connections && IsOrphan(c, nodes)
    ensures INVALID_CONNECTION_PREFIX + c.id in OrphanErrors(connections, nodes)
  {
    OrphanErrorsMatchOrphans(connections, nodes);
    var orphans := OrphanConnections(connections, nodes);
    assert c in orphans;
    var k :| 0 <= k < |orphans| && orphans[k] == c;
    assert OrphanErrors(connections, nodes)[k] == INVALID_CONNECTION_PREFIX + c.id;
  }

  /** The edges out of `u`: the prerequisites of the first node with id `u`, or none. */
  function Prereqs(nodes: seq<TalentNode>, u: string): (edges: seq<string>)
  {
    match FindNode(nodes, u)
    case None => []
    case Some(n) => n.prerequisites
  }

  /** The edges out of `u` are those of the first node with that id, and there are none when no node has it. */
  lemma PrereqsOfFirstNode(nodes: seq<TalentNode>, u: string)
    ensures (forall n :: n in nodes ==> n.id != u) ==> Prereqs(nodes, u) == []
    ensures forall i :: (0 <= i < |nodes| && nodes[i].id == u && (forall j :: 0 <= j < i ==> nodes[j].id != u))
                          ==> Prereqs(nodes, u) == nodes[i].prerequisites
  {
    forall i | 0 <= i < |nodes| && nodes[i].id == u && (forall j :: 0 <= j < i ==> nodes[j].id != u)
      ensures Prereqs(nodes, u) == nodes[i].prerequisites
    {
      var r := FindNode(nodes, u);
      FindNodeFirst(nodes, u);
      var k :| 0 <= k < |nodes| && nodes[k] == r.value && forall j :: 0 <= j < k ==> !(nodes[j].id == u);
      assert k == i;
    }
  }

  ghost predicate IsPath(nodes: seq<TalentNode>, path: seq<string>)
  {
    forall i :: 0 <= i < |path| - 1 ==> path[i + 1] in Prereqs(nodes, path[i])
  }

  /** A closed walk of at least one edge; a node listing itself is a cycle of one edge. */
  ghost predicate IsCycle(nodes: seq<TalentNode>, path: seq<string>)
  {
    |path| >= 2 && path[0] == path[|path| - 1] && IsPath(nodes, path)
  }

  ghost predicate HasCycle(nodes: seq<TalentNode>)
  {
    exists path :: IsCycle(nodes, path)
  }

  /** A walk from `u` whose last id already occurred on it: the walk runs into a cycle. */
  ghost predicate LassoFrom(nodes: seq<TalentNode>, u: string, path: seq<string>)
  {
    |path| >= 2 && path[0] == u && IsPath(nodes, path) && path[|path| - 1] in path[..|path| - 1]
  }

  /** A cycle can be reached from `u` (possibly `u` itself lies on it). */
  ghost predicate CycleReachableFrom(nodes: seq<TalentNode>, u: string)
  {
    exists path :: LassoFrom(nodes, u, path)
  }

  lemma IsPathSlice(nodes: seq<TalentNode>, path: seq<string>, i: nat, j: nat)
    requires IsPath(nodes, path) && i <= j <= |path|
    ensures IsPath(nodes, path[i..j])
  {
    forall k | 0 <= k < j - i - 1
      ensures path[i..j][k + 1] in Prereqs(nodes, path[i..j][k])
    {
      assert path[i..j][k] == path[i + k] && path[i..j][k + 1] == path[i + k + 1];
    }
  }

  /** Every id the search can reach: the node ids and every listed prerequisite. */
  ghost function Vertices(nodes: seq<TalentNode>): (ids: set<string>)
  {
    (set n | n in nodes :: n.id) + (set n, p | n in nodes && p in n.prerequisites :: p)
  }

  lemma PrereqsAreVertices(nodes: seq<TalentNode>, u: string)
    ensures forall v :: v in Prereqs(nodes, u) ==> v in Vertices(nodes)
  {
    match FindNode(nodes, u)
    case None =>
    case Some(n) =>
      assert forall v :: v in n.prerequisites ==> v in (set n, p | n in nodes && p in n.prerequisites :: p);
  }

  /** Every id on a cycle, except the closing repeat, names a node of the tree: missing ids have no edges. */
  lemma CycleThroughExistingNodes(nodes: seq<TalentNode>, path: seq<string>)
    requires IsCycle(nodes, path)
    ensures forall i :: 0 <= i < |path| ==> NodeExists(nodes, path[i])
  {
    forall i | 0 <= i < |path|
      ensures NodeExists(nodes, path[i])
    {
      var j := if i < |path| - 1 then i else 0;
      assert path[j] == path[i];
      assert path[j + 1] in Prereqs(nodes, path[j]);
      var n := FindNode(nodes, path[j]).value;
      assert n in nodes && n.id == path[i];
    }
  }

  // ---------------------------------------------------------------------------
  // The search

  /**
   * What holds between calls of the search: `recursionStack` is the set of ids on
   * the current path, `visited` is that set plus the finished ids `done`, and each
   * finished id's prerequisites finished before it.
   */
  ghost predicate SearchInvariant(nodes: seq<TalentNode>, visited: set<string>, recursionStack: set<string>,
                                  path: seq<string>, done: seq<string>)
  {
    && (forall x :: x in recursionStack <==> x in path)
    && IsPath(nodes, path)
    && (forall x :: x in visited <==> x in recursionStack || x in done)
    && (forall x :: x in done ==> x !in recursionStack)
    && (forall i, j :: 0 <= i < j < |done| ==> done[i] != done[j])
    && (forall i, v :: 0 <= i < |done| && v in Prereqs(nodes, done[i]) ==> v in done[..i])
  }

  /** Meeting an id already on the current path closes a cycle, reachable from the path's start. */
  lemma StackHit(nodes: seq<TalentNode>, path: seq<string>, nodeId: string)
    requires IsPath(nodes, path) && nodeId in path
    requires nodeId in Prereqs(nodes, path[|path| - 1])
    ensures HasCycle(nodes) && CycleReachableFrom(nodes, (path + [nodeId])[0])
  {
    var k :| 0 <= k < |path| && path[k] == nodeId;
    var lasso := path + [nodeId];
    assert IsPath(nodes, lasso) by {
      forall i | 0 <= i < |lasso| - 1
        ensures lasso[i + 1] in Prereqs(nodes, lasso[i])
      {
        if i < |path| - 1 {
          assert lasso[i] == path[i] && lasso[i + 1] == path[i + 1];
        }
      }
    }
    assert lasso[..|lasso| - 1] == path;
    assert LassoFrom(nodes, lasso[0], lasso);
    IsPathSlice(nodes, lasso, k, |lasso|);
    assert IsCycle(nodes, lasso[k..]);
  }

  /**
   * `hasCycle(nodeId)`: true when the search meets an id already on its path.
   * When it returns false, `nodeId` and everything reachable from it are finished,
   * the recursion stack is as it was, and `visited` has only grown.
   */
  method HasCycleFrom(nodes: seq<TalentNode>, nodeId: string, visited: set<string>, recursionStack: set<string>,
                      ghost path: seq<string>, ghost done: seq<string>)
    returns (found: bool, visited': set<string>, recursionStack': set<string>, ghost done': seq<string>)
    requires nodeId in Vertices(nodes) && visited <= Vertices(nodes)
    requires SearchInvariant(nodes, visited, recursionStack, path, done)
    requires path != [] ==> nodeId in Prereqs(nodes, path[|path| - 1])
    ensures found ==> HasCycle(nodes) && CycleReachableFrom(nodes, (path + [nodeId])[0])
    ensures !found ==> !CycleReachableFrom(nodes, nodeId)
    ensures !found ==>
      && visited <= visited' <= Vertices(nodes)
      && recursionStack' == recursionStack
      && (forall x :: x in done ==> x in done')
      && nodeId in done'
      && SearchInvariant(nodes, visited', recursionStack', path, done')
    decreases Vertices(nodes) - visited
  {
    if nodeId in recursionStack {
      StackHit(nodes, path, nodeId);
      return true, visited, recursionStack, done;
    }
    if nodeId in visited {
      NoLassoFromFinished(nodes, done, nodeId);
      return false, visited, recursionStack, done;
    }

    visited' := visited + {nodeId};
    recursionStack' := recursionStack + {nodeId};
    done' := done;
    ghost var path' := path + [nodeId];

    var node := FindNode(nodes, nodeId);
    var prerequisites := if node.Some? then node.value.prerequisites else [];
    assert prerequisites == Prereqs(nodes, nodeId);
    PrereqsAreVertices(nodes, nodeId);
    for i := 0 to |prerequisites|
      invariant visited + {nodeId} <= visited' <= Vertices(nodes)
      invariant recursionStack' == recursionStack + {nodeId}
      invariant forall x :: x in done ==> x in done'
      invariant SearchInvariant(nodes, visited', recursionStack', path', done')
      invariant forall j :: 0 <= j < i ==> prerequisites[j] in done'
    {
      var f;
      ghost var before := done';
      f, visited', recursionStack', done' :=
        HasCycleFrom(nodes, prerequisites[i], visited', recursionStack', path', done');
      if f {
        assert (path' + [prerequisites[i]])[0] == (path + [nodeId])[0];
        return true, visited', recursionStack', done';
      }
    }

    recursionStack' := recursionStack' - {nodeId};
    ghost var finished := done';
    done' := done' + [nodeId];
    assert forall i :: 0 <= i < |finished| ==> done'[..i] == finished[..i];
    assert done'[..|finished|] == finished;
    NoLassoFromFinished(nodes, done', nodeId);
    return false, visited', recursionStack', done';
  }

  /** No cycle runs through finished ids: along a path, finish positions strictly decrease. */
  lemma {:induction false} PathDescends(nodes: seq<TalentNode>, done: seq<string>, path: seq<string>, start: nat)
    returns (k: nat)
    requires forall i, v :: 0 <= i < |done| && v in Prereqs(nodes, done[i]) ==> v in done[..i]
    requires IsPath(nodes, path) && |path| >= 1
    requires start < |done| && path[0] == done[start]
    ensures k < |done| && path[|path| - 1] == done[k]
    ensures |path| >= 2 ==> k < start
    ensures k <= start
    decreases |path|
  {
    if |path| == 1 {
      k := start;
    } else {
      var prefix := path[..|path| - 1];
      assert IsPath(nodes, prefix) by {
        forall i | 0 <= i < |prefix| - 1 ensures prefix[i + 1] in Prereqs(nodes, prefix[i]) {
          assert prefix[i] == path[i] && prefix[i + 1] == path[i + 1];
        }
      }
      var k' := PathDescends(nodes, done, prefix, start);
      assert path[|path| - 1] in Prereqs(nodes, done[k']);
      assert path[|path| - 1] in done[..k'];
      var j :| 0 <= j < k' && done[..k'][j] == path[|path| - 1];
      k := j;
    }
  }

  /** No walk from a finished id runs into a cycle: its finish positions would have to repeat. */
  lemma NoLassoFromFinished(nodes: seq<TalentNode>, done: seq<string>, u: string)
    requires forall i, v :: 0 <= i < |done| && v in Prereqs(nodes, done[i]) ==> v in done[..i]
    requires forall i, j :: 0 <= i < j < |done| ==> done[i] != done[j]
    requires u in done
    ensures !CycleReachableFrom(nodes, u)
  {
    if CycleReachableFrom(nodes, u) {
      var path :| LassoFrom(nodes, u, path);
      var last := |path| - 1;
      var k :| 0 <= k < last && path[..last][k] == path[last];
      var start :| 0 <= start < |done| && done[start] == u;
      var toLoop, loop := path[..k + 1], path[k..];
      assert toLoop[0] == u && toLoop[k] == path[k];
      assert loop[0] == path[k] && loop[|loop| - 1] == path[last] && |loop| >= 2;
      IsPathSlice(nodes, path, 0, k + 1);
      var a := PathDescends(nodes, done, toLoop, start);
      IsPathSlice(nodes, path, k, |path|);
      var b := PathDescends(nodes, done, loop, a);
    }
  }

  /** Once every node id is finished with no cycle found, the prerequisite relation has no cycle. */
  lemma NoCycleWhenAllFinished(nodes: seq<TalentNode>, done: seq<string>)
    requires forall i, v :: 0 <= i < |done| && v in Prereqs(nodes, done[i]) ==> v in done[..i]
    requires forall i, j :: 0 <= i < j < |done| ==> done[i] != done[j]
    requires forall n :: n in nodes ==> n.id in done
    ensures !HasCycle(nodes)
  {
    if HasCycle(nodes) {
      var path :| IsCycle(nodes, path);
      assert path[1] in Prereqs(nodes, path[0]);
      var start :| 0 <= start < |done| && done[start] == path[0];
      var k := PathDescends(nodes, done, path, start);
    }
  }

  /**
   * The `for (const node of tree.nodes)` loop of `validateTree`: the first node of the
   * list from which a cycle can be reached, and one is found exactly when there is a
   * cycle. The node found need not lie on the cycle itself.
   */
  method FirstCycleNode(nodes: seq<TalentNode>) returns (r: Option<TalentNode>)
    ensures r.Some? <==> HasCycle(nodes)
    ensures r.Some? ==> exists i :: 0 <= i < |nodes| && nodes[i] == r.value && CycleReachableFrom(nodes, nodes[i].id)
                                    && forall j :: 0 <= j < i ==> !CycleReachableFrom(nodes, nodes[j].id)
    ensures r.None? ==> forall j :: 0 <= j < |nodes| ==> !CycleReachableFrom(nodes, nodes[j].id)
  {
    var visited: set<string> := {};
    var recursionStack: set<string> := {};
    ghost var done: seq<string> := [];
    for i := 0 to |nodes|
      invariant visited <= Vertices(nodes) && recursionStack == {}
      invariant SearchInvariant(nodes, visited, recursionStack, [], done)
      invariant forall j :: 0 <= j < i ==> nodes[j].id in done
      invariant forall j :: 0 <= j < i ==> !CycleReachableFrom(nodes, nodes[j].id)
    {
      assert nodes[i].id in Vertices(nodes);
      var found;
      found, visited, recursionStack, done := HasCycleFrom(nodes, nodes[i].id, visited, recursionStack, [], done);
      if found {
        assert ([] + [nodes[i].id])[0] == nodes[i].id;
        return Some(nodes[i]);
      }
    }
    NoCycleWhenAllFinished(nodes, done);
    return None;
  }

  /**
   * `validateTree`: the orphan-connection errors in connection order, then one
   * circular-dependency error exactly when the prerequisite relation has a cycle,
   * naming the first node of the list from which a cycle can be reached.
   */
  method ValidateTree(t: TalentTree) returns (errors: seq<string>)
    ensures |errors| == |OrphanErrors(t.connections, t.nodes)| + (if HasCycle(t.nodes) then 1 else 0)
    ensures errors[..|OrphanErrors(t.connections, t.nodes)|] == OrphanErrors(t.connections, t.nodes)
    ensures HasCycle(t.nodes) ==>
      exists i :: 0 <= i < |t.nodes| && errors[|errors| - 1] == CIRCULAR_DEPENDENCY_PREFIX + t.nodes[i].name
                  && CycleReachableFrom(t.nodes, t.nodes[i].id)
                  && forall j :: 0 <= j < i ==> !CycleReachableFrom(t.nodes, t.nodes[j].id)
    ensures |errors| <= |t.connections| + 1
  {
    errors := [];
    for i := 0 to |t.connections|
      invariant errors == OrphanErrors(t.connections[..i], t.nodes)
    {
      var connection := t.connections[i];
      var fromExists := exists n :: n in t.nodes && n.id == connection.from;
      var toExists := exists n :: n in t.nodes && n.id == connection.to;
      assert t.connections[..i + 1][..i] == t.connections[..i];
      if !fromExists || !toExists {
        errors := errors + [INVALID_CONNECTION_PREFIX + connection.id];
      }
    }
    assert t.connections[..|t.connections|] == t.connections;

    var cycleNode := FirstCycleNode(t.nodes);
    if cycleNode.Some? {
      ghost var orphanErrors := errors;
      errors := errors + [CIRCULAR_DEPENDENCY_PREFIX + cycleNode.value.name];
      assert errors[..|orphanErrors|] == orphanErrors;
    }
  }

  // ---------------------------------------------------------------------------
  // Examples

  function Talent(id: string, prerequisites: seq<string>): (n: TalentNode)
  {
    TalentNode(id, id, "", "", 1, 0, 0, prerequisites, [], None, None, None, None, None, None)
  }

  /** A node listing itself, and two nodes listing each other, are cycles; a chain is not. */
  lemma CycleExamples()
    ensures HasCycle([Talent("A", ["A"])])
    ensures HasCycle([Talent("A", ["B"]), Talent("B", ["A"])])
    ensures !HasCycle([Talent("A", []), Talent("B", ["A"]), Talent("C", ["B", "A"])])
  {
    var selfLoop := [Talent("A", ["A"])];
    assert Prereqs(selfLoop, "A") == ["A"];
    assert IsCycle(selfLoop, ["A", "A"]);

    var mutual := [Talent("A", ["B"]), Talent("B", ["A"])];
    assert Prereqs(mutual, "A") == ["B"];
    assert Prereqs(mutual, "B") == ["A"];
    assert IsCycle(mutual, ["A", "B", "A"]);

    var chain := [Talent("A", []), Talent("B", ["A"]), Talent("C", ["B", "A"])];
    var order := ["A", "B", "C"];
    assert Prereqs(chain, "A") == [];
    assert Prereqs(chain, "B") == ["A"];
    assert Prereqs(chain, "C") == ["B", "A"];
    assert order[..1] == ["A"] && order[..2] == ["A", "B"];
    assert forall i, v :: 0 <= i < |order| && v in Prereqs(chain, order[i]) ==> v in order[..i] by {
      forall i, v | 0 <= i < |order| && v in Prereqs(chain, order[i]) ensures v in order[..i] {
        assert i == 0 || i == 1 || i == 2;
      }
    }
    NoCycleWhenAllFinished(chain, order);
  }

  /**
   * The node the circular-dependency error names need not lie on the cycle: with X
   * needing Y and Y needing itself, the search from X, the first node, meets the
   * cycle, yet no cycle passes through X.
   */
  lemma ReportedNodeNeedNotBeOnCycle()
    ensures var nodes := [Talent("X", ["Y"]), Talent("Y", ["Y"])];
      && CycleReachableFrom(nodes, "X")
      && forall path :: IsCycle(nodes, path) ==> "X" !in path
  {
    var nodes := [Talent("X", ["Y"]), Talent("Y", ["Y"])];
    assert Prereqs(nodes, "X") == ["Y"];
    assert Prereqs(nodes, "Y") == ["Y"];
    var lasso := ["X", "Y", "Y"];
    assert lasso[..2] == ["X", "Y"];
    assert LassoFrom(nodes, "X", lasso);
    forall u
      ensures "X" !in Prereqs(nodes, u)
    {
      if u != "X" && u != "Y" {
        assert FindNode(nodes, u).None?;
      }
    }
    forall path | IsCycle(nodes, path)
      ensures "X" !in path
    {
      OnlyFirstUnlisted(nodes, path, "X");
    }
  }

  /** An id that no node lists as a prerequisite can occur on a path only at its start. */
  lemma OnlyFirstUnlisted(nodes: seq<TalentNode>, path: seq<string>, x: string)
    requires IsPath(nodes, path)
    requires forall u :: x !in Prereqs(nodes, u)
    ensures forall i :: 0 < i < |path| ==> path[i] != x
  {
    forall i | 0 < i < |path|
      ensures path[i] != x
    {
      assert path[i] in Prereqs(nodes, path[i - 1]);
    }
  }
}
